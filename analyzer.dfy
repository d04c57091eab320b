/** `compute_differential_expression`: one result row per gene of the
    frame's index, with the log2 fold change of the group means and the
    p-value of Welch's test, the Function column set aside before the
    computation and merged back afterwards by Gene_ID.

    Logarithm, rounding and the test itself are floating-point or library
    code; they are the uninterpreted functions of a `Numerics` value. */
module Analyzer {
  import opened Wrappers
  import opened Seqs
  import opened Tables

  const FunctionColumn: string := "Function"
  const GeneIdColumn: string := "Gene_ID"

  /** The exceptions the computation can raise: a `KeyError` naming the
      missing labels, or a `TypeError` when a requested cell of a gene is
      not a number. */
  datatype Error = KeyError(labels: seq<string>) | TypeError(gene: string)

  /** `np.log2`, `round(x, digits)` and the p-value of
      `ttest_ind(a, b, equal_var=False)`; `None` from `log2` or the test
      stands for NaN (the logarithm of a negative number is NaN). */
  datatype Numerics = Numerics(
    log2: real -> Option<real>,
    round: (real, int) -> real,
    welchP: (seq<real>, seq<real>) -> Option<real>)

  /** The requested labels that are not columns, in request order. */
  function Missing(cols: seq<string>, have: seq<string>): (r: seq<string>)
    ensures forall c :: c in r <==> c in cols && c !in have
    ensures |r| <= |cols|
  {
    if cols == [] then []
    else (if cols[0] in have then [] else [cols[0]]) + Missing(cols[1..], have)
  }

  /** `df.loc[gene, cols]`: the cells of row `i` under the requested
      labels, in request order, or a `KeyError` listing the absent ones. */
  function Loc(t: Table, i: nat, cols: seq<string>): (r: Result<seq<Cell>, Error>)
    requires WellFormed(t) && i < |t.index|
    ensures r.Ok? <==> forall c :: c in cols ==> c in t.columns
    ensures r.Err? ==> r.error == KeyError(Missing(cols, t.columns))
    ensures r.Ok? ==>
      |r.value| == |cols| && forall k :: 0 <= k < |cols| ==> r.value[k] == CellAt(t, i, cols[k])
  {
    var missing := Missing(cols, t.columns);
    if missing != [] then
      assert missing[0] in cols && missing[0] !in t.columns;
      Err(KeyError(missing))
    else
      Ok(seq(|cols|, k requires 0 <= k < |cols| => t.rows[i][ColumnIndex(t.columns, cols[k])]))
  }

  /** The cell of row `i` under label `c`. */
  function CellAt(t: Table, i: nat, c: string): (cell: Cell)
    requires WellFormed(t) && i < |t.index| && c in t.columns
    ensures cell == Column(t, c)[i]
  {
    t.rows[i][ColumnIndex(t.columns, c)]
  }

  /** Every requested label is a column and row `i` holds a number there. */
  predicate AllNumeric(t: Table, i: nat, cols: seq<string>)
    requires WellFormed(t) && i < |t.index|
  {
    forall c :: c in cols ==> c in t.columns && CellAt(t, i, c).Num?
  }

  /** The numbers of row `i` under the requested labels, in request order. */
  function Values(t: Table, i: nat, cols: seq<string>): (v: seq<real>)
    requires WellFormed(t) && i < |t.index| && AllNumeric(t, i, cols)
    ensures |v| == |cols|
  {
    seq(|cols|, k requires 0 <= k < |cols| => CellAt(t, i, cols[k]).x)
  }

  /** The numbers behind the cells, or a `TypeError` naming the gene. */
  function Numbers(cells: seq<Cell>, gene: string): (r: Result<seq<real>, Error>)
    ensures r.Ok? <==> forall k :: 0 <= k < |cells| ==> cells[k].Num?
    ensures r.Err? ==> r.error == TypeError(gene)
    ensures r.Ok? ==>
      |r.value| == |cells| && forall k :: 0 <= k < |cells| ==> r.value[k] == cells[k].x
  {
    if forall k :: 0 <= k < |cells| ==> cells[k].Num? then
      Ok(seq(|cells|, k requires 0 <= k < |cells| => cells[k].x))
    else
      Err(TypeError(gene))
  }

  function Sum(v: seq<real>): real {
    if v == [] then 0.0 else v[0] + Sum(v[1..])
  }

  /** `np.mean`: the arithmetic mean, NaN for no values. */
  function Mean(v: seq<real>): (m: Option<real>)
    ensures m.None? <==> v == []
    ensures m.Some? ==> m.value * (|v| as real) == Sum(v)
  {
    if v == [] then None else Some(Sum(v) / (|v| as real))
  }

  function Negate(x: Option<real>): Option<real> {
    match x
    case None => None
    case Some(v) => Some(-v)
  }

  /** `log2(mean_stress + 1) - log2(mean_control + 1)`: NaN when either
      mean is NaN or either logarithm is. */
  function FoldChange(log2: real -> Option<real>, meanControl: Option<real>, meanStress: Option<real>): Option<real> {
    if meanControl.None? || meanStress.None? then None
    else
      var logStress := log2(meanStress.value + 1.0);
      var logControl := log2(meanControl.value + 1.0);
      if logStress.None? || logControl.None? then None
      else Some(logStress.value - logControl.value)
  }

  function RoundOpt(num: Numerics, x: Option<real>, digits: int): Option<real> {
    match x
    case None => None
    case Some(v) => Some(num.round(v, digits))
  }

  /** The control and stress values of row `i`, in the order Python reads
      them: both lookups first, then the two means, which force the cells
      to be numbers. */
  function GroupValues(t: Table, i: nat, controlCols: seq<string>, stressCols: seq<string>)
    : Result<(seq<real>, seq<real>), Error>
    requires WellFormed(t) && i < |t.index|
  {
    var controlCells :- Loc(t, i, controlCols);
    var stressCells :- Loc(t, i, stressCols);
    var controlVals :- Numbers(controlCells, t.index[i]);
    var stressVals :- Numbers(stressCells, t.index[i]);
    Ok((controlVals, stressVals))
  }

  /** The values are found exactly when every requested label is a column
      holding a number in row `i`; they are then the row's numbers under
      the control and the stress labels. Otherwise the exception is a
      `KeyError` for the absent control labels, else one for the absent
      stress labels, else a `TypeError` naming the gene. */
  lemma GroupValuesSpec(t: Table, i: nat, controlCols: seq<string>, stressCols: seq<string>)
    requires WellFormed(t) && i < |t.index|
    ensures var r := GroupValues(t, i, controlCols, stressCols);
      && (r.Ok? <==> AllNumeric(t, i, controlCols) && AllNumeric(t, i, stressCols))
      && (r.Ok? ==> r.value == (Values(t, i, controlCols), Values(t, i, stressCols)))
      && (r.Err? ==>
        r.error == (
          if Missing(controlCols, t.columns) != [] then KeyError(Missing(controlCols, t.columns))
          else if Missing(stressCols, t.columns) != [] then KeyError(Missing(stressCols, t.columns))
          else TypeError(t.index[i])))
  {
    var controlCells := Loc(t, i, controlCols);
    var stressCells := Loc(t, i, stressCols);
    if controlCells.Ok? && stressCells.Ok? {
      LocNumbers(t, i, controlCols, controlCells.value);
      LocNumbers(t, i, stressCols, stressCells.value);
    }
  }

  lemma LocNumbers(t: Table, i: nat, cols: seq<string>, cells: seq<Cell>)
    requires WellFormed(t) && i < |t.index|
    requires Loc(t, i, cols) == Ok(cells)
    ensures Numbers(cells, t.index[i]).Ok? <==> AllNumeric(t, i, cols)
    ensures Numbers(cells, t.index[i]).Ok? ==> Numbers(cells, t.index[i]).value == Values(t, i, cols)
  {
    if AllNumeric(t, i, cols) {
      forall k | 0 <= k < |cells| ensures cells[k].Num? {
        assert cols[k] in cols;
      }
    }
    if Numbers(cells, t.index[i]).Ok? {
      forall c | c in cols ensures CellAt(t, i, c).Num? {
        var k :| 0 <= k < |cols| && cols[k] == c;
        assert cells[k] == CellAt(t, i, c);
      }
    }
  }

  /** The result row of one gene before any Function is merged back. */
  function GeneResult(t: Table, i: nat, controlCols: seq<string>, stressCols: seq<string>, num: Numerics)
    : (r: Result<DeResult, Error>)
    requires WellFormed(t) && i < |t.index|
    ensures r.Ok? ==> r.value.geneId == t.index[i]
  {
    var (controlVals, stressVals) :- GroupValues(t, i, controlCols, stressCols);
    var log2Fc := FoldChange(num.log2, Mean(controlVals), Mean(stressVals));
    var pVal := num.welchP(stressVals, controlVals);
    Ok(DeResult(t.index[i], RoundOpt(num, log2Fc, 3), RoundOpt(num, pVal, 4), None))
  }

  /** A gene's row carries its ID; its fold change is that of the
      arithmetic means of its control and stress cells, and its p-value is
      that of the test with the stress values first and the control values
      second, each rounded as stored. */
  lemma GeneResultValues(t: Table, i: nat, controlCols: seq<string>, stressCols: seq<string>, num: Numerics)
    requires WellFormed(t) && i < |t.index|
    requires AllNumeric(t, i, controlCols) && AllNumeric(t, i, stressCols)
    ensures var r := GeneResult(t, i, controlCols, stressCols, num);
      var controlVals := Values(t, i, controlCols);
      var stressVals := Values(t, i, stressCols);
      && r.Ok?
      && r.value.geneId == t.index[i]
      && r.value.annotation.None?
      && r.value.log2FoldChange == RoundOpt(num, FoldChange(num.log2, Mean(controlVals), Mean(stressVals)), 3)
      && r.value.pValue == RoundOpt(num, num.welchP(stressVals, controlVals), 4)
  {
    GroupValuesSpec(t, i, controlCols, stressCols);
  }

  /** A gene is computed without error exactly when every requested label
      is a column holding a number in the gene's row; otherwise the
      exception is a `KeyError` for the absent control labels, else one for
      the absent stress labels, else a `TypeError` naming the gene. */
  lemma GeneResultErrors(t: Table, i: nat, controlCols: seq<string>, stressCols: seq<string>, num: Numerics)
    requires WellFormed(t) && i < |t.index|
    ensures var r := GeneResult(t, i, controlCols, stressCols, num);
      r.Ok? <==> AllNumeric(t, i, controlCols) && AllNumeric(t, i, stressCols)
    ensures var r := GeneResult(t, i, controlCols, stressCols, num);
      r.Err? ==>
        r.error == (
          if Missing(controlCols, t.columns) != [] then KeyError(Missing(controlCols, t.columns))
          else if Missing(stressCols, t.columns) != [] then KeyError(Missing(stressCols, t.columns))
          else TypeError(t.index[i]))
  {
    GroupValuesSpec(t, i, controlCols, stressCols);
  }

  /** The frame the loop runs over: the caller's frame without Function. */
  function WithoutFunction(df: Table): (t: Table)
    requires WellFormed(df)
    ensures WellFormed(t) && t.index == df.index
    ensures FunctionColumn !in t.columns
  {
    if FunctionColumn in df.columns then Drop(df, FunctionColumn) else df
  }

  /** The rows of a Series: (index label, value) pairs. */
  function Zip(keys: seq<string>, vals: seq<Cell>): (r: seq<(string, Cell)>)
    requires |keys| == |vals|
    ensures |r| == |keys| && forall i :: 0 <= i < |r| ==> r[i] == (keys[i], vals[i])
  {
    seq(|keys|, i requires 0 <= i < |keys| => (keys[i], vals[i]))
  }

  /** The matches of one left row in an inner join, in right-hand order. */
  function Matches(row: DeResult, right: seq<(string, Cell)>): seq<DeResult> {
    if right == [] then []
    else
      (if right[0].0 == row.geneId then [row.(annotation := Some(right[0].1))] else [])
      + Matches(row, right[1..])
  }

  /** `left.merge(series, left_on="Gene_ID", right_index=True)`: an inner
      join that keeps the order of the left rows. */
  function Merge(left: seq<DeResult>, right: seq<(string, Cell)>): seq<DeResult> {
    if left == [] then [] else Matches(left[0], right) + Merge(left[1..], right)
  }

  method ComputeDifferentialExpression(df: Table, controlCols: seq<string>, stressCols: seq<string>, num: Numerics)
    returns (r: Result<seq<DeResult>, Error>)
    requires WellFormed(df) && Distinct(df.index)
    ensures r.Ok? <==>
      AllGenesOk(WithoutFunction(df), controlCols, stressCols, num) && !(FunctionColumn in df.columns && df.index == [])
    ensures r.Ok? ==> |r.value| == |df.index|
    ensures r.Ok? ==> forall i :: 0 <= i < |df.index| ==> r.value[i].geneId == df.index[i]
    ensures r.Ok? ==> forall i :: 0 <= i < |df.index| ==> r.value[i] == ResultRow(df, i, controlCols, stressCols, num)
    ensures r.Err? ==>
      || (FunctionColumn in df.columns && df.index == [] && r.error == KeyError([GeneIdColumn]))
      || exists i :: FirstFailure(WithoutFunction(df), i, controlCols, stressCols, num)
           && r.error == GeneResult(WithoutFunction(df), i, controlCols, stressCols, num).error
  {
    var functions: Option<seq<Cell>> := None;
    var frame := df;
    if FunctionColumn in df.columns {
      functions := Some(Column(df, FunctionColumn));
      frame := Drop(df, FunctionColumn);
    }
    assert frame == WithoutFunction(df);

    var rows := ComputeRows(frame, controlCols, stressCols, num);
    RowsSpec(frame, controlCols, stressCols, num);
    var results :- rows;

    if functions.Some? {
      if results == [] {
        // An empty result frame has no Gene_ID column to join on.
        return Err(KeyError([GeneIdColumn]));
      }
      AttachFunctions(df, results, controlCols, stressCols, num);
      results := Merge(results, Zip(frame.index, functions.value));
    }
    return Ok(results);
  }

  /** The computation of every gene of the frame, in index order. */
  function GeneResults(t: Table, controlCols: seq<string>, stressCols: seq<string>, num: Numerics)
    : (rs: seq<Result<DeResult, Error>>)
    requires WellFormed(t)
    ensures |rs| == |t.index|
    ensures forall i :: 0 <= i < |t.index| ==> rs[i] == GeneResult(t, i, controlCols, stressCols, num)
  {
    seq(|t.index|, i requires 0 <= i < |t.index| => GeneResult(t, i, controlCols, stressCols, num))
  }

  /** The genes' rows in index order, or the exception of the first gene
      whose computation raises; no later gene is computed. */
  lemma RowsSpec(t: Table, controlCols: seq<string>, stressCols: seq<string>, num: Numerics)
    requires WellFormed(t)
    ensures var r := Collect(GeneResults(t, controlCols, stressCols, num));
      && (r.Ok? <==> AllGenesOk(t, controlCols, stressCols, num))
      && (r.Ok? ==> |r.value| == |t.index|)
      && (r.Ok? ==> forall i :: 0 <= i < |t.index| ==> r.value[i] == GeneResult(t, i, controlCols, stressCols, num).value)
      && (r.Err? ==>
            exists i :: FirstFailure(t, i, controlCols, stressCols, num)
              && r.error == GeneResult(t, i, controlCols, stressCols, num).error)
  {
    var rs := GeneResults(t, controlCols, stressCols, num);
    CollectSpec(rs);
    if Collect(rs).Err? {
      var i :| 0 <= i < |rs| && rs[i].Err?
        && (forall j :: 0 <= j < i ==> rs[j].Ok?) && Collect(rs).error == rs[i].error;
      assert FirstFailure(t, i, controlCols, stressCols, num);
    }
  }

  /** The `for gene in df.index` loop: one row per gene, in index order,
      stopping at the first gene whose computation raises. */
  method ComputeRows(frame: Table, controlCols: seq<string>, stressCols: seq<string>, num: Numerics)
    returns (r: Result<seq<DeResult>, Error>)
    requires WellFormed(frame)
    ensures r == Collect(GeneResults(frame, controlCols, stressCols, num))
  {
    ghost var rs := GeneResults(frame, controlCols, stressCols, num);
    var results: seq<DeResult> := [];
    for i := 0 to |frame.index|
      invariant Collect(rs[..i]) == Ok(results)
    {
      var row := GeneResult(frame, i, controlCols, stressCols, num);
      CollectStep(rs, i);
      if row.Err? {
        CollectStops(rs, i + 1);
        return Err(row.error);
      }
      results := results + [row.value];
    }
    assert rs[..|frame.index|] == rs;
    return Ok(results);
  }

  lemma AttachFunctions(df: Table, results: seq<DeResult>, controlCols: seq<string>, stressCols: seq<string>, num: Numerics)
    requires WellFormed(df) && Distinct(df.index) && FunctionColumn in df.columns
    requires AllGenesOk(WithoutFunction(df), controlCols, stressCols, num) && |results| == |df.index|
    requires forall j :: 0 <= j < |results| ==>
      results[j] == GeneResult(WithoutFunction(df), j, controlCols, stressCols, num).value
    ensures var merged := Merge(results, Zip(df.index, Column(df, FunctionColumn)));
      && |merged| == |df.index|
      && forall i :: 0 <= i < |df.index| ==> merged[i] == ResultRow(df, i, controlCols, stressCols, num)
  {
    var t := WithoutFunction(df);
    forall j | 0 <= j < |results| ensures results[j].geneId == df.index[j] {
      assert GeneResult(t, j, controlCols, stressCols, num).Ok?;
    }
    MergeByIndex(results, df.index, Column(df, FunctionColumn));
  }

  /** Every gene of the frame is computed without an exception. */
  predicate AllGenesOk(t: Table, controlCols: seq<string>, stressCols: seq<string>, num: Numerics)
    requires WellFormed(t)
  {
    forall i :: 0 <= i < |t.index| ==> GeneResult(t, i, controlCols, stressCols, num).Ok?
  }

  /** Gene `i` is the first whose computation raises. */
  predicate FirstFailure(t: Table, i: int, controlCols: seq<string>, stressCols: seq<string>, num: Numerics)
    requires WellFormed(t)
  {
    && 0 <= i < |t.index|
    && GeneResult(t, i, controlCols, stressCols, num).Err?
    && forall j :: 0 <= j < i ==> GeneResult(t, j, controlCols, stressCols, num).Ok?
  }

  /** The final row of gene `i`: its computed row with the gene's own
      Function attached when the frame has that column. */
  function ResultRow(df: Table, i: nat, controlCols: seq<string>, stressCols: seq<string>, num: Numerics): DeResult
    requires WellFormed(df) && i < |df.index| && AllGenesOk(WithoutFunction(df), controlCols, stressCols, num)
  {
    var row := GeneResult(WithoutFunction(df), i, controlCols, stressCols, num).value;
    if FunctionColumn in df.columns then row.(annotation := Some(Column(df, FunctionColumn)[i])) else row
  }

  // ---------------------------------------------------------------------
  // The merge

  /** A row whose Gene_ID occurs exactly once on the right has exactly one
      match, carrying the value at that position. */
  lemma {:induction false} MatchesUnique(row: DeResult, right: seq<(string, Cell)>, j: nat)
    requires j < |right| && right[j].0 == row.geneId
    requires forall i :: 0 <= i < |right| && i != j ==> right[i].0 != row.geneId
    ensures Matches(row, right) == [row.(annotation := Some(right[j].1))]
  {
    if j == 0 {
      MatchesNone(row, right[1..]);
    } else {
      MatchesUnique(row, right[1..], j - 1);
    }
  }

  lemma {:induction false} MatchesNone(row: DeResult, right: seq<(string, Cell)>)
    requires forall i :: 0 <= i < |right| ==> right[i].0 != row.geneId
    ensures Matches(row, right) == []
  {
    if right != [] {
      MatchesNone(row, right[1..]);
    }
  }

  /** Merging result rows that follow a unique index with a Series on that
      index attaches to each row the value of its own Gene_ID, and keeps the
      number and the order of the rows. */
  lemma MergeByIndex(left: seq<DeResult>, keys: seq<string>, vals: seq<Cell>)
    requires |left| == |keys| == |vals| && Distinct(keys)
    requires forall i :: 0 <= i < |left| ==> left[i].geneId == keys[i]
    ensures |Merge(left, Zip(keys, vals))| == |left|
    ensures forall i :: 0 <= i < |left| ==>
      Merge(left, Zip(keys, vals))[i] == left[i].(annotation := Some(vals[i]))
  {
    var right := Zip(keys, vals);
    forall i | 0 <= i < |left|
      ensures Matches(left[i], right) == [left[i].(annotation := Some(vals[i]))]
    {
      MatchesUnique(left[i], right, i);
    }
    MergeSingles(left, right);
  }

  /** When every left row has exactly one match, the merge is that match
      for each row, in left order. */
  lemma {:induction false} MergeSingles(left: seq<DeResult>, right: seq<(string, Cell)>)
    requires forall i :: 0 <= i < |left| ==> |Matches(left[i], right)| == 1
    ensures |Merge(left, right)| == |left|
    ensures forall i :: 0 <= i < |left| ==> Merge(left, right)[i] == Matches(left[i], right)[0]
  {
    if left != [] {
      assert forall i :: 1 <= i < |left| ==> left[1..][i - 1] == left[i];
      MergeSingles(left[1..], right);
    }
  }

  // ---------------------------------------------------------------------
  // Properties of one gene's row

  /** The Function column never enters the computation: it cannot be
      requested as a group column once dropped, and rewriting its cells
      changes nothing the loop sees. */
  lemma FunctionNotComputed(df: Table, vals: seq<Cell>, i: nat, controlCols: seq<string>, stressCols: seq<string>, num: Numerics)
    requires WellFormed(df) && FunctionColumn in df.columns && |vals| == |df.index| && i < |df.index|
    ensures WithoutFunction(SetColumn(df, FunctionColumn, vals)) == WithoutFunction(df)
    ensures FunctionColumn in controlCols || FunctionColumn in stressCols ==>
      GeneResult(WithoutFunction(df), i, controlCols, stressCols, num).Err? &&
      GeneResult(WithoutFunction(df), i, controlCols, stressCols, num).error.KeyError?
  {
    DropForgetsColumn(df, FunctionColumn, vals);
    GeneResultErrors(WithoutFunction(df), i, controlCols, stressCols, num);
  }

  // ---------------------------------------------------------------------
  // The fold change

  lemma {:induction false} SumConstant(v: seq<real>, c: real)
    requires forall k :: 0 <= k < |v| ==> v[k] == c
    ensures Sum(v) == (|v| as real) * c
  {
    if v != [] {
      SumConstant(v[1..], c);
    }
  }

  /** The mean of replicates that all equal `c` is `c`. */
  lemma MeanConstant(v: seq<real>, c: real)
    requires v != [] && forall k :: 0 <= k < |v| ==> v[k] == c
    ensures Mean(v) == Some(c)
  {
    SumConstant(v, c);
    var n := |v| as real;
    assert n > 0.0 && Sum(v) == n * c;
    assert Sum(v) / n == c;
  }

  /** Equal group means give a zero fold change, and swapping the groups
      negates it (before rounding). */
  lemma FoldChangeAlgebra(log2: real -> Option<real>, meanControl: Option<real>, meanStress: Option<real>)
    ensures meanControl.Some? && log2(meanControl.value + 1.0).Some? ==>
      FoldChange(log2, meanControl, meanControl) == Some(0.0)
    ensures meanControl.Some? && log2(meanControl.value + 1.0).None? ==>
      FoldChange(log2, meanControl, meanStress) == None && FoldChange(log2, meanStress, meanControl) == None
    ensures FoldChange(log2, meanStress, meanControl) == Negate(FoldChange(log2, meanControl, meanStress))
  {
  }

  /** Swapping the control and the stress columns negates the stored fold
      change (Python's `round` is odd: `round(-x, d) == -round(x, d)`). */
  lemma SwapGroupsNegates(t: Table, i: nat, controlCols: seq<string>, stressCols: seq<string>, num: Numerics)
    requires WellFormed(t) && i < |t.index|
    requires GeneResult(t, i, controlCols, stressCols, num).Ok?
    requires forall x: real :: num.round(-x, 3) == -num.round(x, 3)
    ensures GeneResult(t, i, stressCols, controlCols, num).Ok?
    ensures GeneResult(t, i, stressCols, controlCols, num).value.log2FoldChange
         == Negate(GeneResult(t, i, controlCols, stressCols, num).value.log2FoldChange)
  {
    GeneResultErrors(t, i, controlCols, stressCols, num);
    GeneResultValues(t, i, controlCols, stressCols, num);
    GeneResultValues(t, i, stressCols, controlCols, num);
  }

  /** A gene whose control replicates all read `c` and whose stress
      replicates all read `c` too has a stored fold change of 0
      (`round(0.0, 3) == 0.0`), or NaN when `log2(c + 1)` is NaN. */
  lemma EqualReplicatesGiveZero(t: Table, i: nat, controlCols: seq<string>, stressCols: seq<string>, num: Numerics, c: real)
    requires WellFormed(t) && i < |t.index| && controlCols != [] && stressCols != []
    requires forall k :: 0 <= k < |controlCols| ==> controlCols[k] in t.columns && CellAt(t, i, controlCols[k]) == Num(c)
    requires forall k :: 0 <= k < |stressCols| ==> stressCols[k] in t.columns && CellAt(t, i, stressCols[k]) == Num(c)
    requires num.round(0.0, 3) == 0.0
    ensures GeneResult(t, i, controlCols, stressCols, num).Ok?
    ensures GeneResult(t, i, controlCols, stressCols, num).value.log2FoldChange
         == if num.log2(c + 1.0).Some? then Some(0.0) else None
  {
    forall x | x in controlCols + stressCols ensures x in t.columns && CellAt(t, i, x) == Num(c) {
      if x in controlCols {
        var k :| 0 <= k < |controlCols| && controlCols[k] == x;
      } else {
        var k :| 0 <= k < |stressCols| && stressCols[k] == x;
      }
    }
    GeneResultValues(t, i, controlCols, stressCols, num);
    MeanConstant(Values(t, i, controlCols), c);
    MeanConstant(Values(t, i, stressCols), c);
  }

  /** A group mean below -1 makes `np.log2(mean + 1)` NaN, and with it
      the stored fold change, whatever the other group holds (given that
      `log2` is NaN on negative numbers). */
  lemma NegativeMeanGivesNaN(t: Table, i: nat, controlCols: seq<string>, stressCols: seq<string>, num: Numerics)
    requires WellFormed(t) && i < |t.index|
    requires AllNumeric(t, i, controlCols) && AllNumeric(t, i, stressCols)
    requires forall x: real :: x < 0.0 ==> num.log2(x).None?
    requires || (Mean(Values(t, i, controlCols)).Some? && Mean(Values(t, i, controlCols)).value < -1.0)
             || (Mean(Values(t, i, stressCols)).Some? && Mean(Values(t, i, stressCols)).value < -1.0)
    ensures GeneResult(t, i, controlCols, stressCols, num).Ok?
    ensures GeneResult(t, i, controlCols, stressCols, num).value.log2FoldChange.None?
  {
    GeneResultValues(t, i, controlCols, stressCols, num);
  }
}
