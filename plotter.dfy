/** The data preparation behind the two plots: the significance label of
    the volcano plot, and for the heatmap the top-N genes by p-value and the
    expression rows of those genes. Drawing, `-log10` and the per-row
    z-score are rendering and floating point and are not modelled. */
module Plotter {
  import opened Wrappers
  import opened Seqs
  import opened Tables

  const PThreshold: real := 0.05
  const FcThreshold: real := 1.0

  datatype Label = Significant | NotSignificant

  /** The text written into the `Significant` column. */
  function LabelText(l: Label): string {
    match l
    case Significant => "Significant"
    case NotSignificant => "Not Significant"
  }

  function Abs(x: real): real {
    if x < 0.0 then -x else x
  }

  /** The row mask `(p_value < 0.05) & (|log2FoldChange| >= 1)`. A NaN
      (`None`) fails every comparison, so it never passes. */
  predicate Mask(row: DeResult) {
    && row.pValue.Some? && row.pValue.value < PThreshold
    && row.log2FoldChange.Some? && Abs(row.log2FoldChange.value) >= FcThreshold
  }

  /** A row of the volcano frame: the row as read plus its label. */
  datatype VolcanoRow = VolcanoRow(deg: DeResult, significant: Label)

  /** Write `Not Significant` into every row, then overwrite the cells the
      mask selects with `Significant`. */
  method LabelSignificance(df: seq<DeResult>) returns (out: seq<VolcanoRow>)
    ensures |out| == |df|
    ensures forall i :: 0 <= i < |df| ==> out[i].deg == df[i]
    ensures forall i :: 0 <= i < |df| ==>
      (out[i].significant == Significant <==>
         && df[i].pValue.Some? && df[i].pValue.value < 0.05
         && df[i].log2FoldChange.Some? && Abs(df[i].log2FoldChange.value) >= 1.0)
  {
    out := seq(|df|, i requires 0 <= i < |df| => VolcanoRow(df[i], NotSignificant));
    for i := 0 to |df|
      invariant |out| == |df|
      invariant forall j :: 0 <= j < |df| ==> out[j].deg == df[j]
      invariant forall j :: 0 <= j < i ==> (out[j].significant == Significant <==> Mask(df[j]))
      invariant forall j :: i <= j < |df| ==> out[j].significant == NotSignificant
    {
      if Mask(df[i]) {
        out := out[i := VolcanoRow(df[i], Significant)];
      }
    }
  }

  /** At the edges: p = 0.05 is never significant, |log2FoldChange| = 1
      with p < 0.05 is, and a NaN p-value or fold change never is. */
  lemma MaskBoundaries(gene: string, fc: Option<real>, p: real, annotation: Option<Cell>)
    ensures !Mask(DeResult(gene, fc, Some(0.05), annotation))
    ensures p < 0.05 ==> Mask(DeResult(gene, Some(1.0), Some(p), annotation))
    ensures p < 0.05 ==> Mask(DeResult(gene, Some(-1.0), Some(p), annotation))
    ensures !Mask(DeResult(gene, fc, None, annotation))
    ensures !Mask(DeResult(gene, None, Some(p), annotation))
  {
  }

  // ---------------------------------------------------------------------
  // Top-N selection: `sort_values("p_value").head(top_n)["Gene_ID"]`

  /** The order `sort_values` sorts by: ascending, NaN last. */
  predicate PLe(a: Option<real>, b: Option<real>) {
    b.None? || (a.Some? && a.value <= b.value)
  }

  predicate SortedByP(s: seq<DeResult>) {
    forall i, j :: 0 <= i < j < |s| ==> PLe(s[i].pValue, s[j].pValue)
  }

  function Insert(x: DeResult, s: seq<DeResult>): (r: seq<DeResult>)
    requires SortedByP(s)
    ensures SortedByP(r)
    ensures multiset(r) == multiset(s) + multiset{x}
    ensures |r| == |s| + 1
    ensures forall y :: y in r ==> y == x || y in s
  {
    if s == [] then [x]
    else if PLe(x.pValue, s[0].pValue) then [x] + s
    else
      var rest := Insert(x, s[1..]);
      assert s == [s[0]] + s[1..];
      FirstIsLeast(s, x, rest);
      [s[0]] + rest
  }

  lemma FirstIsLeast(s: seq<DeResult>, x: DeResult, rest: seq<DeResult>)
    requires SortedByP(s) && s != [] && PLe(s[0].pValue, x.pValue)
    requires SortedByP(rest) && forall y :: y in rest ==> y == x || y in s[1..]
    ensures SortedByP([s[0]] + rest)
  {
    var r := [s[0]] + rest;
    forall i, j | 0 <= i < j < |r| ensures PLe(r[i].pValue, r[j].pValue) {
      if i == 0 {
        assert r[j] == rest[j - 1] && rest[j - 1] in rest;
        if r[j] != x {
          var m :| 0 <= m < |s[1..]| && s[1..][m] == r[j];
          assert s[m + 1] == r[j];
        }
      } else {
        assert r[i] == rest[i - 1] && r[j] == rest[j - 1];
      }
    }
  }

  /** One sort that `sort_values` may produce. The quicksort pandas uses by
      default is not stable, so nothing below depends on the order of rows
      with equal p-values: only on the result being sorted and a
      permutation. */
  function SortByP(s: seq<DeResult>): (r: seq<DeResult>)
    ensures SortedByP(r)
    ensures multiset(r) == multiset(s)
    ensures |r| == |s|
  {
    if s == [] then []
    else
      assert s == [s[0]] + s[1..];
      Insert(s[0], SortByP(s[1..]))
  }

  /** The `Gene_ID` column of result rows. */
  function GeneIds(rows: seq<DeResult>): seq<string> {
    Map((r: DeResult) => r.geneId, rows)
  }

  /** The default of `plot_heatmap`'s `top_n`. */
  const DefaultTopN: int := 10

  /** The Gene_IDs of the first `topN` rows in p-value order. */
  function TopGenes(deg: seq<DeResult>, topN: int): seq<string> {
    GeneIds(Head(SortByP(deg), topN))
  }

  /** Cutting a sorted sequence anywhere leaves no element after the cut
      smaller than one before it. */
  lemma SortedSplit(s: seq<DeResult>, k: nat)
    requires SortedByP(s) && k <= |s|
    ensures forall a, b :: a in s[..k] && b in s[k..] ==> PLe(a.pValue, b.pValue)
  {
    forall a, b | a in s[..k] && b in s[k..] ensures PLe(a.pValue, b.pValue) {
      var i :| 0 <= i < k && s[..k][i] == a;
      var j :| 0 <= j < |s| - k && s[k..][j] == b;
      assert s[i] == a && s[k + j] == b;
    }
  }

  /** The selection splits the rows into a chosen part and the rest: the
      chosen part has `min(top_n, rows)` rows, together the two parts are
      exactly the input rows, and no unchosen p-value is smaller than a
      chosen one, NaN counting as largest. */
  lemma TopGenesSelection(deg: seq<DeResult>, topN: int)
    ensures var sorted := SortByP(deg);
      var k := |TopGenes(deg, topN)|;
      && k <= |deg|
      && (topN >= 0 ==> k == Min(topN, |deg|))
      && TopGenes(deg, topN) == GeneIds(sorted[..k])
      && multiset(sorted[..k]) + multiset(sorted[k..]) == multiset(deg)
      && forall a, b :: a in sorted[..k] && b in sorted[k..] ==> PLe(a.pValue, b.pValue)
  {
    var sorted := SortByP(deg);
    var head := Head(sorted, topN);
    var k := |head|;
    assert head == sorted[..k];
    assert sorted == sorted[..k] + sorted[k..];
    SortedSplit(sorted, k);
  }

  /** NaN p-values are chosen only after all numeric ones: if a chosen row
      has a NaN p-value, so does every unchosen row; if an unchosen row has
      a number, every chosen row has a number no larger. */
  lemma NanChosenLast(deg: seq<DeResult>, topN: int)
    ensures var sorted := SortByP(deg);
      var k := |TopGenes(deg, topN)|;
      forall a, b :: a in sorted[..k] && b in sorted[k..] ==>
        (a.pValue.None? ==> b.pValue.None?) &&
        (b.pValue.Some? ==> a.pValue.Some? && a.pValue.value <= b.pValue.value)
  {
    TopGenesSelection(deg, topN);
  }

  // ---------------------------------------------------------------------
  // Heatmap rows: `expr_df[expr_df["Gene_ID"].isin(top_genes)]`

  /** A row of the expression file: its Gene_ID and the remaining cells. */
  datatype ExprRow = ExprRow(geneId: string, samples: seq<Cell>)

  /** The boolean-mask selection: the rows whose Gene_ID is in `top`, in
      the expression table's own order. */
  function FilterIsIn(expr: seq<ExprRow>, top: seq<string>): (r: seq<ExprRow>)
    ensures |r| <= |expr|
    ensures forall x :: x in r <==> x in expr && x.geneId in top
  {
    if expr == [] then []
    else (if expr[0].geneId in top then [expr[0]] else []) + FilterIsIn(expr[1..], top)
  }

  function HeatmapRows(expr: seq<ExprRow>, deg: seq<DeResult>, topN: int): seq<ExprRow> {
    FilterIsIn(expr, TopGenes(deg, topN))
  }

  /** The selection works chunk by chunk, so it keeps the expression
      table's order. */
  lemma {:induction false} FilterAppend(a: seq<ExprRow>, b: seq<ExprRow>, top: seq<string>)
    ensures FilterIsIn(a + b, top) == FilterIsIn(a, top) + FilterIsIn(b, top)
  {
    if a == [] {
      assert a + b == b;
    } else {
      assert (a + b)[1..] == a[1..] + b;
      FilterAppend(a[1..], b, top);
    }
  }

  /** Only which genes are listed matters, not their order: in particular
      the p-value order of the top-N list does not reorder the rows. */
  lemma {:induction false} FilterIgnoresListOrder(expr: seq<ExprRow>, top: seq<string>, top': seq<string>)
    requires forall g :: g in top <==> g in top'
    ensures FilterIsIn(expr, top) == FilterIsIn(expr, top')
  {
    if expr != [] {
      FilterIgnoresListOrder(expr[1..], top, top');
    }
  }

  predicate DistinctIds(rows: seq<ExprRow>) {
    forall i, j :: 0 <= i < j < |rows| ==> rows[i].geneId != rows[j].geneId
  }

  lemma {:induction false} FilterKeepsDistinct(expr: seq<ExprRow>, top: seq<string>)
    requires DistinctIds(expr)
    ensures DistinctIds(FilterIsIn(expr, top))
  {
    if expr != [] {
      var rest := FilterIsIn(expr[1..], top);
      FilterKeepsDistinct(expr[1..], top);
      if expr[0].geneId in top {
        forall x | x in rest ensures x.geneId != expr[0].geneId {
          var m :| 0 <= m < |expr[1..]| && expr[1..][m] == x;
          assert expr[m + 1] == x;
        }
        var r := [expr[0]] + rest;
        forall i, j | 0 <= i < j < |r| ensures r[i].geneId != r[j].geneId {
          if i == 0 {
            assert r[j] in rest;
          } else {
            assert r[i] == rest[i - 1] && r[j] == rest[j - 1];
          }
        }
      }
    }
  }

  /** With unique Gene_IDs in the expression table, the heatmap has at most
      `top_n` rows. */
  lemma HeatmapAtMostTopN(expr: seq<ExprRow>, deg: seq<DeResult>, topN: int)
    requires DistinctIds(expr) && topN >= 0
    ensures |HeatmapRows(expr, deg, topN)| <= topN
  {
    var top := TopGenes(deg, topN);
    var rows := HeatmapRows(expr, deg, topN);
    var ids := Map((x: ExprRow) => x.geneId, rows);
    FilterKeepsDistinct(expr, top);
    assert Distinct(ids);
    ToSetCard(ids);
    ToSetCard(top);
    assert ToSet(ids) <= ToSet(top) by {
      forall g | g in ToSet(ids) ensures g in ToSet(top) {
        var m :| 0 <= m < |ids| && ids[m] == g;
        assert rows[m] in rows;
      }
    }
    SubsetCard(ToSet(ids), ToSet(top));
    TopGenesSelection(deg, topN);
  }
}
