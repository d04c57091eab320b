/** The in-memory tables the analysis passes around: an expression frame
    indexed by Gene_ID with named columns, and the rows of a differential
    expression result. Tables are values: no operation changes its argument. */
module Tables {
  import opened Wrappers
  import opened Seqs

  /** A cell read from a CSV: a number, or text (an annotation or a value
      the reader could not parse as a number). */
  datatype Cell = Num(x: real) | Str(s: string)

  /** A frame: row labels (Gene_IDs), column labels, and one row of cells
      per label. */
  datatype Table = Table(index: seq<string>, columns: seq<string>, rows: seq<seq<Cell>>)

  predicate WellFormed(t: Table) {
    && |t.rows| == |t.index|
    && (forall i :: 0 <= i < |t.rows| ==> |t.rows[i]| == |t.columns|)
    && Distinct(t.columns)
  }

  /** One row of the result: Gene_ID, log2FoldChange, p_value and, once
      merged back, the Function annotation. `None` stands for NaN. */
  datatype DeResult = DeResult(
    geneId: string,
    log2FoldChange: Option<real>,
    pValue: Option<real>,
    annotation: Option<Cell>)

  function ColumnIndex(cols: seq<string>, name: string): (k: nat)
    requires name in cols
    ensures k < |cols| && cols[k] == name
    ensures forall j :: 0 <= j < k ==> cols[j] != name
  {
    if cols[0] == name then 0 else 1 + ColumnIndex(cols[1..], name)
  }

  /** `t[name]` as a sequence of cells, one per row. */
  function Column(t: Table, name: string): (col: seq<Cell>)
    requires WellFormed(t) && name in t.columns
    ensures |col| == |t.index|
  {
    var k := ColumnIndex(t.columns, name);
    seq(|t.rows|, i requires 0 <= i < |t.rows| => t.rows[i][k])
  }

  function RemoveAt<T>(s: seq<T>, k: nat): (r: seq<T>)
    requires k < |s|
    ensures |r| == |s| - 1
    ensures forall j :: 0 <= j < k ==> r[j] == s[j]
    ensures forall j :: k <= j < |r| ==> r[j] == s[j + 1]
  {
    s[..k] + s[k + 1..]
  }

  /** `t.drop(columns=[name])`: a new frame with the same index, without
      that column, and with every other column unchanged. */
  function Drop(t: Table, name: string): (r: Table)
    requires WellFormed(t) && name in t.columns
    ensures WellFormed(r) && r.index == t.index
    ensures name !in r.columns
    ensures forall c :: c in r.columns <==> c in t.columns && c != name
    ensures forall c :: c in r.columns ==> Column(r, c) == Column(t, c)
  {
    var k := ColumnIndex(t.columns, name);
    var r := Table(t.index, RemoveAt(t.columns, k),
                   seq(|t.rows|, i requires 0 <= i < |t.rows| => RemoveAt(t.rows[i], k)));
    RemoveDistinct(t.columns, k);
    forall c | c in r.columns ensures Column(r, c) == Column(t, c) {
      DropKeepsColumn(t, k, r, c);
    }
    r
  }

  lemma RemoveDistinct(cols: seq<string>, k: nat)
    requires Distinct(cols) && k < |cols|
    ensures Distinct(RemoveAt(cols, k))
    ensures forall c :: c in RemoveAt(cols, k) <==> c in cols && c != cols[k]
  {
    var r := RemoveAt(cols, k);
    forall c | c in cols && c != cols[k] ensures c in r {
      var j :| 0 <= j < |cols| && cols[j] == c;
      assert r[if j < k then j else j - 1] == c;
    }
  }

  lemma DropKeepsColumn(t: Table, k: nat, r: Table, c: string)
    requires WellFormed(t) && k < |t.columns|
    requires r == Table(t.index, RemoveAt(t.columns, k),
                        seq(|t.rows|, i requires 0 <= i < |t.rows| => RemoveAt(t.rows[i], k)))
    requires WellFormed(r) && c in r.columns
    ensures c in t.columns && Column(r, c) == Column(t, c)
  {
    var j := ColumnIndex(r.columns, c);
    var j' := if j < k then j else j + 1;
    assert t.columns[j'] == c;
    ColumnIndexOf(t.columns, j');
    var colR := Column(r, c);
    var colT := Column(t, c);
    forall i | 0 <= i < |t.rows| ensures colR[i] == colT[i] {
      assert colR[i] == r.rows[i][j] == RemoveAt(t.rows[i], k)[j];
    }
  }

  /** In distinct labels, the position of a label is where it stands. */
  lemma ColumnIndexOf(cols: seq<string>, j: nat)
    requires Distinct(cols) && j < |cols|
    ensures ColumnIndex(cols, cols[j]) == j
  {
  }

  /** The same frame with the cells of column `name` replaced by `vals`. */
  function SetColumn(t: Table, name: string, vals: seq<Cell>): (r: Table)
    requires WellFormed(t) && name in t.columns && |vals| == |t.index|
    ensures WellFormed(r) && r.index == t.index && r.columns == t.columns
    ensures Column(r, name) == vals
  {
    var k := ColumnIndex(t.columns, name);
    Table(t.index, t.columns,
          seq(|t.rows|, i requires 0 <= i < |t.rows| => t.rows[i][k := vals[i]]))
  }

  /** Dropping a column forgets its contents: frames that differ only in
      that column are equal once it is dropped. */
  lemma DropForgetsColumn(t: Table, name: string, vals: seq<Cell>)
    requires WellFormed(t) && name in t.columns && |vals| == |t.index|
    ensures Drop(SetColumn(t, name, vals), name) == Drop(t, name)
  {
    var t' := SetColumn(t, name, vals);
    var k := ColumnIndex(t.columns, name);
    assert ColumnIndex(t'.columns, name) == k;
    forall i | 0 <= i < |t.rows|
      ensures RemoveAt(t'.rows[i], k) == RemoveAt(t.rows[i], k)
    {
    }
  }
}
