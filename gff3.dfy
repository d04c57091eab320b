/** `gff3_to_csv`: reduce the lines of a GFF3 annotation file to
    (Gene_ID, Function) records, one per `gene` feature, and keep the first
    `subset_size` of them. Column 3 of a GFF3 line is the feature type and
    column 9 the `;`-separated `key=value` attributes; percent-escapes are
    not decoded, and any line starting with `#` is skipped. */
module Gff3 {
  import opened Wrappers
  import opened Seqs
  import opened Text

  /** A row of the CSV: columns Gene_ID and Function. */
  datatype GeneRecord = GeneRecord(geneId: string, description: string)

  const Unknown: string := "Unknown"
  const IdKey: string := "ID"
  const DescriptionKey: string := "description"

  predicate IsComment(line: string) {
    |line| > 0 && line[0] == '#'
  }

  /** The tab-separated columns of a line once surrounding whitespace (and
      so the line terminator) is stripped. */
  function Fields(line: string): seq<string> {
    Split(Strip(line), '\t')
  }

  /** One attribute piece: `None` without `=`, else key and value split at
      the first `=`. */
  function KeyValue(piece: string): Option<(string, string)> {
    SplitAtFirst(piece, '=')
  }

  predicate HasKey(piece: string, key: string) {
    KeyValue(piece).Some? && KeyValue(piece).value.0 == key
  }

  /** The attribute dictionary after inserting the pieces in order. */
  function AttrMap(pieces: seq<string>): map<string, string> {
    if pieces == [] then map[]
    else
      var m := AttrMap(pieces[..|pieces| - 1]);
      match KeyValue(pieces[|pieces| - 1])
      case None => m
      case Some((k, v)) => m[k := v]
  }

  /** The `;`-separated pieces of an attributes column. */
  function Pieces(field: string): seq<string> {
    Split(field, ';')
  }

  function Attributes(field: string): map<string, string> {
    AttrMap(Pieces(field))
  }

  function Lookup(attrs: map<string, string>, key: string): string {
    if key in attrs then attrs[key] else Unknown
  }

  function RecordOf(attrs: map<string, string>): GeneRecord {
    GeneRecord(Lookup(attrs, IdKey), Lookup(attrs, DescriptionKey))
  }

  /** The record a single line contributes, if any. */
  function LineRecord(line: string): Option<GeneRecord> {
    if IsComment(line) then None
    else
      var parts := Fields(line);
      if |parts| < 9 then None
      else if parts[2] == "gene" then Some(RecordOf(Attributes(parts[8])))
      else None
  }

  /** All records of a file, before truncation, in line order. */
  function GeneRecords(lines: seq<string>): seq<GeneRecord> {
    FilterMap(LineRecord, lines)
  }

  /** The inner loop: fill the dictionary piece by piece, later keys
      overwriting earlier ones. */
  method ParseAttributes(field: string) returns (attrs: map<string, string>)
    ensures attrs == Attributes(field)
  {
    var pieces := Split(field, ';');
    attrs := map[];
    for i := 0 to |pieces|
      invariant attrs == AttrMap(pieces[..i])
    {
      var attr := pieces[i];
      assert pieces[..i + 1][..i] == pieces[..i];
      if '=' in attr {
        var kv := SplitAtFirst(attr, '=');
        attrs := attrs[kv.value.0 := kv.value.1];
      }
    }
    assert pieces[..|pieces|] == pieces;
  }

  /** The default of `gff3_to_csv`'s `subset_size`. */
  const DefaultSubsetSize: int := 500

  /** The conversion: one pass over the lines, then `head(subset_size)`. */
  method Gff3ToCsv(lines: seq<string>, subsetSize: int) returns (records: seq<GeneRecord>)
    ensures records == Head(GeneRecords(lines), subsetSize)
    ensures |records| <= |lines|
  {
    var genes: seq<GeneRecord> := [];
    for i := 0 to |lines|
      invariant genes == GeneRecords(lines[..i])
    {
      var line := lines[i];
      assert lines[..i + 1][..i] == lines[..i];
      if IsComment(line) {
        continue;
      }
      var parts := Split(Strip(line), '\t');
      if |parts| < 9 {
        continue;
      }
      var featureType := parts[2];
      var attributes := parts[8];
      if featureType == "gene" {
        var attrDict := ParseAttributes(attributes);
        var geneId := if "ID" in attrDict then attrDict["ID"] else Unknown;
        var description := if "description" in attrDict then attrDict["description"] else Unknown;
        genes := genes + [GeneRecord(geneId, description)];
      }
    }
    assert lines[..|lines|] == lines;
    GeneRecordsLength(lines);
    records := Head(genes, subsetSize);
  }

  // ---------------------------------------------------------------------
  // Properties of the extraction

  /** Records are produced line by line: the records of two concatenated
      chunks are the records of the first followed by those of the second. */
  lemma GeneRecordsAppend(a: seq<string>, b: seq<string>)
    ensures GeneRecords(a + b) == GeneRecords(a) + GeneRecords(b)
  {
    FilterMapAppend(LineRecord, a, b);
  }

  /** The output never has more records than there are input lines. */
  lemma GeneRecordsLength(lines: seq<string>)
    ensures |GeneRecords(lines)| <= |lines|
  {
    FilterMapLength(LineRecord, lines);
  }

  /** A record is in the output exactly when some line yields it. */
  lemma GeneRecordsMember(lines: seq<string>, r: GeneRecord)
    ensures r in GeneRecords(lines) <==> exists i :: 0 <= i < |lines| && LineRecord(lines[i]) == Some(r)
  {
    FilterMapMember(LineRecord, lines, r);
  }

  /** A record is in the output exactly when some line is not a comment,
      has at least nine columns with `gene` in the third, and the
      attributes in its ninth column give that record. */
  lemma GeneRecordsFromGeneLines(lines: seq<string>, r: GeneRecord)
    ensures r in GeneRecords(lines) <==>
      exists i :: 0 <= i < |lines| && IsGeneLine(lines[i]) && RecordOf(Attributes(Fields(lines[i])[8])) == r
  {
    GeneRecordsMember(lines, r);
    forall i | 0 <= i < |lines|
      ensures LineRecord(lines[i]) == Some(r) <==>
        IsGeneLine(lines[i]) && RecordOf(Attributes(Fields(lines[i])[8])) == r
    {
      LineRecordOfGeneLine(lines[i]);
    }
  }

  predicate IsGeneLine(line: string) {
    !IsComment(line) && |Fields(line)| >= 9 && Fields(line)[2] == "gene"
  }

  lemma LineRecordOfGeneLine(line: string)
    ensures LineRecord(line).Some? <==> IsGeneLine(line)
    ensures IsGeneLine(line) ==> LineRecord(line) == Some(RecordOf(Attributes(Fields(line)[8])))
  {
  }

  /** A line with a leading `#` never contributes a record, wherever it is. */
  lemma CommentLineSkipped(before: seq<string>, line: string, after: seq<string>)
    requires |line| > 0 && line[0] == '#'
    ensures GeneRecords(before + [line] + after) == GeneRecords(before + after)
  {
    SingleLineSkipped(before, line, after);
  }

  /** A line with fewer than nine tab-separated columns after stripping
      (equivalently, fewer than eight tabs) never contributes a record. */
  lemma ShortLineSkipped(before: seq<string>, line: string, after: seq<string>)
    requires multiset(Strip(line))['\t'] < 8
    ensures |Fields(line)| < 9
    ensures GeneRecords(before + [line] + after) == GeneRecords(before + after)
  {
    SplitCount(Strip(line), '\t');
    assert |Fields(line)| == multiset(Strip(line))['\t'] + 1;
    assert LineRecord(line).None?;
    SingleLineSkipped(before, line, after);
  }

  /** A line whose type column is not exactly `gene` never contributes. */
  lemma OtherFeatureSkipped(before: seq<string>, line: string, after: seq<string>)
    requires |Fields(line)| >= 9 && Fields(line)[2] != "gene"
    ensures GeneRecords(before + [line] + after) == GeneRecords(before + after)
  {
    SingleLineSkipped(before, line, after);
  }

  lemma SingleLineSkipped(before: seq<string>, line: string, after: seq<string>)
    requires LineRecord(line).None?
    ensures GeneRecords(before + [line] + after) == GeneRecords(before + after)
  {
    GeneRecordsAppend(before + [line], after);
    GeneRecordsAppend(before, [line]);
    GeneRecordsAppend(before, after);
    assert [line][..0] == [];
  }

  /** A gene line: a non-comment line whose nine or more tab-separated
      columns, not padded by whitespace, are followed by whitespace only
      (the line terminator) yields exactly the record of its column 9. */
  lemma GeneLineRecord(fields: seq<string>, eol: string)
    requires |fields| >= 9
    requires forall i :: 0 <= i < |fields| ==> '\t' !in fields[i]
    requires fields[2] == "gene"
    requires var body := Join(fields, '\t');
      body != [] && body[0] != '#' && !IsSpace(body[0]) && !IsSpace(body[|body| - 1])
    requires forall k :: 0 <= k < |eol| ==> IsSpace(eol[k])
    ensures LineRecord(Join(fields, '\t') + eol) == Some(RecordOf(Attributes(fields[8])))
  {
    var body := Join(fields, '\t');
    StripTrailingSpace(body, eol);
    SplitJoin(fields, '\t');
  }

  /** Stripping a clean text followed by whitespace gives the text back. */
  lemma StripTrailingSpace(body: string, eol: string)
    requires body != [] && !IsSpace(body[0]) && !IsSpace(body[|body| - 1])
    requires forall k :: 0 <= k < |eol| ==> IsSpace(eol[k])
    ensures Strip(body + eol) == body
  {
    var s := body + eol;
    assert LStrip(s) == s;
    var r := RStrip(s);
    assert !IsSpace(s[|body| - 1]);
    assert |r| >= |body|;
    assert s[..|body|] == body;
  }

  // ---------------------------------------------------------------------
  // Properties of the attribute dictionary

  /** A key is in the dictionary exactly when some piece carries it. */
  lemma {:induction false} AttrMapDomain(pieces: seq<string>, key: string)
    ensures key in AttrMap(pieces) <==> exists i :: 0 <= i < |pieces| && HasKey(pieces[i], key)
  {
    if pieces != [] {
      var init := pieces[..|pieces| - 1];
      AttrMapDomain(init, key);
      if exists i :: 0 <= i < |init| && HasKey(init[i], key) {
        var i :| 0 <= i < |init| && HasKey(init[i], key);
        assert pieces[i] == init[i];
      }
      if exists i :: 0 <= i < |pieces| && HasKey(pieces[i], key) {
        var i :| 0 <= i < |pieces| && HasKey(pieces[i], key);
        if i < |init| {
          assert init[i] == pieces[i];
        }
      }
    }
  }

  /** The last occurrence of a key wins: its value is the one stored. */
  lemma {:induction false} AttrMapLastWins(pieces: seq<string>, i: nat, key: string, value: string)
    requires i < |pieces| && KeyValue(pieces[i]) == Some((key, value))
    requires forall j :: i < j < |pieces| ==> !HasKey(pieces[j], key)
    ensures key in AttrMap(pieces) && AttrMap(pieces)[key] == value
  {
    var init := pieces[..|pieces| - 1];
    if i < |pieces| - 1 {
      AttrMapLastWins(init, i, key, value);
    }
  }

  /** Pieces without `=` play no part: dropping them leaves the dictionary
      unchanged. */
  lemma {:induction false} AttrMapIgnoresBarePieces(pieces: seq<string>)
    ensures AttrMap(pieces) == AttrMap(WithEquals(pieces))
  {
    if pieces != [] {
      var init := pieces[..|pieces| - 1];
      var last := pieces[|pieces| - 1];
      AttrMapIgnoresBarePieces(init);
      if '=' in last {
        var w := WithEquals(init) + [last];
        assert w[..|w| - 1] == WithEquals(init);
      }
    }
  }

  function WithEquals(pieces: seq<string>): seq<string> {
    if pieces == [] then []
    else
      var init := WithEquals(pieces[..|pieces| - 1]);
      var last := pieces[|pieces| - 1];
      if '=' in last then init + [last] else init
  }

  /** `attr_dict.get(key, "Unknown")` is `Unknown` when no piece of the
      field carries the key. */
  lemma LookupAbsent(field: string, key: string)
    requires var pieces := Pieces(field);
      forall i :: 0 <= i < |pieces| ==> !HasKey(pieces[i], key)
    ensures Lookup(Attributes(field), key) == Unknown
  {
    AttrMapDomain(Pieces(field), key);
  }

  /** `attr_dict.get(key, "Unknown")` for a key without `=` is the value of
      the last piece `key=value`; the value may itself contain `=`. */
  lemma LookupLast(field: string, key: string, i: nat, v: string)
    requires '=' !in key
    requires var pieces := Pieces(field);
      && i < |pieces| && pieces[i] == key + "=" + v
      && forall j :: i < j < |pieces| ==> !HasKey(pieces[j], key)
    ensures Lookup(Attributes(field), key) == v
  {
    SplitAtFirstInverse(key, v, '=');
    assert key + ['='] + v == key + "=" + v;
    AttrMapLastWins(Pieces(field), i, key, v);
  }

  /** Gene_ID is `Unknown` when column 9 has no `ID` piece. */
  lemma GeneIdAbsent(field: string)
    requires var pieces := Pieces(field);
      forall i :: 0 <= i < |pieces| ==> !HasKey(pieces[i], IdKey)
    ensures RecordOf(Attributes(field)).geneId == Unknown
  {
    LookupAbsent(field, IdKey);
  }

  /** Gene_ID is the value of the last `ID=` piece of column 9. */
  lemma GeneIdLastPiece(field: string, i: nat, v: string)
    requires var pieces := Pieces(field);
      && i < |pieces| && pieces[i] == IdKey + "=" + v
      && forall j :: i < j < |pieces| ==> !HasKey(pieces[j], IdKey)
    ensures RecordOf(Attributes(field)).geneId == v
  {
    LookupLast(field, IdKey, i, v);
  }

  /** Function is `Unknown` when column 9 has no `description` piece. */
  lemma FunctionAbsent(field: string)
    requires var pieces := Pieces(field);
      forall i :: 0 <= i < |pieces| ==> !HasKey(pieces[i], DescriptionKey)
    ensures RecordOf(Attributes(field)).description == Unknown
  {
    LookupAbsent(field, DescriptionKey);
  }

  /** Function is the value of the last `description=` piece. */
  lemma FunctionLastPiece(field: string, i: nat, v: string)
    requires var pieces := Pieces(field);
      && i < |pieces| && pieces[i] == DescriptionKey + "=" + v
      && forall j :: i < j < |pieces| ==> !HasKey(pieces[j], DescriptionKey)
    ensures RecordOf(Attributes(field)).description == v
  {
    LookupLast(field, DescriptionKey, i, v);
  }
}
