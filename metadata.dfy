/**
  * `loadMetadata`: the dataset manifest is fetched as text, cut into lines at
  * `'\n'`, the first line (the header) and the last segment are dropped, and
  * every remaining line is cut at `','` and bound positionally to the seven
  * columns of a record. There is no quoting. A line without a comma has no
  * `image_id`; the mapping callback then returns nothing, which leaves
  * `undefined` at that position instead of removing the line.
  */
module Metadata {
  import opened Wrappers
  import opened JsStrings

  const MetadataUrl := "https://github.com/eviangel/Koiivision/raw/main/dataset/metadata.csv"

  /**
    * One manifest row. `lesionId` is always defined (a split has at least one
    * part) and `imageId` is defined in every record that is produced; the
    * other five columns are `undefined` when the line has too few fields.
    */
  datatype Record = Record(
    lesionId: string,
    imageId: string,
    dx: Option<string>,
    dxType: Option<string>,
    age: Option<string>,
    sex: Option<string>,
    localization: Option<string>)

  /** The five columns after `image_id`, in manifest order. */
  function Trailing(r: Record): seq<Option<string>>
  {
    [r.dx, r.dxType, r.age, r.sex, r.localization]
  }

  /** The defined values of `xs`, up to its first `undefined`. */
  function Defined(xs: seq<Option<string>>): seq<string>
  {
    if xs == [] || xs[0].None? then [] else [xs[0].value] + Defined(xs[1..])
  }

  /** The record's columns as they stand in its line, up to the first undefined one. */
  function Columns(r: Record): seq<string>
  {
    [r.lesionId, r.imageId] + Defined(Trailing(r))
  }

  /**
    * A record some line can produce: no column holds a comma, and once a
    * column is undefined so are all columns after it.
    */
  predicate WellFormed(r: Record)
  {
    && (forall i :: 0 <= i < |Columns(r)| ==> ',' !in Columns(r)[i])
    && (forall i, j :: 0 <= i < j < 5 && Trailing(r)[i].None? ==> Trailing(r)[j].None?)
  }

  /** Element `k` of an array, `undefined` past its end. */
  function At(xs: seq<string>, k: int): Option<string>
  {
    if 0 <= k < |xs| then Some(xs[k]) else None
  }

  /**
    * The mapping callback on one line: destructure the comma-split fields
    * and return a record only when `image_id` is defined.
    */
  function ParseLine(line: string): (entry: Option<Record>)
    ensures entry.Some? <==> ',' in line
  {
    var f := Split(line, ',');
    if |f| >= 2 then Some(Record(f[0], f[1], At(f, 2), At(f, 3), At(f, 4), At(f, 5), At(f, 6)))
    else None
  }

  /**
    * The body of `loadMetadata` after the fetch: `text.split('\n')
    * .slice(1, -1).map(...)`. Entry `i` is line `i + 1` of the text, parsed;
    * only the first and the last segment are left out.
    */
  function ParseMetadata(text: string): (entries: seq<Option<Record>>)
    ensures |entries| == if Count(text, '\n') >= 1 then Count(text, '\n') - 1 else 0
    ensures forall i :: 0 <= i < |entries| ==> entries[i] == ParseLine(Split(text, '\n')[i + 1])
  {
    var lines := Slice(Split(text, '\n'), 1, -1);
    SliceDropsFirstAndLast(Split(text, '\n'));
    seq(|lines|, i requires 0 <= i < |lines| => ParseLine(lines[i]))
  }

  datatype MetadataError = ResponseNotOk

  /**
    * `loadMetadata` with the HTTP response given as its status flag and body
    * text: a non-ok response throws before anything is parsed.
    */
  function LoadMetadata(ok: bool, body: string): (r: Result<seq<Option<Record>>, MetadataError>)
    ensures r.Failure? <==> !ok
    ensures r.Success? ==> r.value == ParseMetadata(body)
  {
    if !ok then Failure(ResponseNotOk) else Success(ParseMetadata(body))
  }

  /** `m` consecutive elements of `f` from index `k`, each `undefined` past the end. */
  function AtFrom(f: seq<string>, k: nat, m: nat): seq<Option<string>>
    decreases m
  {
    if m == 0 then [] else [At(f, k)] + AtFrom(f, k + 1, m - 1)
  }

  /** The defined prefix of `AtFrom(f, k, m)` is a slice of `f`. */
  lemma {:induction false} DefinedAtFrom(f: seq<string>, k: nat, m: nat)
    requires k <= |f|
    ensures Defined(AtFrom(f, k, m)) == f[k..if |f| < k + m then |f| else k + m]
    decreases m
  {
    if m > 0 && k < |f| {
      DefinedAtFrom(f, k + 1, m - 1);
      var hi := if |f| < k + m then |f| else k + m;
      assert [f[k]] + f[k + 1..hi] == f[k..hi];
    }
  }

  /** The columns of a parsed record are the first `min(7, fields)` fields of its line. */
  lemma ColumnsOfParsed(line: string)
    requires ParseLine(line).Some?
    ensures var r, f := ParseLine(line).value, Split(line, ',');
      Columns(r) == f[..if |f| < 7 then |f| else 7]
  {
    var r, f := ParseLine(line).value, Split(line, ',');
    assert Trailing(r) == AtFrom(f, 2, 5);
    DefinedAtFrom(f, 2, 5);
  }

  /** A parsed record has comma-free columns, and its undefined columns come last. */
  lemma ParsedWellFormed(line: string)
    requires ParseLine(line).Some?
    ensures WellFormed(ParseLine(line).value)
  {
    var r, f := ParseLine(line).value, Split(line, ',');
    ColumnsOfParsed(line);
    var c, t := Columns(r), Trailing(r);
    forall i | 0 <= i < |c|
      ensures ',' !in c[i]
    {
      assert c[i] == f[i];
    }
    assert t == [At(f, 2), At(f, 3), At(f, 4), At(f, 5), At(f, 6)];
  }

  /**
    * Converse of `ParseJoinedLine`: a record parsed from a line is well formed,
    * and the line is its columns followed by the fields past the seventh,
    * joined with commas; extra fields only occur when all seven are defined.
    */
  lemma ParseLineColumns(line: string)
    requires ParseLine(line).Some?
    ensures WellFormed(ParseLine(line).value)
    ensures var r, f := ParseLine(line).value, Split(line, ',');
      && |Columns(r)| == (if |f| < 7 then |f| else 7)
      && Columns(r) == f[..|Columns(r)|]
      && line == Join(Columns(r) + f[|Columns(r)|..], ',')
  {
    var r, f := ParseLine(line).value, Split(line, ',');
    var n := if |f| < 7 then |f| else 7;
    ColumnsOfParsed(line);
    ParsedWellFormed(line);
    assert Columns(r) + f[n..] == f;
    JoinSplit(line, ',');
  }

  /**
    * A line made of a well-formed record's columns, followed by any
    * comma-free extra fields when all seven columns are defined, parses back
    * to exactly that record.
    */
  lemma ParseJoinedLine(r: Record, extra: seq<string>)
    requires WellFormed(r)
    requires extra != [] ==> |Columns(r)| == 7
    requires forall i :: 0 <= i < |extra| ==> ',' !in extra[i]
    ensures ParseLine(Join(Columns(r) + extra, ',')) == Some(r)
  {
    var f := Columns(r) + extra;
    FieldsCommaFree(r, extra);
    var line := Join(f, ',');
    SplitJoin(f, ',');
    TrailingOfJoined(r, extra);
    ParseLineOfFields(line, f);
    var p := ParseLine(line).value;
    assert p.lesionId == r.lesionId && p.imageId == r.imageId;
    assert Trailing(p) == Trailing(r);
  }

  lemma FieldsCommaFree(r: Record, extra: seq<string>)
    requires WellFormed(r)
    requires forall i :: 0 <= i < |extra| ==> ',' !in extra[i]
    ensures forall i :: 0 <= i < |Columns(r) + extra| ==> ',' !in (Columns(r) + extra)[i]
  {
    var c := Columns(r);
    forall i | 0 <= i < |c + extra|
      ensures ',' !in (c + extra)[i]
    {
      if i < |c| { assert (c + extra)[i] == c[i]; }
      else { assert (c + extra)[i] == extra[i - |c|]; }
    }
  }

  /** What `ParseLine` builds from a line whose fields are known. */
  lemma ParseLineOfFields(line: string, f: seq<string>)
    requires Split(line, ',') == f && |f| >= 2
    ensures ParseLine(line).Some?
    ensures ParseLine(line).value.lesionId == f[0] && ParseLine(line).value.imageId == f[1]
    ensures Trailing(ParseLine(line).value) == AtFrom(f, 2, 5)
  {
  }

  /** In the fields of a joined line, position `2 + i` holds the record's trailing column `i`. */
  lemma AtOfJoined(r: Record, extra: seq<string>, i: nat)
    requires WellFormed(r)
    requires extra != [] ==> |Columns(r)| == 7
    requires i < 5
    ensures At(Columns(r) + extra, 2 + i) == Trailing(r)[i]
  {
    var f := Columns(r) + extra;
    var t := Trailing(r);
    DefinedOfWellFormed(t);
    var d := Defined(t);
    if i < |d| {
      assert f[2 + i] == d[i];
    } else {
      assert extra == [];
      assert |f| == 2 + |d|;
    }
  }

  /** In the fields of a joined line, positions 2 to 6 hold the record's trailing columns. */
  lemma TrailingOfJoined(r: Record, extra: seq<string>)
    requires WellFormed(r)
    requires extra != [] ==> |Columns(r)| == 7
    ensures AtFrom(Columns(r) + extra, 2, 5) == Trailing(r)
  {
    var f := Columns(r) + extra;
    assert AtFrom(f, 2, 5) == [At(f, 2), At(f, 3), At(f, 4), At(f, 5), At(f, 6)];
    AtOfJoined(r, extra, 0);
    AtOfJoined(r, extra, 1);
    AtOfJoined(r, extra, 2);
    AtOfJoined(r, extra, 3);
    AtOfJoined(r, extra, 4);
  }

  /** For a column list whose undefined entries come last, `Defined` keeps exactly the defined ones. */
  lemma {:induction false} DefinedOfWellFormed(xs: seq<Option<string>>)
    requires forall i, j :: 0 <= i < j < |xs| && xs[i].None? ==> xs[j].None?
    ensures |Defined(xs)| <= |xs|
    ensures forall i :: 0 <= i < |xs| ==> (i < |Defined(xs)| <==> xs[i].Some?)
    ensures forall i :: 0 <= i < |Defined(xs)| ==> Defined(xs)[i] == xs[i].value
  {
    if xs != [] && xs[0].Some? {
      DefinedOfWellFormed(xs[1..]);
    }
  }

  /** A header, two rows and a final newline split into those three lines and an empty last segment. */
  lemma ThreeLineSplit(header: string, row1: string, row2: string)
    requires '\n' !in header && '\n' !in row1 && '\n' !in row2
    ensures Split(header + "\n" + row1 + "\n" + row2 + "\n", '\n') == [header, row1, row2, ""]
  {
    var parts := [header, row1, row2, ""];
    JoinCons(row2, [""], '\n');
    assert [row2] + [""] == parts[2..];
    JoinCons(row1, parts[2..], '\n');
    assert [row1] + parts[2..] == parts[1..];
    JoinCons(header, parts[1..], '\n');
    assert [header] + parts[1..] == parts;
    assert Join(parts, '\n') == header + "\n" + row1 + "\n" + row2 + "\n";
    SplitJoin(parts, '\n');
  }

  /**
    * A manifest of a header, two data rows and a trailing newline yields
    * exactly the two rows, in order.
    */
  lemma TwoRowManifest(header: string, row1: string, row2: string)
    requires '\n' !in header && '\n' !in row1 && '\n' !in row2
    ensures ParseMetadata(header + "\n" + row1 + "\n" + row2 + "\n") == [ParseLine(row1), ParseLine(row2)]
  {
    ThreeLineSplit(header, row1, row2);
  }

  /** The records of a manifest with the holes removed, in manifest order. */
  function Present(entries: seq<Option<Record>>): (records: seq<Record>)
    ensures |records| <= |entries|
    ensures forall r :: r in records <==> Some(r) in entries
    ensures (forall i :: 0 <= i < |entries| ==> entries[i].Some?) ==>
      |records| == |entries| && forall i :: 0 <= i < |entries| ==> records[i] == entries[i].value
  {
    if entries == [] then []
    else
      assert forall e :: e in entries <==> e == entries[0] || e in entries[1..];
      (if entries[0].Some? then [entries[0].value] else []) + Present(entries[1..])
  }

  /**
    * `Present` works entry by entry: a record is kept as itself, a hole is
    * dropped, and the records of consecutive stretches follow each other, so
    * manifest order and repeated rows are kept.
    */
  lemma {:induction false} PresentAppend(a: seq<Option<Record>>, b: seq<Option<Record>>)
    ensures Present(a + b) == Present(a) + Present(b)
    ensures Present([None]) == [] && forall r :: Present([Some(r)]) == [r]
  {
    if a != [] {
      assert (a + b)[1..] == a[1..] + b;
      PresentAppend(a[1..], b);
    } else {
      assert a + b == b;
    }
  }

  /** The entry at `i`, when it is a record, sits between the records before it and those after it. */
  lemma PresentAt(entries: seq<Option<Record>>, i: nat)
    requires i < |entries| && entries[i].Some?
    ensures Present(entries) == Present(entries[..i]) + [entries[i].value] + Present(entries[i + 1..])
    ensures Present(entries)[|Present(entries[..i])|] == entries[i].value
  {
    assert entries == entries[..i] + ([entries[i]] + entries[i + 1..]);
    PresentAppend(entries[..i], [entries[i]] + entries[i + 1..]);
    PresentAppend([entries[i]], entries[i + 1..]);
  }

  /** `r` is what some interior line of the manifest (neither the header nor the last segment) parses to. */
  predicate FromDataLine(lines: seq<string>, r: Record)
  {
    exists i :: 1 <= i < |lines| - 1 && ParseLine(lines[i]) == Some(r)
  }

  /** A record is among the parsed entries exactly when some interior line parses to it. */
  lemma ParsedEntries(text: string)
    ensures forall r :: Some(r) in ParseMetadata(text) <==> FromDataLine(Split(text, '\n'), r)
  {
    var lines, entries := Split(text, '\n'), ParseMetadata(text);
    forall r | Some(r) in entries
      ensures FromDataLine(lines, r)
    {
      var k :| 0 <= k < |entries| && entries[k] == Some(r);
      assert ParseLine(lines[k + 1]) == Some(r);
    }
    forall r | FromDataLine(lines, r)
      ensures Some(r) in entries
    {
      var i :| 1 <= i < |lines| - 1 && ParseLine(lines[i]) == Some(r);
      assert entries[i - 1] == Some(r);
    }
  }

  /**
    * The manifest parse as the `if (image_id != undefined)` guard evidently
    * intends it: lines without an `image_id` are dropped rather than left as
    * holes. Every record comes from a data line that has a comma.
    */
  function ParseRecords(text: string): (records: seq<Record>)
    ensures forall r :: r in records <==> FromDataLine(Split(text, '\n'), r)
  {
    ParsedEntries(text);
    Present(ParseMetadata(text))
  }

  /** `PresentAt` for a result already known to be `Present(entries)`, with the record named. */
  lemma PresentSplit(records: seq<Record>, entries: seq<Option<Record>>, k: nat, r: Record)
    requires records == Present(entries)
    requires k < |entries| && entries[k] == Some(r)
    ensures records == Present(entries[..k]) + [r] + Present(entries[k + 1..])
  {
    PresentAt(entries, k);
  }

  /**
    * The corrected parse keeps manifest order and repeated rows: the data
    * line after the header that is entry `k` of the parse, when it parses to
    * a record, puts that record right after the records of the lines before
    * it and before those of the lines after it.
    */
  lemma ParseRecordsOrder(text: string, k: nat)
    requires k + 1 < |Split(text, '\n')| - 1
    requires ParseLine(Split(text, '\n')[k + 1]).Some?
    ensures var entries := ParseMetadata(text);
      ParseRecords(text) == Present(entries[..k]) + [ParseLine(Split(text, '\n')[k + 1]).value] + Present(entries[k + 1..])
  {
    EntryOfLine(text, k);
    PresentSplit(ParseRecords(text), ParseMetadata(text), k, ParseLine(Split(text, '\n')[k + 1]).value);
  }

  /** Data line `k + 1` of the manifest is entry `k` of the parse. */
  lemma EntryOfLine(text: string, k: nat)
    requires k + 1 < |Split(text, '\n')| - 1
    requires ParseLine(Split(text, '\n')[k + 1]).Some?
    ensures k < |ParseMetadata(text)|
    ensures ParseMetadata(text)[k] == Some(ParseLine(Split(text, '\n')[k + 1]).value)
  {
  }
}
