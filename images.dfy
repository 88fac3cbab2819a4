/**
  * `loadImages`: walks the parsed manifest in order, fetches each record's
  * image from the dataset host and pushes a binary label derived from `dx`.
  * The decoded image tensors are not modelled; each fetch outcome comes from
  * an oracle, one flag per manifest entry.
  */
module Images {
  import opened Wrappers
  import opened JsStrings
  import opened Metadata

  const DatasetPrefix := "https://github.com/eviangel/Koiivision/raw/main/dataset/"

  /** The image URL of a record: the dataset prefix, the image id, `.jpg`. */
  function ImageUrl(imageId: string): string
  {
    DatasetPrefix + imageId + ".jpg"
  }

  /** The label pushed for a record: `dx === 'bkl' ? 1 : 0`. */
  function Label(dx: Option<string>): int
  {
    if dx == Some("bkl") then 1 else 0
  }

  datatype ImageError =
    | MissingRecord(index: nat)          // destructuring an `undefined` entry throws a TypeError
    | FetchFailed(index: nat, url: string) // a non-ok image response throws
    | EmptyBatch                          // concatenating zero image tensors throws

  /**
    * The first position the loop cannot get past: a hole, or a record whose
    * image fetch fails; `|metadata|` when there is none.
    */
  function StopIndex(metadata: seq<Option<Record>>, fetchOk: seq<bool>): (k: nat)
    requires |fetchOk| == |metadata|
    ensures k <= |metadata|
    ensures forall i :: 0 <= i < k ==> metadata[i].Some? && fetchOk[i]
    ensures k < |metadata| ==> metadata[k].None? || !fetchOk[k]
  {
    if metadata == [] then 0
    else if metadata[0].None? || !fetchOk[0] then 0
    else 1 + StopIndex(metadata[1..], fetchOk[1..])
  }

  /**
    * The loop of `loadImages`. `requested` lists the image URLs fetched,
    * `labels` the label array when the loop ends, and `error` what is thrown.
    * The loop stops at the first hole or failed fetch; labels exist for the
    * records before it only, each 1 exactly when `dx` is `bkl`. A failed
    * fetch is requested but gets no label; a hole is never requested.
    */
  method LoadImages(metadata: seq<Option<Record>>, fetchOk: seq<bool>)
    returns (requested: seq<string>, labels: seq<int>, error: Option<ImageError>)
    requires |fetchOk| == |metadata|
    ensures |labels| == StopIndex(metadata, fetchOk)
    ensures forall i :: 0 <= i < |labels| ==> labels[i] == 0 || labels[i] == 1
    ensures forall i :: 0 <= i < |labels| ==>
      i < |metadata| && metadata[i].Some? && (labels[i] == 1 <==> metadata[i].value.dx == Some("bkl"))
    ensures |labels| < |metadata| && metadata[|labels|].Some? ==> |requested| == |labels| + 1
    ensures !(|labels| < |metadata| && metadata[|labels|].Some?) ==> |requested| == |labels|
    ensures forall i :: 0 <= i < |requested| ==>
      i < |metadata| && metadata[i].Some? && requested[i] == ImageUrl(metadata[i].value.imageId)
    ensures |labels| < |metadata| && metadata[|labels|].None? ==> error == Some(MissingRecord(|labels|))
    ensures |labels| < |metadata| && metadata[|labels|].Some? ==>
      error == Some(FetchFailed(|labels|, ImageUrl(metadata[|labels|].value.imageId)))
    ensures |labels| == |metadata| ==> error == (if |metadata| == 0 then Some(EmptyBatch) else None)
  {
    requested, labels, error := [], [], None;
    var i := 0;
    while i < |metadata|
      invariant i <= StopIndex(metadata, fetchOk)
      invariant |labels| == i && |requested| == i
      invariant forall j :: 0 <= j < i ==> requested[j] == ImageUrl(metadata[j].value.imageId)
      invariant forall j :: 0 <= j < i ==> labels[j] == Label(metadata[j].value.dx)
    {
      if metadata[i].None? {
        error := Some(MissingRecord(i));
        return;
      }
      var record := metadata[i].value;
      var url := ImageUrl(record.imageId);
      requested := requested + [url];
      if !fetchOk[i] {
        error := Some(FetchFailed(i, url));
        return;
      }
      labels := labels + [Label(record.dx)];
      i := i + 1;
    }
    if |labels| == 0 {
      error := Some(EmptyBatch);
    }
  }

  /**
    * As written, a manifest ending in a doubled newline has a line without a
    * comma just before the dropped last segment; its hole makes the loop
    * throw, so no batch is built whatever the image fetches return.
    */
  lemma DoubledNewlineAbortsLoad(header: string, row: string, fetchOk: seq<bool>)
    requires '\n' !in header && '\n' !in row && ',' in row
    requires |fetchOk| == 2
    ensures var metadata := ParseMetadata(header + "\n" + row + "\n\n");
      && metadata == [ParseLine(row), None]
      && StopIndex(metadata, fetchOk) <= 1
      && metadata[StopIndex(metadata, fetchOk)].None? == fetchOk[0]
  {
    assert header + "\n" + row + "\n" + "" + "\n" == header + "\n" + row + "\n\n";
    TwoRowManifest(header, row, "");
    assert ParseLine("") == None;
  }

  /**
    * As written, any manifest text ending in a doubled newline parses to at
    * least one entry, the last of which is a hole, so the loop of
    * `loadImages` stops before the end whatever the image fetches return.
    */
  lemma DoubledNewlineEndsInHole(t: string, fetchOk: seq<bool>)
    requires |fetchOk| == |ParseMetadata(t + "\n\n")|
    ensures var m := ParseMetadata(t + "\n\n");
      && |m| >= 1
      && m[|m| - 1] == None
      && StopIndex(m, fetchOk) < |m|
  {
    var text := t + "\n\n";
    assert text == (t + "\n") + "\n";
    SplitAppendSep(t, '\n');
    SplitAppendSep(t + "\n", '\n');
    var lines := Split(text, '\n');
    assert lines == Split(t, '\n') + [""] + [""];
    var m := ParseMetadata(text);
    assert |m| == |lines| - 2;
    assert m[|m| - 1] == ParseLine(lines[|lines| - 2]);
    assert lines[|lines| - 2] == "";
    assert ParseLine("") == None;
  }

  /** Records as the manifest entries `loadImages` receives. */
  function AsEntries(records: seq<Record>): (entries: seq<Option<Record>>)
    ensures |entries| == |records|
    ensures forall i :: 0 <= i < |records| ==> entries[i] == Some(records[i])
  {
    seq(|records|, i requires 0 <= i < |records| => Some(records[i]))
  }

  /**
    * With the manifest parsed as intended (holes dropped), the load can only
    * stop at a failed fetch, and with every fetch ok it labels every record.
    */
  lemma ParseRecordsLoadsFully(text: string, fetchOk: seq<bool>)
    requires |fetchOk| == |ParseRecords(text)|
    ensures var entries := AsEntries(ParseRecords(text));
      && (StopIndex(entries, fetchOk) < |entries| ==> !fetchOk[StopIndex(entries, fetchOk)])
      && ((forall i :: 0 <= i < |fetchOk| ==> fetchOk[i]) ==> StopIndex(entries, fetchOk) == |entries|)
  {
  }
}
