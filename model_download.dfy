/**
  * `downloadAndSaveModel` and the choice in `loadTFJSModel` between loading
  * the local model and downloading it. HTTP responses come from oracles
  * (one flag for `model.json`, one per shard); the files written are
  * reported as a flag for `model.json` and the shard indices written;
  * `SavedFiles` gives their names. Parsing and loading the model itself
  * is not modelled.
  */
module ModelDownload {
  import opened Wrappers
  import opened JsStrings
  import opened ModelDirectory

  /** The fixed number of weight shards. */
  const NumShards: nat := 37

  const RemoteModelBase := "https://github.com/eviangel/Koiivision/raw/main/model/"

  /** `group1-shard${i}of${numShards}.bin`: the shard's remote and local file name. */
  function ShardFileName(i: nat): string
  {
    ShardPrefix + NatToString(i) + "of" + NatToString(NumShards) + ShardSuffix
  }

  function ModelJsonUrl(baseUrl: string): string
  {
    baseUrl + ModelFile
  }

  function ShardUrl(baseUrl: string, i: nat): string
  {
    baseUrl + ShardFileName(i)
  }

  datatype DownloadError = ModelJsonFailed | ShardFailed(index: nat)

  /** The first shard, counting from 1, whose fetch fails; `|shardOk| + 1` when none does. */
  function FirstFailedShard(shardOk: seq<bool>): (i: nat)
    ensures 1 <= i <= |shardOk| + 1
    ensures forall j :: 0 <= j < i - 1 ==> shardOk[j]
    ensures i <= |shardOk| ==> !shardOk[i - 1]
  {
    if shardOk == [] || !shardOk[0] then 1
    else
      assert forall j :: 0 < j < |shardOk| ==> shardOk[j] == shardOk[1..][j - 1];
      1 + FirstFailedShard(shardOk[1..])
  }

  /** The local names of the shards with the given indices, in order. */
  function ShardNames(indices: seq<nat>): (names: seq<string>)
    ensures |names| == |indices|
    ensures forall k :: 0 <= k < |indices| ==> names[k] == ShardFileName(indices[k])
  {
    seq(|indices|, k requires 0 <= k < |indices| => ShardFileName(indices[k]))
  }

  /** The names of the files a download wrote, in the order it wrote them. */
  function SavedFiles(jsonSaved: bool, written: seq<nat>): (names: seq<string>)
    ensures |names| == (if jsonSaved then 1 else 0) + |written|
  {
    (if jsonSaved then [ModelFile] else []) + ShardNames(written)
  }

  /**
    * What a download from `baseUrl` does, given the fetch outcomes: the URLs
    * it requests in order, whether it writes `model.json`, the shard indices
    * it writes in order, and the error it throws. `model.json` comes first
    * and its failure stops everything; shard `i` is requested only after
    * shards `1..i-1` succeeded and were written.
    */
  predicate DownloadOutcome(baseUrl: string, modelJsonOk: bool, shardOk: seq<bool>,
                            requested: seq<string>, jsonSaved: bool, written: seq<nat>, error: Option<DownloadError>)
  {
    && (!modelJsonOk ==>
      requested == [ModelJsonUrl(baseUrl)] && !jsonSaved && written == [] && error == Some(ModelJsonFailed))
    && (modelJsonOk ==> var f := FirstFailedShard(shardOk);
      && jsonSaved
      && |requested| == 1 + (if f <= NumShards then f else NumShards)
      && requested[0] == ModelJsonUrl(baseUrl)
      && (forall k :: 1 <= k < |requested| ==> requested[k] == ShardUrl(baseUrl, k))
      && |written| == f - 1
      && (forall k :: 0 <= k < |written| ==> written[k] == k + 1)
      && error == (if f <= NumShards then Some(ShardFailed(f)) else None))
  }

  /**
    * `downloadAndSaveModel(baseUrl, savePath)`. `model.json` is fetched
    * first; if that fails nothing is written and no shard is requested.
    * Otherwise `model.json` is written and shards 1, 2, ... are requested in
    * increasing order, each written before the next is requested, until the
    * first failure: when shard `i` fails, shards 1 to `i - 1` and nothing
    * else have been written, and nothing is rolled back.
    */
  method DownloadAndSaveModel(baseUrl: string, modelJsonOk: bool, shardOk: seq<bool>)
    returns (requested: seq<string>, jsonSaved: bool, written: seq<nat>, error: Option<DownloadError>)
    requires |shardOk| == NumShards
    ensures DownloadOutcome(baseUrl, modelJsonOk, shardOk, requested, jsonSaved, written, error)
  {
    requested := [ModelJsonUrl(baseUrl)];
    jsonSaved, written, error := false, [], None;
    if !modelJsonOk {
      error := Some(ModelJsonFailed);
      return;
    }
    jsonSaved := true;
    var i := 1;
    while i <= NumShards
      invariant 1 <= i <= FirstFailedShard(shardOk)
      invariant |requested| == i && requested[0] == ModelJsonUrl(baseUrl)
      invariant forall k :: 1 <= k < i ==> requested[k] == ShardUrl(baseUrl, k)
      invariant |written| == i - 1
      invariant forall k :: 0 <= k < |written| ==> written[k] == k + 1
    {
      requested := requested + [ShardUrl(baseUrl, i)];
      if !shardOk[i - 1] {
        error := Some(ShardFailed(i));
        return;
      }
      written := written + [i];
      i := i + 1;
    }
  }

  /** Every shard name passes the weight-file test, and none is `model.json`. */
  lemma ShardFileNameIsWeightFile(i: nat)
    ensures IsWeightFile(ShardFileName(i))
    ensures ShardFileName(i) != ModelFile
  {
    var name := ShardFileName(i);
    var middle := NatToString(i) + "of" + NatToString(NumShards);
    assert name == ShardPrefix + (middle + ShardSuffix);
    assert name[..|ShardPrefix|] == ShardPrefix;
    assert name == (ShardPrefix + middle) + ShardSuffix;
    assert name[|name| - |ShardSuffix|..] == ShardSuffix;
    assert name[0] == 'g' && ModelFile[0] == 'm';
  }

  /** A shard URL is the base and the shard prefix, the index, and a tail common to all shards. */
  lemma ShardUrlShape(baseUrl: string, i: nat)
    ensures ShardUrl(baseUrl, i) == (baseUrl + ShardPrefix) + NatToString(i) + ("of" + NatToString(NumShards) + ShardSuffix)
  {
  }

  /** Different shard indices give different shard URLs: no shard is requested twice. */
  lemma ShardUrlInjective(baseUrl: string, i: nat, j: nat)
    requires ShardUrl(baseUrl, i) == ShardUrl(baseUrl, j)
    ensures i == j
  {
    ShardUrlShape(baseUrl, i);
    ShardUrlShape(baseUrl, j);
    MiddleEqual(baseUrl + ShardPrefix, NatToString(i), NatToString(j), "of" + NatToString(NumShards) + ShardSuffix);
    NatToStringInjective(i, j);
  }

  /** A download's files include `model.json` iff it was saved, and a weight file iff a shard was written. */
  lemma SavedFilesKinds(jsonSaved: bool, written: seq<nat>)
    ensures ModelFile in SavedFiles(jsonSaved, written) <==> jsonSaved
    ensures (exists f :: f in SavedFiles(jsonSaved, written) && IsWeightFile(f)) <==> written != []
  {
    var shards := ShardNames(written);
    forall f | f in shards
      ensures IsWeightFile(f) && f != ModelFile
    {
      var k :| 0 <= k < |shards| && shards[k] == f;
      ShardFileNameIsWeightFile(written[k]);
    }
    assert !IsWeightFile(ModelFile);
    if written != [] {
      assert shards[0] in shards;
    }
  }

  /**
    * The directory a download leaves behind, when it held neither
    * `model.json` nor a weight file before, passes `checkModelDirectory`
    * exactly when `model.json` and at least one shard were written. A
    * download that stops at shard 2 or later therefore already passes.
    */
  lemma CheckAfterDownload(before: seq<string>, jsonSaved: bool, written: seq<nat>)
    requires ModelFile !in before
    requires forall k :: 0 <= k < |before| ==> !IsWeightFile(before[k])
    ensures CheckModelDirectory(Listing(before + SavedFiles(jsonSaved, written))) == 1
      <==> jsonSaved && written != []
  {
    var saved := SavedFiles(jsonSaved, written);
    var all := before + saved;
    SavedFilesKinds(jsonSaved, written);
    assert ModelFile in all <==> ModelFile in saved;
    forall f | f in all && IsWeightFile(f)
      ensures f in saved
    {
      var i :| 0 <= i < |all| && all[i] == f;
      if i >= |before| {
        assert saved[i - |before|] == f;
      }
    }
  }

  datatype ModelSource = LoadedLocally | Downloaded(requested: seq<string>, jsonSaved: bool, written: seq<nat>, error: Option<DownloadError>)

  /**
    * `loadTFJSModel`: when the local directory passes the check the model is
    * loaded from disk and nothing is requested; otherwise it is downloaded
    * from the fixed remote base.
    */
  method LoadTfjsModel(dir: DirState, modelJsonOk: bool, shardOk: seq<bool>) returns (source: ModelSource)
    requires |shardOk| == NumShards
    ensures source.LoadedLocally? <==> CheckModelDirectory(dir) == 1
    ensures source.Downloaded? ==>
      DownloadOutcome(RemoteModelBase, modelJsonOk, shardOk, source.requested, source.jsonSaved, source.written, source.error)
  {
    if CheckModelDirectory(dir) == 1 {
      source := LoadedLocally;
    } else {
      var requested, jsonSaved, written, error := DownloadAndSaveModel(RemoteModelBase, modelJsonOk, shardOk);
      source := Downloaded(requested, jsonSaved, written, error);
    }
  }
}
