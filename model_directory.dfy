/**
  * `checkModelDirectory`: decides whether a previously downloaded model can
  * be loaded from local storage. The directory is given as what the file
  * system reports for it; the function itself touches nothing.
  */
module ModelDirectory {
  import opened JsStrings

  /**
    * What the file system reports for the model directory: nothing there,
    * something there that cannot be listed (a plain file, no permission), or
    * the names of its entries in listing order.
    */
  datatype DirState = Absent | Unlistable | Listing(files: seq<string>)

  const ModelFile := "model.json"
  const ShardPrefix := "group1-shard"
  const ShardSuffix := ".bin"

  /** The weight-file test: a name-prefix and name-suffix check only. */
  predicate IsWeightFile(name: string)
  {
    StartsWith(name, ShardPrefix) && EndsWith(name, ShardSuffix)
  }

  /** `files.includes(name)`. */
  function Includes(files: seq<string>, name: string): (found: bool)
    ensures found <==> name in files
  {
    if files == [] then false
    else
      assert name in files <==> files[0] == name || name in files[1..];
      files[0] == name || Includes(files[1..], name)
  }

  /** `files.some(file => file.startsWith('group1-shard') && file.endsWith('.bin'))`. */
  function SomeWeightFile(files: seq<string>): (found: bool)
    ensures found <==> exists i :: 0 <= i < |files| && IsWeightFile(files[i])
  {
    if files == [] then false
    else
      assert forall i :: 0 < i < |files| ==> files[i] == files[1..][i - 1];
      IsWeightFile(files[0]) || SomeWeightFile(files[1..])
  }

  /**
    * `checkModelDirectory`: 1 when the directory exists, can be listed,
    * lists `model.json` and lists some weight file; 0 in every other case,
    * including a missing or unlistable directory.
    */
  function CheckModelDirectory(dir: DirState): (present: int)
    ensures present == 0 || present == 1
    ensures present == 1 <==>
      dir.Listing? && ModelFile in dir.files && exists f :: f in dir.files && IsWeightFile(f)
  {
    match dir
    case Listing(files) => if Includes(files, ModelFile) && SomeWeightFile(files) then 1 else 0
    case _ => 0
  }

  /** Entries of the listing other than `model.json` and weight files do not change the verdict. */
  lemma {:induction false} UnrelatedFilesIgnored(files: seq<string>, other: seq<string>)
    requires forall i :: 0 <= i < |other| ==> other[i] != ModelFile && !IsWeightFile(other[i])
    ensures CheckModelDirectory(Listing(files + other)) == CheckModelDirectory(Listing(files))
  {
    var all := files + other;
    if exists f :: f in all && IsWeightFile(f) {
      var f :| f in all && IsWeightFile(f);
      var i :| 0 <= i < |all| && all[i] == f;
      assert i < |files| && files[i] == f;
    }
  }
}
