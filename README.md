# Koiivision task: verified model of the round logic

This project models the self-contained logic in `task/submission.js` of a
round-based task. Each round, the task fine-tunes an image classifier on a
remote skin-lesion dataset. It stores the resulting accuracy in the node's
key-value store, and the submission step reads that value back.

The TensorFlow work, the HTTP fetches and the file system are outside the
model. Every fetch is replaced by an oracle: a `bool` per request that says
whether the response was ok. A download reports what it wrote as a flag for
`model.json` and the list of shard indices written; the names those stand
for are given by `ModelDownload.SavedFiles`. What remains is modelled in
Dafny and proved:

- **Manifest parsing** (`loadMetadata`), in `metadata.dfy`. This uses
  JavaScript's `split` and `slice` semantics from `js_strings.dfy`. The text
  is cut at `'\n'`, the first and last segments are dropped, and each line is
  cut at `','` and bound to seven columns. A line with no comma leaves an
  `undefined` hole in the result; it is not removed.
- **The label and URL loop** (`loadImages`), in `images.dfy`.
- **The model-directory check** (`checkModelDirectory`), in
  `model_directory.dfy`.
- **The sequential shard download** (`downloadAndSaveModel`) and the choice
  between loading locally and downloading (`loadTFJSModel`), in
  `model_download.dfy`.
- **The accuracy slot** (`trainModel`'s error sentinel, `task` and
  `fetchSubmission`), in `round.dfy`. The store is a class over a
  `map<string, Accuracy>`.

JavaScript's `undefined` is `Option.None`. A thrown error is a returned error
value.

Three points where the code does something other than what it evidently
means to do, or leaves something unsaid; the model follows the code:

- The guard `if (image_id != undefined)` in `loadMetadata`
  (task/submission.js:230) is evidently meant to drop rows without an
  `image_id`. It sits inside `map`, so such a row becomes an `undefined`
  entry instead, and `loadImages` then throws on that entry (see Findings).
  A record whose `image_id` is `""` passes the guard and is kept.
- The weight-file test in `checkModelDirectory` (task/submission.js:121)
  looks only at the prefix `group1-shard` and the suffix `.bin`, not at the
  `group1-shard<N>of<M>.bin` shape the download produces.
- `tf.concat` of an empty image list throws, so a manifest with no data
  rows fails `loadImages`. Nothing in the code handles this case. The model
  reports it as `EmptyBatch`.

## Model

| member | source | states |
|---|---|---|
| `JsStrings.Split` | task/submission.js:228-229 | `split` with a one-character separator gives exactly one more part than there are separators, and no part contains the separator |
| `JsStrings.JoinSplit` | task/submission.js:228-229 | joining the parts of a split with the separator gives back the original text |
| `JsStrings.SplitJoin` | task/submission.js:228-229 | splitting the join of a non-empty list of separator-free parts gives back exactly those parts |
| `JsStrings.RelativeIndex` | task/submission.js:228 | a `slice` argument in `0..len` is used as it is, one in `-len..-1` counts from the end, one past `len` becomes `len` and one below `-len` becomes 0 |
| `JsStrings.SliceDropsFirstAndLast` | task/submission.js:228 | `slice(1, -1)` has `max(0, n - 2)` elements, and element `i` is element `i + 1` of the input |
| `JsStrings.NatToString` | task/submission.js:168 | the rendering of a non-negative integer in a template literal is a non-empty string of decimal digits with no leading zero (it starts with `0` only for 0, which renders as `"0"`) |
| `JsStrings.DecimalRoundTrip` | task/submission.js:168 | reading the decimal rendering of `n` back gives `n` |
| `JsStrings.NatToStringInjective` | task/submission.js:168 | different shard indices render differently |
| `Metadata.ParseLine` | task/submission.js:229-232 | a line yields a record exactly when it contains a comma, so an empty `image_id` still yields a record |
| `Metadata.ParseMetadata` | task/submission.js:228-233 | the parse has `max(0, n - 2)` entries for `n` newline-separated segments; entry `i` is segment `i + 1` parsed; no other row is removed |
| `Metadata.LoadMetadata` | task/submission.js:223-233 | a non-ok response fails before parsing; an ok response yields the parse of its body, one entry per interior line |
| `Metadata.ParseLineColumns` | task/submission.js:229 | a parsed record holds the first `min(7, fields)` comma-separated fields in column order; the columns after them are undefined; the line is those columns plus the ignored extra fields, joined by commas |
| `Metadata.ParseJoinedLine` | task/submission.js:229 | any record a line can produce (comma-free columns, undefined columns only after the defined ones), written as a line (with extra fields only when all seven columns are defined), parses back to exactly that record |
| `Metadata.ThreeLineSplit` | task/submission.js:228 | a header, two rows and a final newline split at `'\n'` into exactly those three lines and an empty last segment |
| `Metadata.TwoRowManifest` | task/submission.js:228 | a header, two data rows and a trailing newline give exactly the two rows, in order |
| `Metadata.ParsedEntries` | task/submission.js:228-233 | as written, a record is among the parsed entries exactly when some interior line (neither the header nor the last segment) parses to it |
| `Metadata.ParseRecords` | task/submission.js:230-232 | the intended parse: lines without `image_id` are dropped; a record is in the result exactly when some interior line parses to it |
| `Metadata.PresentAppend` | task/submission.js:229-232 | dropping the holes works entry by entry: a record is kept as itself, a hole is dropped, and the records of two stretches of a manifest follow each other in order |
| `Metadata.PresentAt` | task/submission.js:229-232 | a record at position `i` lands right after the records before it and before those after it, so order and repeated rows are kept |
| `Metadata.ParseRecordsOrder` | task/submission.js:228-233 | in the intended parse, the record of data line `i` follows the records of the lines before it and precedes those of the lines after it |
| `Images.StopIndex` | task/submission.js:241-246 | the first hole or failed fetch: every entry before it is a record whose fetch succeeded |
| `Images.LoadImages` | task/submission.js:237-264 | URLs are requested in manifest order as prefix + `image_id` + `.jpg`. A hole or a failed fetch at `k` aborts the loop, with labels for entries `0..k-1` only. Each label is 1 iff `dx` is `bkl`, so every label is 0 or 1. An empty manifest fails at the concatenation |
| `Images.DoubledNewlineAbortsLoad` | task/submission.js:228-233 | as written, a header and one comma-bearing row followed by two newlines parse to exactly `[record, undefined]`, and the loop cannot pass the hole whatever the fetches return |
| `Images.DoubledNewlineEndsInHole` | task/submission.js:228-246 | as written, any manifest text ending in two newlines parses to at least one entry, the last entry is a hole, and the loop stops before the end whatever the fetches return |
| `Images.ParseRecordsLoadsFully` | task/submission.js:241-246 | with the corrected parse, only a failed fetch can stop the loop; with every fetch ok, every record gets a label |
| `ModelDirectory.Includes` | task/submission.js:120 | `includes` is true iff the name is in the listing |
| `ModelDirectory.SomeWeightFile` | task/submission.js:121 | `some` is true iff some listed name starts with `group1-shard` and ends with `.bin` |
| `ModelDirectory.CheckModelDirectory` | task/submission.js:113-131 | the result is 0 or 1. It is 1 iff the directory can be listed, lists `model.json` and lists a weight file. A missing or unlistable directory gives 0 |
| `ModelDirectory.UnrelatedFilesIgnored` | task/submission.js:119-123 | adding entries that are neither `model.json` nor weight files does not change the check |
| `ModelDownload.FirstFailedShard` | task/submission.js:167-171 | the first failing shard, counting from 1: every shard before it succeeds |
| `ModelDownload.DownloadAndSaveModel` | task/submission.js:150-184 | `model.json` is requested first, and if it fails nothing is written and no shard is requested. Otherwise shards are requested as `baseUrl + "group1-shard" + i + "of37.bin"` for i = 1, 2, … in order. If shard `i` fails, exactly shards `1..i-1` have been written. With all ok, all 37 are written |
| `ModelDownload.ShardFileNameIsWeightFile` | task/submission.js:121 | every shard file name passes the weight-file test and differs from `model.json` |
| `ModelDownload.ShardUrlInjective` | task/submission.js:168 | different shard indices give different URLs, so no shard is requested twice |
| `ModelDownload.SavedFilesKinds` | task/submission.js:159-176 | the files a download writes include `model.json` iff it was saved, and include a weight file iff at least one shard was written |
| `ModelDownload.CheckAfterDownload` | task/submission.js:159-176 | starting from a directory with neither file kind, the files a download leaves pass the check iff `model.json` and at least one shard were written; a download that stops at shard 2 or later already passes |
| `ModelDownload.LoadTfjsModel` | task/submission.js:133-148 | the model is loaded locally, with no request, exactly when the directory check passes; otherwise it downloads from the fixed base, with exactly the requests, writes and error `DownloadAndSaveModel` states |
| `Round.TrainModel` | task/submission.js:71-108 | a run that throws at any stage reports exactly accuracy 0, which is falsy, and an empty model string; a completed run reports its evaluated accuracy and serialized model unchanged |
| `Round.NamespaceStore.StoreSet` | task/submission.js:24 | overwrites one key and leaves every other key |
| `Round.NamespaceStore.StoreGet` | task/submission.js:303 | returns the stored value, or `undefined` for a key never set |
| `Round.Task` | task/submission.js:16-31 | returns the accuracy in every case. The `accuracy` slot is written only when the accuracy is truthy; otherwise, including after any failed run, the store is unchanged |
| `Round.FetchSubmission` | task/submission.js:300-306 | returns whatever the `accuracy` slot holds, independent of the round number |
| `Round.FailedRoundResubmitsPrevious` | task/submission.js:22-26 | after a successful round and then a failed one, the fetched submission is the earlier round's accuracy |

## Findings

| source | as written | input that shows it | evidently intended | confidence | as-written member | corrected member |
|---|---|---|---|---|---|---|
| task/submission.js:228-233 | the guard `if (image_id != undefined)` sits inside `map`, so a line with no comma becomes an `undefined` entry instead of being skipped; `loadImages` then throws destructuring it (line 241), and the round reports accuracy 0 | manifest text `"h\nA,I1,bkl\n\n"` (a doubled trailing newline): the entries are `[record, undefined]` | lines without an `image_id` are dropped (a `filter`), as the guard evidently intends | not executed | `Images.DoubledNewlineAbortsLoad` | `Metadata.ParseRecords` |

## Left out

- TensorFlow work is not modelled. This covers `modifyModelForNewTask`, `fit`, `evaluate`, `toJSON`, `tf.loadLayersModel`, image decoding, resizing and normalisation, and the tensors built from the labels. These are foreign library calls on floating-point data. Their combined outcome enters `Round.TrainModel` as an evaluation or the stage that threw.
- HTTP `fetch`, `fs` reads and writes, `mkdir` and `console` logging are not modelled. Each fetch is a `bool` oracle, and a download reports what it wrote as a flag for `model.json` and the shard indices written; `ModelDownload.SavedFiles` gives their names.
- `ModelDownload.DownloadAndSaveModel` does not model the `savePath` parameter. The code writes `model.json` to `savePath` (task/submission.js:158-161) but always writes the shards to `${__dirname}/model/` (line 174). `SavedFiles` and `CheckAfterDownload` put both kinds of file in one listing. That holds only because `loadTFJSModel`, the one caller, passes a `savePath` inside that directory (lines 135 and 146). A different `savePath` would split the files across two directories, and the model does not capture that.
- `ModelDownload.DownloadAndSaveModel` does not model failures of `mkdir`, `writeFile` or the JSON parse of `model.json`. Only the fetch status is modelled.
- `Images.LoadImages` reports a failed fetch by index and URL. The response's `statusText` in the error message is not modelled.
- `Round.Task` does not model the `'ERROR IN EXECUTING TASK'` string return. It can only be reached when `storeSet` itself throws, because `trainModel` catches everything else, and store failures are outside the model.
- `ModelDownload.LoadTfjsModel` does not say what is loaded. Loading is a library call. Its contract covers the local-or-download decision and, for a download, the same outcome as `DownloadAndSaveModel` from the fixed base.
- `Images.LoadImages`: the fetch flag stands for the whole per-image outcome. A body read or decode that throws after an ok response (task/submission.js:247-249) is not modelled separately.
- `saveModelAsString`, `saveJsonToFile` and `predictWithModel` are left out. They are thin wrappers over tensor reads, base64 encoding and file writes, with no logic of their own.
- `submitTask` and the node's audit and distribution machinery are left out. They are round-scheduling glue.
- `tests/main.test2.js` is left out. It is an integration harness against a live node. It calls methods the class does not define, so it states nothing about this logic.
- Line endings are not normalised. A manifest with `\r\n` endings keeps the `\r` at the end of each line's last field, just as the code does.
