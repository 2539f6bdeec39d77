# Bulk photo rename — a Dafny model

This project models the core of a small desktop application that renames a
folder of photos after the names listed in a CSV file. The photos are
ordered by their EXIF capture time, and the i-th photo gets the i-th name.
Two source files make up the core:

- `src/index.js` is the main process. It keeps the CSV rows whose
  `FileName` has visible text, and it lists a folder's images, counting them
  and summarising them by extension. It also builds a date-sorted preview in
  which a photo without an EXIF capture time falls back to its modification
  time.
- `src/renderer.js` is the start-process flow. It collects every row's
  `FileName`, loads the folder's JPEG/PNG files with their capture times, and
  sorts them. It then renames image i to `FileName[i]` plus the image's own
  extension, one rename after the other. A blank entry skips its position.
  The first rename that throws ends the run.

The modules follow that structure:

| module | what it holds |
|---|---|
| `Wrappers` | `Option` and `Result` |
| `Seqs` | `Filter` (JavaScript's `Array.prototype.filter`) with its multiset, membership, subsequence and idempotence facts |
| `StableSort` | a stable sort by an integer key, with stability stated per key, and a proof that sorted-plus-stable determines the result |
| `Text` | JavaScript `trim` (ECMAScript white space and line terminators), ASCII lower-casing, a case-insensitive suffix test |
| `Paths` | `path.join` with `/`, base name, and Node's POSIX `path.extname` |
| `Extensions` | the two extension regular expressions (`jpg`, `jpeg`, `png`, `arw` for the preview; no `arw` for renaming) |
| `Spreadsheet` | row validity and the CSV selection handler |
| `Inventory` | folder selection, the file-type summary, the EXIF/mtime date fallback and the preview handler |
| `Renamer` | the start-process flow: FileName collection, image loading, the positional rename plan and the sequential renamer |

Everything outside the program is an input:

- The CSV parser's output is a `Result<seq<Row>>`, where a row maps column names to strings.
- A directory listing is a `Result<seq<string>>`.
- The EXIF reader, `fs.stat` and the capture-time parser are functions from a path to a result.
- The file system is a map from path to bytes.
- A refusal predicate says when `renameSync` throws for platform reasons (permissions, a busy file).

## Model

| member | source | states |
|---|---|---|
| Wrappers.AllOk | src/renderer.js:54-59 | the per-file results combine to all values in order exactly when none is an error; otherwise the result is the first error |
| Text.Trim | src/index.js:45 | the trimmed string starts and ends with visible characters, and it is empty exactly when the input has no visible character |
| Paths.ExtName | src/index.js:78 | a non-empty extension starts with its only dot and is a proper suffix of the name |
| Paths.ExtNameEmptyIff | src/index.js:78 | the extension is empty exactly when the name has no dot, starts with its only dot, or is `..` |
| Paths.ExtNameOfStemAndExt | src/renderer.js:65 | a non-empty stem followed by an extension has exactly that extension |
| Paths.BaseNameOfJoin | src/renderer.js:55 | joining a folder and a plain file name gives back that file name as the base name |
| Extensions.PreviewIsRenameOrRaw | src/renderer.js:54 | a file passes the rename filter exactly when it passes the preview filter and is not an `.arw` file, so the rename set is a subset of the preview set |
| Extensions.RawIsNotRenamed | src/renderer.js:54 | a name ending in `.arw` (any case) is never one of the `RenameCandidates` |
| Extensions.MatchesExtensionIffExtName | src/index.js:9 | the suffix regex accepts a name exactly when its lower-cased extension is one of the listed ones, or the whole name is a dot plus one of them |
| Extensions.WholeNameHasNoExtName | src/index.js:78 | a name that is only a dot and an extension word has an empty `extname` |
| Spreadsheet.ValidRowIff | src/index.js:43-47 | `IsValidRow`, the filter's test, keeps a row exactly when its FileName is present and has a visible character; the any-value clause is then implied |
| Spreadsheet.ValidRowsKeepVisibleNames | src/index.js:43-47 | the kept rows each have a visible FileName, keep their order, keep exactly the valid rows with their multiplicities, and filtering again changes nothing |
| Spreadsheet.SelectCsv | src/index.js:39-49 | a parse error is passed on; otherwise the result is the kept rows, an ordered subsequence in which a row appears exactly when its FileName has visible text |
| Inventory.ImageFilesAreMatchingEntries | src/index.js:64 | `ImageFiles`, the filter shared by folder selection and the preview, gives the listing entries matching the preview extensions, in order and with their multiplicities |
| Inventory.FileTypeOfImage | src/index.js:78 | every image file's type is a dot plus a configured extension, or empty for a name that is only such a suffix |
| Inventory.FileTypeSummary | src/index.js:76-83 | the keys are exactly the occurring types, and each count is the number of files of that type |
| Inventory.Tally | src/index.js:79 | one step of the reduce adds one to the type's count, keeping every other count |
| Inventory.SummarizeInto | src/index.js:77-81 | the reduce over a list of file types adds to every count the number of occurrences of that type, and the keys become the old keys plus the occurring types |
| Inventory.SummaryKeys | src/index.js:76-83 | a type is a key exactly when some file has that type |
| Inventory.SumValuesSummarizeInto | src/index.js:77-81 | the reduce over n file types adds n to the total of the counts |
| Inventory.SummaryTotal | src/index.js:76-83 | the counts of the summary add up to the number of files |
| Inventory.SelectFolder | src/index.js:61-70 | a listing error is passed on; otherwise the image count matches the summary's total, and the summary is the per-type count of the image files |
| Inventory.ImageDate | src/index.js:118-129 | a read error or a missing DateTimeOriginal gives no date; otherwise the capture time |
| Inventory.MakeRecord | src/index.js:92-105 | the record names the file and its joined path, carries the `stat` size and the file's type, and its date is the capture time or, failing that, the modification time |
| Inventory.RecordFor | src/index.js:92-106 | the per-file work fails exactly when `stat` of the joined path fails, with that error; otherwise it gives that file's record |
| Inventory.CollectRecords | src/index.js:91-107 | one record per image file in listing order exactly when every `stat` succeeds, otherwise a failing `stat`'s error |
| Inventory.PreparePreview | src/index.js:86-115 | the error result appears exactly when the listing or some `stat` fails, and it carries the listing's or a failing `stat`'s message; otherwise one record per image file, ordered by date |
| Inventory.PreviewIsStableSortOfRecords | src/index.js:109 | the preview is a permutation of the listing-order records in which equal dates keep listing order |
| StableSort.SortBy | src/index.js:109 | the result is sorted by the key and is a permutation of the input |
| StableSort.SortByIsStable | src/index.js:109 | elements with equal keys keep their relative order |
| StableSort.StableSortCharacterization | src/renderer.js:60 | a sequence is sorted and keeps the order within each key exactly when it is the sort's result, so every stable sort agrees with the model |
| StableSort.SortedStableIsUnique | src/index.js:109 | two sorted sequences with the same order within each key are equal |
| StableSort.SameOrderPerKeyIsPermutation | src/index.js:109 | the same order within each key implies the same elements |
| Renamer.CollectFileNames | src/renderer.js:46-51 | one entry per data row in row order: the row's FileName, or undefined without that column |
| Renamer.LoadImage | src/renderer.js:55-59 | loading one file fails exactly when reading its capture time at the joined path fails, with that error; otherwise the image has that path and capture time |
| Renamer.LoadImages | src/renderer.js:54-59 | one image per candidate in listing order, with its joined path and capture time, exactly when every read succeeds; otherwise the first failing file's error |
| Renamer.TargetKeepsSourceExtension | src/renderer.js:65 | whenever the source has an extension, `TargetPath` gives the CSV name plus that extension, so the renamed file keeps it |
| Renamer.TargetOfExtensionlessSource | src/renderer.js:65 | a source with an empty `extname` (such as `.JPG`) is renamed to the CSV name exactly as written |
| Renamer.PairImages | src/renderer.js:63-64 | position i is paired exactly when `fileNames[i]` is truthy, with that image and that name; pairings follow position order; there are at most min(images, names) |
| Renamer.PlanRenames | src/renderer.js:63-69 | position i is renamed exactly when `fileNames[i]` is truthy, from the i-th sorted image to that name plus the image's extension, in position order |
| Renamer.PlanFromValidRows | src/renderer.js:63-64 | fed the rows the CSV selection keeps, exactly min(images, valid rows) images are renamed |
| Renamer.Move | src/renderer.js:66 | `Apply` of a rename that does not throw (`Throws`: a missing source or a refusal) is a move: the target holds the source's content, the source is gone, and no other path changes |
| Renamer.RunRenames | src/renderer.js:63-69 | the completed renames are the longest prefix of the plan none of which throws; the directory is their effect; a failure names the first rename that threw |
| Renamer.ApplyAllFrame | src/renderer.js:66 | renames leave every path they do not name as it was |
| Renamer.RenamePlan | src/renderer.js:54-65 | the plan fails exactly when the listing or an image read fails; otherwise it is the positional plan over the loaded `RenameCandidates` sorted by capture time, with no more renames than candidates or CSV rows |
| Renamer.SortedImagesAreLoaded | src/renderer.js:54-60 | every image handed to the rename loop has the joined path of a candidate and that path's capture time |
| Renamer.RenamePlanFollowsCaptureTime | src/renderer.js:54-66 | a successful plan renames only candidates, in non-decreasing order of capture time |
| Renamer.PlanRenamesDistinctSources | src/renderer.js:63-66 | images with distinct paths are each renamed at most once |
| Renamer.RenamePlanMovesEachImageOnce | src/renderer.js:54-66 | when the listing has no repeated entry, no two renames of a successful plan share a source |
| Renamer.StartProcess | src/renderer.js:36-72 | without both selections nothing happens; a failed read renames nothing; otherwise the run always finishes: the completed renames each succeeded in turn, the directory shows exactly them, and a failure names the first rename that threw |

## Left out

- The Electron window, the IPC wiring, the dialogs, the DOM and `alert` are not modelled. A cancelled dialog simply returns `null`. `src/preload.js` is not part of this model.
- Reading and parsing the CSV text is left to the parsers. Their output, or their error, is an input.
- The EXIF libraries and JavaScript `Date` parsing are left out. A capture time is an integer, and a reader's outcome is an input.
- When the renderer's EXIF parser finds no DateTimeOriginal, the comparator returns NaN and the order depends on the engine. The model's capture time is always an integer, which excludes that case.
- Renamer.LoadImages: a `readFileSync` or parse failure is one error per path, through the capture-time function. The model does not distinguish the two causes.
- `Promise.all` runs the per-file work concurrently. When several `stat` calls fail, which error wins depends on timing. `Inventory.CollectRecords` only promises that the error is some failing file's.
- `path.join` normalisation is not modelled: `..` segments, duplicate separators and a trailing separator on the folder. The folder and a plain file name are joined with one `/`.
- Lower-casing is ASCII only. That is exact for the extension test, because a JavaScript regular expression without the `u` flag folds only ASCII letters here. It is also exact for `toLowerCase` on the extensions that pass the filter. For other extensions the summary key could differ from JavaScript's full Unicode lower-casing.
- Why `renameSync` fails for reasons other than a missing source (permissions, a busy file, a target that is a directory) is not modelled. A refusal predicate stands in for those reasons.
- Logging (`console.log`, `console.error`) and the final "Process complete!" alert are not modelled.
- Renamer.StartProcess: an error in the CSV read stream is not modelled. The rows are given.
- Spreadsheet.SelectCsv: a failure to read the CSV file is not modelled; the parser's outcome is given. After a parse error the handler goes on to filter an undefined `data`, which throws inside the parser's callback after the promise has already been rejected. The model stops at the rejection.
- Renamer.TargetKeepsSourceExtension: the extension is kept only when the source has one. A name such as `.JPG` passes the rename test but has an empty `extname`, so the CSV name is used as written; a CSV name `x.png` then gives `x.png` (see `Renamer.TargetOfExtensionlessSource`). The lemma needs a CSV name without `/`, because `path.join` would otherwise put the file in a sub-folder.
- Paths are POSIX paths. On Windows, Electron's `path` is `path.win32`, which joins with `\` and also splits at `\`; that variant is not modelled.
- Inventory.ImageDate: a DateTimeOriginal that `new Date` cannot parse gives an Invalid Date. That value is truthy, so it is kept instead of the modification time, and the comparator then returns NaN. The model's capture time is always a valid integer, which excludes that case.

## Notes on the two flows

- `src/renderer.js` pairs images with the raw `FileName` of every CSV data row, not with the rows the CSV selection handler in `src/index.js` keeps. A blank entry therefore consumes a position and skips that image, and a whitespace-only name is truthy and is used. `Renamer.PlanFromValidRows` shows what pairing with the kept rows gives.
- An exception from `renameSync` is not caught inside the loop, so the first failure ends the run. Renames that already happened stay in place.
