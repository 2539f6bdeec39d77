/**
  The image inventory of the main process: the folder summary shown after a
  folder is selected, and the date-ordered preview records.  The directory
  listing, `fs.stat` and the EXIF reader are inputs: a listing (or the error
  `readdir` threw), a stat function and an EXIF function over full paths.
*/
module Inventory {
  import opened Wrappers
  import opened Text
  import opened Paths
  import opened Seqs
  import opened StableSort
  import opened Extensions

  /** The listing entries that pass the preview extension test, in listing order. */
  function ImageFiles(listing: seq<string>): seq<string> {
    Filter(IsPreviewImage, listing)
  }

  /**
    The image files are exactly the listing entries with a recognised
    extension, every occurrence of them, in listing order.
  */
  lemma ImageFilesAreMatchingEntries(listing: seq<string>)
    ensures forall f :: f in ImageFiles(listing) <==> f in listing && IsPreviewImage(f)
    ensures forall f :: multiset(ImageFiles(listing))[f] == (if IsPreviewImage(f) then multiset(listing)[f] else 0)
    ensures IsSubsequence(ImageFiles(listing), listing)
  {
    FilterCounts(IsPreviewImage, listing);
    FilterMembers(IsPreviewImage, listing);
    FilterIsSubsequence(IsPreviewImage, listing);
  }

  /** `path.extname(file).toLowerCase()`: the summary key and the record's file type. */
  function FileType(file: string): string {
    Lower(ExtName(file))
  }

  /**
    An image file's type is its recognised extension, lower-cased and with the
    leading '.', except for a file named only by its extension (".JPG"), whose
    type is "".
  */
  lemma FileTypeOfImage(file: string)
    requires IsPreviewImage(file)
    ensures || (exists e :: e in PreviewExtensions && FileType(file) == "." + e)
            || (FileType(file) == "" && exists e :: e in PreviewExtensions && Lower(file) == "." + e)
  {
    ConfiguredExtensionsAreLowerWords();
    MatchesExtensionIffExtName(file, PreviewExtensions);
    var e :| e in PreviewExtensions && (FileType(file) == "." + e || Lower(file) == "." + e);
    if FileType(file) != "." + e {
      WholeNameHasNoExtName(file, e);
    }
  }

  /** The file type of each file, in order. */
  function FileTypes(files: seq<string>): (r: seq<string>)
    ensures |r| == |files|
    ensures forall i :: 0 <= i < |files| ==> r[i] == FileType(files[i])
  {
    if |files| == 0 then [] else [FileType(files[0])] + FileTypes(files[1..])
  }

  /** The `fileTypes` object: file type to number of files of that type. */
  type Summary = map<string, nat>

  /** `acc[ext] || 0`: the count recorded for `k`, zero when absent. */
  function CountOf(acc: Summary, k: string): nat {
    if k in acc then acc[k] else 0
  }

  /** One reduction step: `acc[ext] = (acc[ext] || 0) + 1`. */
  function Tally(acc: Summary, k: string): (r: Summary)
    ensures r.Keys == acc.Keys + {k}
    ensures CountOf(r, k) == CountOf(acc, k) + 1
    ensures forall j :: j != k ==> CountOf(r, j) == CountOf(acc, j)
  {
    acc[k := CountOf(acc, k) + 1]
  }

  /** The reduction over the file types `types`, starting from `acc`. */
  function SummarizeInto(acc: Summary, types: seq<string>): (r: Summary)
    decreases |types|
    ensures forall k :: CountOf(r, k) == CountOf(acc, k) + multiset(types)[k]
    ensures forall k :: k in r <==> k in acc || k in types
  {
    if |types| == 0 then acc
    else
      assert types == [types[0]] + types[1..];
      SummarizeInto(Tally(acc, types[0]), types[1..])
  }

  /**
    `getFileTypeSummary`: every file type that occurs is a key, no other key
    exists, and each key counts the files of that type.
  */
  function FileTypeSummary(files: seq<string>): (r: Summary)
    ensures forall k :: k in r <==> k in FileTypes(files)
    ensures forall k :: k in r ==> r[k] == multiset(FileTypes(files))[k]
  {
    var r := SummarizeInto(map[], FileTypes(files));
    assert forall k :: k in r ==> CountOf(r, k) == r[k];
    r
  }

  /** A file type is a summary key exactly when some file has that type. */
  lemma SummaryKeys(files: seq<string>, k: string)
    ensures k in FileTypeSummary(files) <==> exists i :: 0 <= i < |files| && FileType(files[i]) == k
  {
    if k in FileTypes(files) {
      var i :| 0 <= i < |FileTypes(files)| && FileTypes(files)[i] == k;
    }
  }

  /** Some key of a non-empty summary. */
  ghost function AnyKey(m: Summary): (k: string)
    requires |m| > 0
    ensures k in m
  {
    var k :| k in m; k
  }

  /** Taking a key out of a summary leaves one key fewer. */
  lemma RemoveKeySize(m: Summary, k: string)
    requires k in m
    ensures |m - {k}| == |m| - 1
  {
    assert (m - {k}).Keys == m.Keys - {k};
  }

  /** The sum of the counts of a summary. */
  ghost function SumValues(m: Summary): nat
    decreases |m|
  {
    if |m| == 0 then 0
    else
      var k := AnyKey(m);
      RemoveKeySize(m, k);
      m[k] + SumValues(m - {k})
  }

  /** Two keys can be taken out in either order. */
  lemma RemoveKeysCommute(m: Summary, j: string, k: string)
    ensures (m - {j}) - {k} == (m - {k}) - {j}
  {
    var a, b := (m - {j}) - {k}, (m - {k}) - {j};
    assert a.Keys == b.Keys;
  }

  /** The sum does not depend on which key is taken out first. */
  lemma {:induction false} SumValuesRemove(m: Summary, k: string)
    requires k in m
    ensures SumValues(m) == m[k] + SumValues(m - {k})
    decreases |m|
  {
    var j := AnyKey(m);
    if j != k {
      RemoveKeySize(m, j);
      RemoveKeySize(m, k);
      var mj, mk := m - {j}, m - {k};
      assert k in mj && j in mk;
      SumValuesRemove(mj, k);
      SumValuesRemove(mk, j);
      RemoveKeysCommute(m, j, k);
      assert mj[k] == m[k] && mk[j] == m[j];
    }
  }

  /** Removing a key undoes updating it. */
  lemma UpdateThenRemove(m: Summary, k: string, v: nat)
    ensures m[k := v] - {k} == m - {k}
  {
    var a, b := m[k := v] - {k}, m - {k};
    assert a.Keys == b.Keys;
    assert forall x :: x in a ==> a[x] == b[x];
  }

  /** A reduction step adds one to the sum. */
  lemma SumValuesTally(acc: Summary, k: string)
    ensures SumValues(Tally(acc, k)) == SumValues(acc) + 1
  {
    var r := Tally(acc, k);
    var rest := acc - {k};
    UpdateThenRemove(acc, k, CountOf(acc, k) + 1);
    SumValuesRemove(r, k);
    if k in acc {
      SumValuesRemove(acc, k);
    } else {
      assert rest == acc;
    }
  }

  /** The reduction adds one to the sum per file type tallied. */
  lemma {:induction false} SumValuesSummarizeInto(acc: Summary, types: seq<string>)
    ensures SumValues(SummarizeInto(acc, types)) == SumValues(acc) + |types|
    decreases |types|
  {
    if |types| > 0 {
      SumValuesTally(acc, types[0]);
      SumValuesSummarizeInto(Tally(acc, types[0]), types[1..]);
    }
  }

  /** The counts of the summary add up to the number of files summarised. */
  lemma SummaryTotal(files: seq<string>)
    ensures SumValues(FileTypeSummary(files)) == |files|
  {
    var empty: Summary := map[];
    SumValuesSummarizeInto(empty, FileTypes(files));
    assert |empty| == 0;
  }

  /** What the folder selection reports: the folder, its image count and the type summary. */
  datatype FolderInfo = FolderInfo(path: string, imageCount: nat, fileTypes: Summary)

  /**
    The folder selection handler once a folder is chosen: a `readdir` error is
    passed on; otherwise the count and the summary describe the same image
    files, so the summary's counts add up to `imageCount`.
  */
  function SelectFolder(folderPath: string, listing: Result<seq<string>>): (r: Result<FolderInfo>)
    ensures r.Err? <==> listing.Err?
    ensures r.Err? ==> r.message == listing.message
    ensures r.Ok? ==> r.value.path == folderPath && r.value.imageCount == |ImageFiles(listing.value)|
    ensures r.Ok? ==> SumValues(r.value.fileTypes) == r.value.imageCount
    ensures r.Ok? ==> forall k :: k in r.value.fileTypes ==> k in FileTypes(ImageFiles(listing.value))
    ensures r.Ok? ==> r.value.fileTypes == FileTypeSummary(ImageFiles(listing.value))
  {
    match listing
    case Err(m) => Err(m)
    case Ok(names) =>
      var images := ImageFiles(names);
      SummaryTotal(images);
      Ok(FolderInfo(folderPath, |images|, FileTypeSummary(images)))
  }

  /** What the EXIF reader gives for a file: an error, or the data with its DateTimeOriginal if set. */
  datatype ExifResult = ExifError | ExifData(dateTimeOriginal: Option<int>)

  /** `getImageDate`: the capture time, or null on a read error or a missing DateTimeOriginal. */
  function ImageDate(exif: ExifResult): (r: Option<int>)
    ensures exif.ExifError? ==> r.None?
    ensures exif.ExifData? ==> r == exif.dateTimeOriginal
  {
    match exif
    case ExifError => None
    case ExifData(d) => d
  }

  /** What `fs.stat` gives for a file: its modification time and size. */
  datatype Stat = Stat(mtime: int, size: nat)

  /** A preview record. */
  datatype ImageRecord = ImageRecord(
    file: string, originalName: string, path: string, date: int, size: nat, fileType: string)

  /** The record built for one image file. */
  function MakeRecord(folderPath: string, file: string, exif: ExifResult, st: Stat): (r: ImageRecord)
    ensures r.file == file && r.originalName == file && r.path == Join(folderPath, file)
    ensures exif.ExifError? ==> r.date == st.mtime
    ensures exif.ExifData? && exif.dateTimeOriginal.None? ==> r.date == st.mtime
    ensures exif.ExifData? && exif.dateTimeOriginal.Some? ==> r.date == exif.dateTimeOriginal.value
    ensures r.fileType == FileType(file) && r.size == st.size
  {
    ImageRecord(file, file, Join(folderPath, file), ImageDate(exif).GetOr(st.mtime), st.size, FileType(file))
  }

  /** The per-file work of the preview: `getImageDate`, then `fs.stat`, which may throw. */
  function RecordFor(
    folderPath: string, file: string,
    readExif: string -> ExifResult, stat: string -> Result<Stat>): (r: Result<ImageRecord>)
    ensures r.Ok? <==> stat(Join(folderPath, file)).Ok?
    ensures r.Ok? ==> r.value == MakeRecord(folderPath, file, readExif(Join(folderPath, file)), stat(Join(folderPath, file)).value)
    ensures r.Err? ==> stat(Join(folderPath, file)) == Err(r.message)
  {
    var path := Join(folderPath, file);
    match stat(path)
    case Err(m) => Err(m)
    case Ok(st) => Ok(MakeRecord(folderPath, file, readExif(path), st))
  }

  /**
    `Promise.all` over the per-file work: the records in listing order, or the
    error of a failing `fs.stat`.
  */
  function CollectRecords(
    folderPath: string, files: seq<string>,
    readExif: string -> ExifResult, stat: string -> Result<Stat>): (r: Result<seq<ImageRecord>>)
    ensures r.Ok? <==> forall i :: 0 <= i < |files| ==> stat(Join(folderPath, files[i])).Ok?
    ensures r.Ok? ==> |r.value| == |files|
    ensures r.Ok? ==> forall i :: 0 <= i < |files| ==>
      r.value[i] == MakeRecord(folderPath, files[i], readExif(Join(folderPath, files[i])), stat(Join(folderPath, files[i])).value)
    ensures r.Err? ==> exists i :: 0 <= i < |files| && stat(Join(folderPath, files[i])) == Err(r.message)
  {
    var rs := seq(|files|, i requires 0 <= i < |files| => RecordFor(folderPath, files[i], readExif, stat));
    assert forall i :: 0 <= i < |files| ==> rs[i] == RecordFor(folderPath, files[i], readExif, stat);
    AllOk(rs)
  }

  /** The sort key of the preview: the record's date. */
  function RecordDate(r: ImageRecord): int {
    r.date
  }

  /**
    The preview handler: list the folder, build a record per image file and
    sort the records by date; any error becomes the error result, never a
    partial list.
  */
  function PreparePreview(
    folderPath: string, listing: Result<seq<string>>,
    readExif: string -> ExifResult, stat: string -> Result<Stat>): (r: Result<seq<ImageRecord>>)
    ensures r.Err? <==> listing.Err? || exists i :: 0 <= i < |ImageFiles(listing.value)| && stat(Join(folderPath, ImageFiles(listing.value)[i])).Err?
    ensures r.Ok? ==> |r.value| == |ImageFiles(listing.value)|
    ensures r.Ok? ==> SortedBy(r.value, RecordDate)
    ensures r.Err? ==>
      || (listing.Err? && r.message == listing.message)
      || (listing.Ok? && exists i ::
            0 <= i < |ImageFiles(listing.value)| && stat(Join(folderPath, ImageFiles(listing.value)[i])) == Err(r.message))
  {
    match listing
    case Err(m) => Err(m)
    case Ok(names) =>
      match CollectRecords(folderPath, ImageFiles(names), readExif, stat)
      case Err(m) => Err(m)
      case Ok(records) => Ok(SortBy(records, RecordDate))
  }

  /**
    A successful preview is the records of the image files, in listing order,
    reordered by date: a permutation of them, and records with equal dates keep
    their listing order.
  */
  lemma PreviewIsStableSortOfRecords(
    folderPath: string, names: seq<string>,
    readExif: string -> ExifResult, stat: string -> Result<Stat>)
    requires PreparePreview(folderPath, Ok(names), readExif, stat).Ok?
    ensures var files := ImageFiles(names);
            var records := CollectRecords(folderPath, files, readExif, stat);
            var preview := PreparePreview(folderPath, Ok(names), readExif, stat).value;
            && records.Ok?
            && multiset(preview) == multiset(records.value)
            && SameOrderPerKey(preview, records.value, RecordDate)
            && forall i :: 0 <= i < |files| ==> records.value[i].originalName == files[i]
  {
    var records := CollectRecords(folderPath, ImageFiles(names), readExif, stat);
    SortByIsStable(records.value, RecordDate);
  }
}
