/**
  The renderer's start-process flow: read the FileName of every CSV data row,
  list the folder's raster images with their EXIF capture times, sort them by
  capture time and rename the i-th image to the i-th FileName, one rename
  after the other, stopping at the first rename that throws.  The CSV parser,
  `readdirSync`, the EXIF parser and `renameSync` are inputs: the parsed rows,
  the listing, a capture-time function over full paths and a refusal predicate.
*/
module Renamer {
  import opened Wrappers
  import opened Paths
  import opened Seqs
  import opened StableSort
  import opened Extensions
  import opened Spreadsheet

  /** `row.FileName` as the parser hands it over: undefined when the row has no such cell. */
  function FileNameOf(row: Row): Option<string> {
    if FileNameColumn in row then Some(row[FileNameColumn]) else None
  }

  /**
    The `fileNames` array, filled by one `push` per `data` event: one entry per
    data row, in row order, with nothing filtered out.
  */
  function CollectFileNames(rows: seq<Row>): (r: seq<Option<string>>)
    ensures |r| == |rows|
    ensures forall i :: 0 <= i < |rows| ==> r[i] == FileNameOf(rows[i])
  {
    if |rows| == 0 then []
    else CollectFileNames(rows[..|rows| - 1]) + [FileNameOf(rows[|rows| - 1])]
  }

  /** The guard `if (fileNames[index])`: an entry that exists, is defined and is not "". */
  predicate Named(fileNames: seq<Option<string>>, i: int) {
    0 <= i < |fileNames| && fileNames[i].Some? && fileNames[i].value != ""
  }

  /** One image of the rename flow: its full path and its EXIF capture time. */
  datatype Image = Image(filePath: string, dateTaken: int)

  /** The sort key of the rename flow. */
  function DateTaken(image: Image): int {
    image.dateTaken
  }

  /** The listing entries that pass the rename extension test, in listing order. */
  function RenameCandidates(listing: seq<string>): seq<string> {
    Filter(IsRenameImage, listing)
  }

  /** The per-file work of the `map`: read the file and parse its EXIF capture time, which may throw. */
  function LoadImage(folderPath: string, file: string, captureTime: string -> Result<int>): (r: Result<Image>)
    ensures r.Ok? <==> captureTime(Join(folderPath, file)).Ok?
    ensures r.Ok? ==> r.value == Image(Join(folderPath, file), captureTime(Join(folderPath, file)).value)
    ensures r.Err? ==> captureTime(Join(folderPath, file)) == Err(r.message)
  {
    var path := Join(folderPath, file);
    match captureTime(path)
    case Err(m) => Err(m)
    case Ok(t) => Ok(Image(path, t))
  }

  /**
    The synchronous `map` over the candidates: each file's path and capture
    time in listing order, or the error of the first file (in listing order)
    whose read or EXIF parse throws.
  */
  function LoadImages(folderPath: string, files: seq<string>, captureTime: string -> Result<int>): (r: Result<seq<Image>>)
    ensures r.Ok? <==> forall i :: 0 <= i < |files| ==> captureTime(Join(folderPath, files[i])).Ok?
    ensures r.Ok? ==> |r.value| == |files|
    ensures r.Ok? ==> forall i :: 0 <= i < |files| ==>
      r.value[i] == Image(Join(folderPath, files[i]), captureTime(Join(folderPath, files[i])).value)
    ensures r.Err? ==> exists i :: && 0 <= i < |files|
                                  && captureTime(Join(folderPath, files[i])) == Err(r.message)
                                  && forall j :: 0 <= j < i ==> captureTime(Join(folderPath, files[j])).Ok?
  {
    var rs := seq(|files|, i requires 0 <= i < |files| => LoadImage(folderPath, files[i], captureTime));
    assert forall i :: 0 <= i < |files| ==> rs[i] == LoadImage(folderPath, files[i], captureTime);
    AllOk(rs)
  }

  /** The path an image is renamed to: the folder, the CSV name and the image's own extension. */
  function TargetPath(folderPath: string, name: string, source: string): string {
    Join(folderPath, name + ExtName(BaseName(source)))
  }

  /**
    Whenever the source has an extension, the new name is the CSV name followed
    by that extension, so the renamed file keeps it.  The CSV name must be a
    plain name (no separator) and must not combine with the extension into "..".
  */
  lemma TargetKeepsSourceExtension(folderPath: string, name: string, file: string)
    requires Separator !in name && Separator !in file
    requires name != "" && ExtName(file) != "" && name + ExtName(file) != ".."
    ensures BaseName(TargetPath(folderPath, name, Join(folderPath, file))) == name + ExtName(file)
    ensures ExtName(BaseName(TargetPath(folderPath, name, Join(folderPath, file)))) == ExtName(file)
  {
    BaseNameOfJoin(folderPath, file);
    var ext := ExtName(file);
    assert Separator !in ext by {
      assert ext == file[|file| - |ext|..];
    }
    assert Separator !in name + ext;
    BaseNameOfJoin(folderPath, name + ext);
    assert IsExtension(ext);
    ExtNameOfStemAndExt(name, ext);
  }

  /**
    A source without an extension (such as ".JPG", which passes the rename
    test) is renamed to the CSV name exactly as written, so an extension in
    the CSV name becomes the file's extension.
  */
  lemma TargetOfExtensionlessSource(folderPath: string, name: string, file: string)
    requires Separator !in file && ExtName(file) == ""
    ensures TargetPath(folderPath, name, Join(folderPath, file)) == Join(folderPath, name)
  {
    BaseNameOfJoin(folderPath, file);
    assert name + "" == name;
  }

  /** One planned rename: the sorted position it comes from, and its two paths. */
  datatype RenameStep = RenameStep(index: nat, source: string, target: string)

  /** One pairing of the `forEach`: a sorted position, its image's path and its FileName. */
  datatype Pairing = Pairing(index: nat, source: string, name: string)

  /** The positions a pairing uses. */
  function Positions(p: seq<Pairing>): set<nat> {
    set k | 0 <= k < |p| :: p[k].index
  }

  /** The named positions from `i` up to `count`. */
  function NamedFrom(fileNames: seq<Option<string>>, i: nat, count: nat): set<nat> {
    set j: nat | i <= j < count && Named(fileNames, j)
  }

  /** Putting a pairing in front adds its position. */
  lemma PositionsCons(first: Pairing, rest: seq<Pairing>)
    ensures Positions([first] + rest) == {first.index} + Positions(rest)
  {
    var p := [first] + rest;
    forall j | j in Positions(p)
      ensures j in {first.index} + Positions(rest)
    {
      var k :| 0 <= k < |p| && p[k].index == j;
      if k > 0 {
        assert rest[k - 1].index == j;
      }
    }
    forall j | j in Positions(rest)
      ensures j in Positions(p)
    {
      var k :| 0 <= k < |rest| && rest[k].index == j;
      assert p[k + 1].index == j;
    }
    assert p[0].index == first.index;
  }

  /** The named positions from `i` are `i` itself, if named, and those from `i + 1`. */
  lemma NamedFromStep(fileNames: seq<Option<string>>, i: nat, count: nat)
    requires i < count
    ensures NamedFrom(fileNames, i, count)
         == (if Named(fileNames, i) then {i} else {}) + NamedFrom(fileNames, i + 1, count)
  {
  }

  /** The `forEach` from position `i` on: one pairing per named position, in position order. */
  function PairFrom(images: seq<Image>, fileNames: seq<Option<string>>, i: nat): (p: seq<Pairing>)
    requires i <= |images|
    decreases |images| - i
    ensures forall k :: 0 <= k < |p| ==> i <= p[k].index < |images| && Named(fileNames, p[k].index)
  {
    if i == |images| then []
    else
      var rest := PairFrom(images, fileNames, i + 1);
      if Named(fileNames, i) then [Pairing(i, images[i].filePath, fileNames[i].value)] + rest else rest
  }

  /** Every pairing takes the image and the FileName of its own position. */
  predicate PairsAtTheirPositions(images: seq<Image>, fileNames: seq<Option<string>>, p: seq<Pairing>) {
    forall k :: 0 <= k < |p| ==>
      && p[k].index < |images| && Named(fileNames, p[k].index)
      && p[k].source == images[p[k].index].filePath
      && p[k].name == fileNames[p[k].index].value
  }

  /** The pairings are in strictly increasing position order. */
  predicate Ascending(p: seq<Pairing>) {
    forall a, b :: 0 <= a < b < |p| ==> p[a].index < p[b].index
  }

  /** Each pairing uses the image and FileName at its position. */
  lemma {:induction false} PairFromAtPositions(images: seq<Image>, fileNames: seq<Option<string>>, i: nat)
    requires i <= |images|
    ensures PairsAtTheirPositions(images, fileNames, PairFrom(images, fileNames, i))
    decreases |images| - i
  {
    if i < |images| {
      PairFromAtPositions(images, fileNames, i + 1);
      var rest := PairFrom(images, fileNames, i + 1);
      var p := PairFrom(images, fileNames, i);
      if Named(fileNames, i) {
        assert forall k :: 0 < k < |p| ==> p[k] == rest[k - 1];
      }
    }
  }

  /** Pairings come in strictly increasing position order. */
  lemma {:induction false} PairFromAscending(images: seq<Image>, fileNames: seq<Option<string>>, i: nat)
    requires i <= |images|
    ensures Ascending(PairFrom(images, fileNames, i))
    decreases |images| - i
  {
    if i < |images| {
      PairFromAscending(images, fileNames, i + 1);
      var rest := PairFrom(images, fileNames, i + 1);
      var p := PairFrom(images, fileNames, i);
      if Named(fileNames, i) {
        forall a, b | 0 <= a < b < |p|
          ensures p[a].index < p[b].index
        {
          assert p[b] == rest[b - 1];
          if a > 0 {
            assert p[a] == rest[a - 1];
          }
        }
      }
    }
  }

  /** The positions paired from `i` are exactly the named positions from `i`. */
  lemma {:induction false} PairFromPositions(images: seq<Image>, fileNames: seq<Option<string>>, i: nat)
    requires i <= |images|
    ensures Positions(PairFrom(images, fileNames, i)) == NamedFrom(fileNames, i, |images|)
    decreases |images| - i
  {
    if i == |images| {
      assert NamedFrom(fileNames, i, |images|) == {};
    } else {
      PairFromPositions(images, fileNames, i + 1);
      NamedFromStep(fileNames, i, |images|);
      if Named(fileNames, i) {
        PositionsCons(Pairing(i, images[i].filePath, fileNames[i].value), PairFrom(images, fileNames, i + 1));
      }
    }
  }

  /** Ascending positions from `i` below `n` number at most `n - i`. */
  lemma {:induction false} AscendingPositionsBound(p: seq<Pairing>, i: nat, n: nat)
    requires Ascending(p)
    requires forall k :: 0 <= k < |p| ==> i <= p[k].index < n
    requires i <= n
    ensures i + |p| <= n
    decreases |p|
  {
    if |p| > 0 {
      var q := p[1..];
      forall k | 0 <= k < |q|
        ensures i + 1 <= q[k].index < n
      {
        assert q[k] == p[k + 1];
        assert p[0].index < p[k + 1].index;
      }
      assert i <= p[0].index < n;
      AscendingPositionsBound(q, i + 1, n);
    }
  }

  /**
    The pairing of the `forEach`: position i is paired exactly when
    fileNames[i] exists and is truthy, with that image and that name; pairings
    follow position order; a blank entry skips its position without shifting
    later pairings; positions past the last FileName are never paired; and
    there are at most min(|images|, |fileNames|) pairings.
  */
  function PairImages(images: seq<Image>, fileNames: seq<Option<string>>): (p: seq<Pairing>)
    ensures |p| <= |images| && |p| <= |fileNames|
    ensures PairsAtTheirPositions(images, fileNames, p)
    ensures Ascending(p)
    ensures forall j :: 0 <= j < |images| ==> (j in Positions(p) <==> Named(fileNames, j))
  {
    var p := PairFrom(images, fileNames, 0);
    PairFromAtPositions(images, fileNames, 0);
    PairFromAscending(images, fileNames, 0);
    PairFromPositions(images, fileNames, 0);
    AscendingPositionsBound(p, 0, |images|);
    AscendingPositionsBound(p, 0, |fileNames|);
    p
  }

  /** The rename at position `i` of the plan: that image, to that FileName, keeping the image's extension. */
  predicate RenamesPosition(folderPath: string, images: seq<Image>, fileNames: seq<Option<string>>, step: RenameStep) {
    && step.index < |images| && Named(fileNames, step.index)
    && step.source == images[step.index].filePath
    && step.target == TargetPath(folderPath, fileNames[step.index].value, images[step.index].filePath)
  }

  /**
    The renames of the `forEach`: position i is renamed exactly when
    fileNames[i] exists and is truthy, from the i-th image to the i-th
    FileName plus the image's extension; renames follow position order; and
    there are at most min(|images|, |fileNames|) of them.
  */
  function PlanRenames(folderPath: string, images: seq<Image>, fileNames: seq<Option<string>>): (plan: seq<RenameStep>)
    ensures |plan| <= |images| && |plan| <= |fileNames|
    ensures forall k :: 0 <= k < |plan| ==> RenamesPosition(folderPath, images, fileNames, plan[k])
    ensures forall a, b :: 0 <= a < b < |plan| ==> plan[a].index < plan[b].index
    ensures forall j :: 0 <= j < |images| ==>
      (Named(fileNames, j) <==> exists k :: 0 <= k < |plan| && plan[k].index == j)
  {
    var pairs := PairImages(images, fileNames);
    var plan := seq(|pairs|, k requires 0 <= k < |pairs| =>
      RenameStep(pairs[k].index, pairs[k].source, TargetPath(folderPath, pairs[k].name, pairs[k].source)));
    forall k | 0 <= k < |plan|
      ensures plan[k].index == pairs[k].index
      ensures RenamesPosition(folderPath, images, fileNames, plan[k])
    {
      var pair := pairs[k];
      assert plan[k] == RenameStep(pair.index, pair.source, TargetPath(folderPath, pair.name, pair.source));
      assert pair.source == images[pair.index].filePath && pair.name == fileNames[pair.index].value;
    }
    assert forall j :: 0 <= j < |images| ==>
      (j in Positions(pairs) <==> exists k :: 0 <= k < |plan| && plan[k].index == j);
    plan
  }

  /** The smaller of two numbers. */
  function Min(a: int, b: int): int {
    if a <= b then a else b
  }

  /** When every entry is named, the pairing from `i` covers every position below both lengths. */
  lemma {:induction false} PairFromAllNamed(images: seq<Image>, fileNames: seq<Option<string>>, i: nat)
    requires i <= |images|
    requires forall j :: 0 <= j < |fileNames| ==> Named(fileNames, j)
    ensures |PairFrom(images, fileNames, i)| == if i < |fileNames| then Min(|images|, |fileNames|) - i else 0
    decreases |images| - i
  {
    if i < |images| {
      PairFromAllNamed(images, fileNames, i + 1);
    }
  }

  /**
    Feeding the rename flow the rows the CSV selection keeps, the truthiness
    guard never skips, so exactly min(|images|, |valid rows|) images are renamed.
  */
  lemma PlanFromValidRows(folderPath: string, images: seq<Image>, rows: seq<Row>)
    ensures |PlanRenames(folderPath, images, CollectFileNames(ValidRows(rows)))| == Min(|images|, |ValidRows(rows)|)
  {
    var valid := ValidRows(rows);
    var names := CollectFileNames(valid);
    ValidRowsKeepVisibleNames(rows);
    forall j | 0 <= j < |names|
      ensures Named(names, j)
    {
      assert names[j] == FileNameOf(valid[j]);
      assert valid[j][FileNameColumn] != "";
    }
    PairFromAllNamed(images, names, 0);
  }

  /** File contents, as bytes. */
  type Content = seq<bv8>

  /** The file system as a map from full path to file content. */
  type Dir = map<string, Content>

  /**
    A successful `renameSync(source, target)`: the source's content now lives
    at the target (replacing whatever was there), the source path is gone, and
    no other path changes.
  */
  function Move(d: Dir, source: string, target: string): (r: Dir)
    requires source in d
    ensures target in r && r[target] == d[source]
    ensures source != target ==> source !in r
    ensures forall p :: p != source && p != target ==> (p in r <==> p in d) && (p in r ==> r[p] == d[p])
  {
    if source == target then d else (d - {source})[target := d[source]]
  }

  /**
    `renameSync` throws: the source no longer exists (an earlier rename moved
    or replaced it), or the platform refuses the rename.
  */
  predicate Throws(d: Dir, step: RenameStep, refused: (Dir, string, string) -> bool) {
    step.source !in d || refused(d, step.source, step.target)
  }

  /** The effect of one rename that does not throw. */
  function Apply(d: Dir, step: RenameStep): Dir {
    if step.source in d then Move(d, step.source, step.target) else d
  }

  /** The directory after the given renames all take effect, in order. */
  function ApplyAll(d: Dir, steps: seq<RenameStep>): Dir {
    if |steps| == 0 then d else Apply(ApplyAll(d, steps[..|steps| - 1]), steps[|steps| - 1])
  }

  /** Taking one more rename of a plan applies that rename to the result so far. */
  lemma ApplyAllPrefix(d: Dir, plan: seq<RenameStep>, n: nat)
    requires n < |plan|
    ensures ApplyAll(d, plan[..n + 1]) == Apply(ApplyAll(d, plan[..n]), plan[n])
  {
    assert plan[..n + 1][..n] == plan[..n];
  }

  /** Where a rename stopped: the position of the image and the two paths. */
  datatype RenameFailure = RenameFailure(index: nat, source: string, target: string)

  /** None of the first `n` renames of the plan throws, each applied after those before it. */
  predicate NoneThrew(d: Dir, plan: seq<RenameStep>, n: nat, refused: (Dir, string, string) -> bool)
    requires n <= |plan|
  {
    forall k :: 0 <= k < n ==> !Throws(ApplyAll(d, plan[..k]), plan[k], refused)
  }

  /** A rename that does not throw extends the prefix that ran. */
  lemma NoneThrewStep(d: Dir, plan: seq<RenameStep>, n: nat, refused: (Dir, string, string) -> bool)
    requires n < |plan|
    requires NoneThrew(d, plan, n, refused) && !Throws(ApplyAll(d, plan[..n]), plan[n], refused)
    ensures NoneThrew(d, plan, n + 1, refused)
  {
  }

  /**
    The sequential rename loop: the completed renames are exactly the longest
    prefix of the plan none of whose renames throws, the directory is the
    effect of that prefix, and a failure names the first rename that threw.
  */
  method RunRenames(d: Dir, plan: seq<RenameStep>, refused: (Dir, string, string) -> bool)
    returns (result: Dir, completed: nat, failure: Option<RenameFailure>)
    ensures completed <= |plan|
    ensures result == ApplyAll(d, plan[..completed])
    ensures forall k :: 0 <= k < completed ==> !Throws(ApplyAll(d, plan[..k]), plan[k], refused)
    ensures failure.None? <==> completed == |plan|
    ensures failure.Some? ==>
      && Throws(result, plan[completed], refused)
      && failure.value == RenameFailure(plan[completed].index, plan[completed].source, plan[completed].target)
  {
    result := d;
    completed := 0;
    failure := None;
    while completed < |plan|
      invariant completed <= |plan|
      invariant result == ApplyAll(d, plan[..completed])
      invariant NoneThrew(d, plan, completed, refused)
      invariant failure.None?
    {
      var step := plan[completed];
      if Throws(result, step, refused) {
        failure := Some(RenameFailure(step.index, step.source, step.target));
        return;
      }
      ApplyAllPrefix(d, plan, completed);
      NoneThrewStep(d, plan, completed, refused);
      result := Apply(result, step);
      completed := completed + 1;
    }
  }

  /** The paths a sequence of renames reads or writes. */
  function Touched(steps: seq<RenameStep>): set<string> {
    (set k | 0 <= k < |steps| :: steps[k].source) + (set k | 0 <= k < |steps| :: steps[k].target)
  }

  /** Renames leave every path they do not name exactly as it was. */
  lemma {:induction false} ApplyAllFrame(d: Dir, steps: seq<RenameStep>, p: string)
    requires p !in Touched(steps)
    ensures p in ApplyAll(d, steps) <==> p in d
    ensures p in d ==> ApplyAll(d, steps)[p] == d[p]
  {
    if |steps| > 0 {
      var init := steps[..|steps| - 1];
      assert Touched(init) <= Touched(steps) by {
        forall q | q in Touched(init)
          ensures q in Touched(steps)
        {
          var k :| 0 <= k < |init| && (q == init[k].source || q == init[k].target);
          assert init[k] == steps[k];
        }
      }
      ApplyAllFrame(d, init, p);
      var last := steps[|steps| - 1];
      assert p != last.source && p != last.target;
    }
  }

  /** The outcome of the start-process handler. */
  datatype ProcessReport =
    | MissingSelection              // the "select both" alert: nothing happens
    | Aborted(message: string)      // listing, reading or parsing threw before any rename
    | Finished(completed: nat, failure: Option<RenameFailure>)

  /**
    The plan the handler carries out: the rename candidates of the listing
    with their capture times, sorted by capture time, paired with the CSV's
    FileName entries.
  */
  function RenamePlan(
    folderPath: string, listing: Result<seq<string>>, rows: seq<Row>,
    captureTime: string -> Result<int>): (r: Result<seq<RenameStep>>)
    ensures r.Err? <==> listing.Err? || LoadImages(folderPath, RenameCandidates(listing.value), captureTime).Err?
    ensures r.Ok? ==> |r.value| <= |RenameCandidates(listing.value)| && |r.value| <= |rows|
    ensures r.Ok? ==> r.value == PlanRenames(folderPath,
      SortBy(LoadImages(folderPath, RenameCandidates(listing.value), captureTime).value, DateTaken),
      CollectFileNames(rows))
  {
    match listing
    case Err(m) => Err(m)
    case Ok(names) =>
      match LoadImages(folderPath, RenameCandidates(names), captureTime)
      case Err(m) => Err(m)
      case Ok(images) => Ok(PlanRenames(folderPath, SortBy(images, DateTaken), CollectFileNames(rows)))
  }

  /** `x` is the image loaded for one of `files`: its joined path, with that path's capture time. */
  predicate LoadedFrom(folderPath: string, files: seq<string>, captureTime: string -> Result<int>, x: Image) {
    && captureTime(x.filePath) == Ok(x.dateTaken)
    && exists i :: 0 <= i < |files| && x.filePath == Join(folderPath, files[i])
  }

  /** Every image the sort hands to the rename loop was loaded from one of the candidates. */
  lemma SortedImagesAreLoaded(folderPath: string, files: seq<string>, captureTime: string -> Result<int>)
    requires LoadImages(folderPath, files, captureTime).Ok?
    ensures forall x :: x in SortBy(LoadImages(folderPath, files, captureTime).value, DateTaken) ==>
      LoadedFrom(folderPath, files, captureTime, x)
  {
    var images := LoadImages(folderPath, files, captureTime).value;
    var sorted := SortBy(images, DateTaken);
    forall x | x in sorted
      ensures LoadedFrom(folderPath, files, captureTime, x)
    {
      assert x in multiset(sorted);
      assert x in images;
      var i :| 0 <= i < |images| && images[i] == x;
      assert x.filePath == Join(folderPath, files[i]);
    }
  }

  /**
    A successful plan renames only rename candidates of the listing, and it
    renames them in order of capture time: a rename earlier in the plan never
    moves a photo taken later than one a later rename moves.
  */
  lemma RenamePlanFollowsCaptureTime(folderPath: string, names: seq<string>, rows: seq<Row>, captureTime: string -> Result<int>)
    requires RenamePlan(folderPath, Ok(names), rows, captureTime).Ok?
    ensures var plan := RenamePlan(folderPath, Ok(names), rows, captureTime).value;
            && (forall k :: 0 <= k < |plan| ==>
                  exists i :: 0 <= i < |RenameCandidates(names)| && plan[k].source == Join(folderPath, RenameCandidates(names)[i]))
            && (forall a, b :: 0 <= a < b < |plan| ==>
                  && captureTime(plan[a].source).Ok? && captureTime(plan[b].source).Ok?
                  && captureTime(plan[a].source).value <= captureTime(plan[b].source).value)
  {
    var files := RenameCandidates(names);
    var images := LoadImages(folderPath, files, captureTime).value;
    var sorted := SortBy(images, DateTaken);
    var plan := PlanRenames(folderPath, sorted, CollectFileNames(rows));
    assert RenamePlan(folderPath, Ok(names), rows, captureTime).value == plan;
    SortedImagesAreLoaded(folderPath, files, captureTime);
    forall k | 0 <= k < |plan|
      ensures LoadedFrom(folderPath, files, captureTime, sorted[plan[k].index])
      ensures sorted[plan[k].index] == Image(plan[k].source, captureTime(plan[k].source).value)
    {
      assert sorted[plan[k].index] in sorted;
    }
  }

  /** Different directory entries load as different images. */
  lemma LoadedImagesDistinct(folderPath: string, files: seq<string>, captureTime: string -> Result<int>)
    requires LoadImages(folderPath, files, captureTime).Ok?
    requires NoDuplicates(files)
    ensures NoDuplicates(LoadImages(folderPath, files, captureTime).value)
  {
    var images := LoadImages(folderPath, files, captureTime).value;
    forall i, j | 0 <= i < j < |images|
      ensures images[i] != images[j]
    {
      if images[i] == images[j] {
        JoinInjective(folderPath, files[i], files[j]);
      }
    }
  }

  /** No two images share a path. */
  predicate DistinctPaths(images: seq<Image>) {
    forall i, j :: 0 <= i < j < |images| ==> images[i].filePath != images[j].filePath
  }

  /** Renames of distinct positions have distinct sources when the images have distinct paths. */
  lemma PlanRenamesDistinctSources(folderPath: string, images: seq<Image>, fileNames: seq<Option<string>>)
    requires DistinctPaths(images)
    ensures var plan := PlanRenames(folderPath, images, fileNames);
            forall a, b :: 0 <= a < b < |plan| ==> plan[a].source != plan[b].source
  {
  }

  /** The images the sort hands to the rename loop have distinct paths when the listing does. */
  lemma SortedPathsDistinct(folderPath: string, files: seq<string>, captureTime: string -> Result<int>)
    requires LoadImages(folderPath, files, captureTime).Ok?
    requires NoDuplicates(files)
    ensures DistinctPaths(SortBy(LoadImages(folderPath, files, captureTime).value, DateTaken))
  {
    var images := LoadImages(folderPath, files, captureTime).value;
    var sorted := SortBy(images, DateTaken);
    LoadedImagesDistinct(folderPath, files, captureTime);
    NoDuplicatesCounts(images);
    CountsNoDuplicates(sorted);
    SortedImagesAreLoaded(folderPath, files, captureTime);
    forall i, j | 0 <= i < j < |sorted|
      ensures sorted[i].filePath != sorted[j].filePath
    {
      assert sorted[i] in sorted && sorted[j] in sorted;
    }
  }

  /**
    A directory lists every entry once, so a successful plan moves every photo
    at most once: no two renames share a source.
  */
  lemma RenamePlanMovesEachImageOnce(folderPath: string, names: seq<string>, rows: seq<Row>, captureTime: string -> Result<int>)
    requires RenamePlan(folderPath, Ok(names), rows, captureTime).Ok?
    requires NoDuplicates(names)
    ensures var plan := RenamePlan(folderPath, Ok(names), rows, captureTime).value;
            forall a, b :: 0 <= a < b < |plan| ==> plan[a].source != plan[b].source
  {
    var files := RenameCandidates(names);
    var sorted := SortBy(LoadImages(folderPath, files, captureTime).value, DateTaken);
    FilterNoDuplicates(IsRenameImage, names);
    SortedPathsDistinct(folderPath, files, captureTime);
    PlanRenamesDistinctSources(folderPath, sorted, CollectFileNames(rows));
  }

  /**
    The start-process handler: nothing happens without both selections;
    nothing is renamed when listing or reading the images throws; otherwise
    the renames of the plan run in order until the first one that throws, and
    the directory shows exactly the effect of the renames that completed.
  */
  method StartProcess(
    csvPath: string, folderPath: string, rows: seq<Row>, listing: Result<seq<string>>,
    captureTime: string -> Result<int>, d: Dir, refused: (Dir, string, string) -> bool)
    returns (report: ProcessReport, result: Dir)
    ensures csvPath == "" || folderPath == "" ==> report == MissingSelection && result == d
    ensures report.Aborted? <==> csvPath != "" && folderPath != "" && RenamePlan(folderPath, listing, rows, captureTime).Err?
    ensures report.Aborted? ==> result == d && report.message == RenamePlan(folderPath, listing, rows, captureTime).message
    ensures report.Finished? ==>
      var plan := RenamePlan(folderPath, listing, rows, captureTime).value;
      && report.completed <= |plan|
      && result == ApplyAll(d, plan[..report.completed])
      && (report.failure.None? <==> report.completed == |plan|)
      && (forall k :: 0 <= k < report.completed ==> !Throws(ApplyAll(d, plan[..k]), plan[k], refused))
      && (report.failure.Some? ==>
            && Throws(result, plan[report.completed], refused)
            && report.failure.value == RenameFailure(plan[report.completed].index,
                 plan[report.completed].source, plan[report.completed].target))
    ensures csvPath != "" && folderPath != "" && RenamePlan(folderPath, listing, rows, captureTime).Ok? ==>
      report.Finished?
  {
    if csvPath == "" || folderPath == "" {
      return MissingSelection, d;
    }
    match RenamePlan(folderPath, listing, rows, captureTime)
    case Err(m) =>
      return Aborted(m), d;
    case Ok(plan) =>
      var completed, failure;
      result, completed, failure := RunRenames(d, plan, refused);
      report := Finished(completed, failure);
  }
}
