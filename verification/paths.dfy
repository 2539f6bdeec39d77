/**
  The parts of Node's POSIX `path` module the core uses: `join` of a folder and
  a directory entry, the last path component, and `extname`.
*/
module Paths {
  import opened Text

  const Separator: char := '/'

  /** `path.join(folder, name)` for a directory entry `name` (no normalisation of `folder`). */
  function Join(folder: string, name: string): string {
    folder + [Separator] + name
  }

  /** Joining onto the same folder keeps different entries apart. */
  lemma JoinInjective(folder: string, a: string, b: string)
    requires Join(folder, a) == Join(folder, b)
    ensures a == b
  {
    assert a == Join(folder, a)[|folder| + 1..];
    assert b == Join(folder, b)[|folder| + 1..];
  }

  /** The last component of a path: everything after its last separator. */
  function BaseName(p: string): (r: string)
    ensures Separator !in r
    ensures |r| <= |p| && r == p[|p| - |r|..]
  {
    p[LastIndexOf(p, Separator) + 1..]
  }

  /** Joining a directory entry onto a folder keeps the entry as the last component. */
  lemma BaseNameOfJoin(folder: string, name: string)
    requires Separator !in name
    ensures BaseName(Join(folder, name)) == name
  {
    var p := Join(folder, name);
    var d := LastIndexOf(p, Separator);
    assert p[|folder|] == Separator;
    assert d == |folder| by {
      forall j | |folder| < j < |p|
        ensures p[j] != Separator
      {
        assert p[j] == name[j - |folder| - 1];
      }
    }
    assert p[|folder| + 1..] == name;
  }

  /**
    `path.extname` of a name without separators: from the last '.' to the end,
    or "" when there is no '.', when the only candidate '.' is the first
    character (".jpg", ".profile") or when the name is "..".
  */
  function ExtName(name: string): (r: string)
    ensures r != "" ==> r[0] == '.' && '.' !in r[1..]
    ensures r != "" ==> |r| < |name| && r == name[|name| - |r|..]
  {
    var d := LastIndexOf(name, '.');
    if d <= 0 || name == ".." then "" else name[d..]
  }

  /** A name has no extension exactly when no '.' follows its first character, or it is "..". */
  lemma ExtNameEmptyIff(name: string)
    ensures ExtName(name) == "" <==> (forall j :: 0 < j < |name| ==> name[j] != '.') || name == ".."
  {
    var d := LastIndexOf(name, '.');
    if d > 0 && name != ".." {
      assert ExtName(name)[0] == '.';
    }
  }

  /** A separator-free extension: a '.' followed by characters other than '.'. */
  predicate IsExtension(ext: string) {
    |ext| > 0 && ext[0] == '.' && forall i :: 1 <= i < |ext| ==> ext[i] != '.'
  }

  /** Splitting a non-empty stem followed by an extension gives the extension back. */
  lemma ExtNameOfStemAndExt(stem: string, ext: string)
    requires stem != "" && IsExtension(ext)
    requires stem + ext != ".."
    ensures ExtName(stem + ext) == ext
  {
    var name := stem + ext;
    var d := LastIndexOf(name, '.');
    assert name[|stem|] == '.';
    assert d == |stem| by {
      forall j | |stem| < j < |name|
        ensures name[j] != '.'
      {
        assert name[j] == ext[j - |stem|];
      }
    }
    assert name[|stem|..] == ext;
  }
}
