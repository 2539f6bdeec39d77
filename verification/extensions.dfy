/**
  The two file-name tests of the core: the preview/summary test
  `/\.(jpg|jpeg|png|arw)$/i` and the narrower rename test `/\.(jpg|jpeg|png)$/i`.
  Without the `u` flag a case-insensitive JavaScript regular expression folds
  only ASCII letters onto ASCII letters, so ASCII lower-casing is exact here.
*/
module Extensions {
  import opened Text
  import opened Paths

  /** Extensions recognised when listing a folder and preparing the preview, raw `arw` included. */
  const PreviewExtensions: seq<string> := ["jpg", "jpeg", "png", "arw"]

  /** Extensions eligible for renaming: raster formats only. */
  const RenameExtensions: seq<string> := ["jpg", "jpeg", "png"]

  /** A non-empty word of lower-case ASCII letters. */
  predicate IsLowerWord(e: string) {
    |e| > 0 && forall i :: 0 <= i < |e| ==> 'a' <= e[i] <= 'z'
  }

  /** `name` ends with '.' and one of `exts`, in any letter case. */
  predicate MatchesExtension(name: string, exts: seq<string>) {
    exists e :: e in exts && EndsWithIgnoreCase(name, "." + e)
  }

  /** The preview test of the main process. */
  predicate IsPreviewImage(name: string) {
    MatchesExtension(name, PreviewExtensions)
  }

  /** The rename test of the renderer. */
  predicate IsRenameImage(name: string) {
    MatchesExtension(name, RenameExtensions)
  }

  /** The rename set is the preview set without the raw format. */
  lemma PreviewIsRenameOrRaw(name: string)
    ensures IsPreviewImage(name) <==> IsRenameImage(name) || EndsWithIgnoreCase(name, ".arw")
    ensures IsRenameImage(name) ==> IsPreviewImage(name)
  {
    if IsPreviewImage(name) {
      var e :| e in PreviewExtensions && EndsWithIgnoreCase(name, "." + e);
      if e != "arw" {
        assert e in RenameExtensions;
      }
    }
    if EndsWithIgnoreCase(name, ".arw") {
      assert "arw" in PreviewExtensions;
    }
    if IsRenameImage(name) {
      var e :| e in RenameExtensions && EndsWithIgnoreCase(name, "." + e);
      assert e in PreviewExtensions;
    }
  }

  /** A case-insensitive suffix fixes each of the last characters up to case. */
  lemma EndsWithIgnoreCaseAt(name: string, suffix: string, i: int)
    requires EndsWithIgnoreCase(name, suffix) && 0 <= i < |suffix|
    ensures LowerChar(name[|name| - |suffix| + i]) == suffix[i]
  {
    assert Lower(name[|name| - |suffix|..])[i] == suffix[i];
  }

  /** Raw files are shown in the preview but never renamed. */
  lemma RawIsNotRenamed(name: string)
    requires EndsWithIgnoreCase(name, ".arw")
    ensures IsPreviewImage(name) && !IsRenameImage(name)
  {
    PreviewIsRenameOrRaw(name);
    EndsWithIgnoreCaseAt(name, ".arw", 0);
    EndsWithIgnoreCaseAt(name, ".arw", 1);
    forall e | e in RenameExtensions
      ensures !EndsWithIgnoreCase(name, "." + e)
    {
      if EndsWithIgnoreCase(name, "." + e) {
        if e == "jpeg" {
          EndsWithIgnoreCaseAt(name, ".jpeg", 1);
        } else {
          EndsWithIgnoreCaseAt(name, "." + e, 1);
        }
      }
    }
  }

  /** Lower-casing maps only '.' to '.', and no letter comes from a '.'. */
  lemma LowerCharDot(c: char)
    ensures LowerChar(c) == '.' <==> c == '.'
    ensures 'a' <= LowerChar(c) <= 'z' ==> c != '.'
  {
  }

  /** A name passing the test has that extension, or is only that extension. */
  lemma MatchedNameHasExtName(name: string, e: string)
    requires IsLowerWord(e) && EndsWithIgnoreCase(name, "." + e)
    ensures Lower(ExtName(name)) == "." + e || Lower(name) == "." + e
  {
    var q := |name| - |e| - 1;
    var tail := Lower(name[q..]);
    assert tail == "." + e;
    assert tail[0] == LowerChar(name[q]);
    LowerCharDot(name[q]);
    forall j | q < j < |name|
      ensures name[j] != '.'
    {
      assert tail[j - q] == LowerChar(name[j]) == e[j - q - 1];
      LowerCharDot(name[j]);
    }
    assert LastIndexOf(name, '.') == q;
    if q == 0 {
      assert name[q..] == name;
    } else {
      assert name != "..";
      assert ExtName(name) == name[q..];
    }
  }

  /** A name with that extension, or that is only that extension, passes the test. */
  lemma ExtNameMatches(name: string, e: string)
    requires Lower(ExtName(name)) == "." + e || Lower(name) == "." + e
    ensures EndsWithIgnoreCase(name, "." + e)
  {
    if Lower(ExtName(name)) == "." + e {
      var x := ExtName(name);
      assert x == name[|name| - |x|..];
    } else {
      assert name[|name| - |name|..] == name;
    }
  }

  /**
    The regular-expression test agrees with `path.extname`: a name passes
    exactly when its lower-cased extension is '.' plus one of `exts`, or when
    the whole name is that '.'-prefixed extension (".jpg" passes the test
    although `path.extname(".jpg")` is "").
  */
  lemma MatchesExtensionIffExtName(name: string, exts: seq<string>)
    requires forall e :: e in exts ==> IsLowerWord(e)
    ensures MatchesExtension(name, exts)
        <==> exists e :: e in exts && (Lower(ExtName(name)) == "." + e || Lower(name) == "." + e)
  {
    if MatchesExtension(name, exts) {
      var e :| e in exts && EndsWithIgnoreCase(name, "." + e);
      MatchedNameHasExtName(name, e);
    }
    if exists e :: e in exts && (Lower(ExtName(name)) == "." + e || Lower(name) == "." + e) {
      var e :| e in exts && (Lower(ExtName(name)) == "." + e || Lower(name) == "." + e);
      ExtNameMatches(name, e);
    }
  }

  /** A name that is only '.' and a lower-case word, up to case, has no `path.extname`. */
  lemma WholeNameHasNoExtName(name: string, e: string)
    requires IsLowerWord(e) && Lower(name) == "." + e
    ensures ExtName(name) == ""
  {
    forall j | 0 < j < |name|
      ensures name[j] != '.'
    {
      assert Lower(name)[j] == LowerChar(name[j]) == e[j - 1];
      LowerCharDot(name[j]);
    }
    ExtNameEmptyIff(name);
  }

  /** Both configured extension lists are lower-case words. */
  lemma ConfiguredExtensionsAreLowerWords()
    ensures forall e :: e in PreviewExtensions ==> IsLowerWord(e)
    ensures forall e :: e in RenameExtensions ==> IsLowerWord(e)
  {
  }
}
