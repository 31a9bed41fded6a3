/**
 * The pure parts of FileManager: resolving a reference number (NER) against
 * a listing of the current directory, the text-file and image-file tests,
 * and getRelativePath. The stateful parts live in Shell.Session.
 */
module FileManager {
  import opened Wrappers
  import opened Paths

  /**
   * getPathByNER: the n-th entry (1-based) of the listing, resolved against
   * the current directory, or null. A listing that failed with an
   * IOException is the empty listing, so then every reference is invalid.
   */
  function PathByNER(cwd: Path, listing: seq<string>, ner: int): (r: Option<Path>)
    ensures r.Some? <==> 1 <= ner <= |listing|
  {
    if 1 <= ner <= |listing| then Some(Resolve(cwd, listing[ner - 1])) else None
  }

  /**
   * A valid reference names an entry of the listing: the path is that entry
   * inside the current directory.
   */
  lemma PathByNEREntry(cwd: Path, listing: seq<string>, ner: int)
    requires 1 <= ner <= |listing| && ValidName(listing[ner - 1])
    ensures PathByNER(cwd, listing, ner) == Some(cwd + [listing[ner - 1]])
    ensures Parent(PathByNER(cwd, listing, ner).value) == Some(cwd)
    ensures FileName(PathByNER(cwd, listing, ner).value) == Some(listing[ner - 1])
  {
    ResolveName(cwd, listing[ner - 1]);
    ParentOfResolvedName(cwd, listing[ner - 1]);
  }

  /** Character.isISOControl. */
  predicate IsIsoControl(cp: int) {
    0 <= cp <= 0x1F || 0x7F <= cp <= 0x9F
  }

  /**
   * Character.isWhitespace: the Unicode space, line and paragraph separators
   * other than the no-break spaces, and the controls 0x09-0x0D and 0x1C-0x1F.
   */
  predicate IsWhitespace(cp: int) {
    || 0x09 <= cp <= 0x0D || 0x1C <= cp <= 0x1F || cp == 0x20 || cp == 0x1680
    || 0x2000 <= cp <= 0x2006 || 0x2008 <= cp <= 0x200A
    || cp == 0x2028 || cp == 0x2029 || cp == 0x205F || cp == 0x3000
  }

  /** A code point that makes a file binary. */
  predicate IsBinaryCodePoint(cp: int) {
    IsIsoControl(cp) && !IsWhitespace(cp)
  }

  /** The code points that make a file binary, as plain ranges. */
  lemma BinaryCodePointRanges(cp: int)
    ensures IsBinaryCodePoint(cp) <==> 0x00 <= cp <= 0x08 || 0x0E <= cp <= 0x1B || 0x7F <= cp <= 0x9F
  {
  }

  /**
   * A text file: it could be read and decoded, and holds no binary code
   * point. read is Files.readString's outcome, the decoded code points, or
   * None for the IOException (a directory, an unreadable entry, malformed
   * UTF-8).
   */
  ghost predicate IsText(read: Option<seq<int>>) {
    read.Some? && forall i :: 0 <= i < |read.value| ==> !IsBinaryCodePoint(read.value[i])
  }

  /** isTextFile: scans the code points and stops at the first binary one. */
  method IsTextFile(read: Option<seq<int>>) returns (b: bool)
    ensures b <==> IsText(read)
  {
    if read.None? {
      return false;
    }
    var cps := read.value;
    var i := 0;
    while i < |cps|
      invariant 0 <= i <= |cps|
      invariant forall j :: 0 <= j < i ==> !IsBinaryCodePoint(cps[j])
    {
      if IsIsoControl(cps[i]) && !IsWhitespace(cps[i]) {
        return false;
      }
      i := i + 1;
    }
    return true;
  }

  /** An empty file is a text file; a directory or unreadable entry is not. */
  lemma TextEdgeCases()
    ensures IsText(Some([]))
    ensures !IsText(None)
    ensures IsText(Some([0x48, 0x09, 0x0A, 0xE9]))
    ensures !IsText(Some([0x48, 0x00]))
  {
    assert !IsText(Some([0x48, 0x00])) by {
      assert IsBinaryCodePoint([0x48, 0x00][1]);
    }
  }

  /** String.toLowerCase, restricted to the ASCII letters. */
  function ToLowerAscii(s: string): (r: string)
    ensures |r| == |s|
    ensures forall i :: 0 <= i < |s| ==> r[i] == LowerChar(s[i])
  {
    if s == [] then [] else [LowerChar(s[0])] + ToLowerAscii(s[1..])
  }

  function LowerChar(c: char): char {
    if 'A' <= c <= 'Z' then (c as int + 32) as char else c
  }

  predicate EndsWith(s: string, suffix: string) {
    |suffix| <= |s| && s[|s| - |suffix|..] == suffix
  }

  const ImageExtensions: seq<string> := [".jpg", ".jpeg", ".png", ".gif", ".bmp"]

  /** Whether s ends with one of the suffixes. */
  function EndsWithAny(s: string, suffixes: seq<string>): (b: bool)
    ensures b <==> exists i :: 0 <= i < |suffixes| && EndsWith(s, suffixes[i])
  {
    if suffixes == [] then false
    else EndsWith(s, suffixes[0]) || EndsWithAny(s, suffixes[1..])
  }

  /** isImageFile (both copies): the lower-cased name ends with an image extension. */
  predicate IsImageName(name: string) {
    EndsWithAny(ToLowerAscii(name), ImageExtensions)
  }

  /** Lower-casing twice is lower-casing once. */
  lemma LowerIdempotent(s: string)
    ensures ToLowerAscii(ToLowerAscii(s)) == ToLowerAscii(s)
  {
  }

  /** The image test ignores letter case. */
  lemma ImageNameCaseInsensitive(name: string)
    ensures IsImageName(name) == IsImageName(ToLowerAscii(name))
  {
    LowerIdempotent(name);
  }

  /**
   * A name the image test accepts is at least an extension long, with a dot
   * where the extension starts.
   */
  lemma ImageNameHasExtension(name: string)
    requires IsImageName(name)
    ensures |name| >= 4
    ensures exists k :: 0 <= k < |name| && name[k] == '.'
  {
    var lower := ToLowerAscii(name);
    var i :| 0 <= i < |ImageExtensions| && EndsWith(lower, ImageExtensions[i]);
    var e := ImageExtensions[i];
    assert |e| >= 4 && e[0] == '.';
    var k := |name| - |e|;
    assert lower[k] == '.' by {
      assert lower[k..][0] == e[0];
    }
    assert name[k] == '.';
  }

  /** An upper-case extension is recognised; a name that is only the extension letters is not. */
  lemma ImageNameExamples()
    ensures IsImageName("A.PNG")
    ensures !IsImageName("a.txt")
  {
    assert ToLowerAscii("A.PNG") == "a.png";
    assert EndsWith("a.png", ImageExtensions[2]);
    assert ToLowerAscii("a.txt") == "a.txt";
  }

  /**
   * The IllegalArgumentExceptions of Path.relativize: one path absolute and
   * the other not, or a ".." left in the part of the normalised base below
   * the common prefix (it cannot be climbed back down).
   */
  datatype RelativeError = MixedPathKinds | UnresolvableBase

  datatype RelativeResult = Relative(text: string) | Refused(error: RelativeError)

  /**
   * getRelativePath: Paths.get both, relativize, toString. Equal paths give
   * the empty path and an empty base gives the full path as it is; otherwise
   * both paths are normalised first when either holds a dot segment.
   */
  function GetRelativePath(fullPath: string, basePath: string): (r: RelativeResult)
    ensures r == Refused(MixedPathKinds) <==> IsAbsolute(fullPath) != IsAbsolute(basePath)
    ensures r == Refused(UnresolvableBase) ==> !IsAbsolute(basePath) && !NoDots(Segments(basePath))
  {
    var full := Segments(fullPath);
    var base := Segments(basePath);
    var absolute := IsAbsolute(basePath);
    if IsAbsolute(fullPath) != absolute then Refused(MixedPathKinds)
    else if full == base then Relative("")
    else if !absolute && base == [] then Relative(Join(full))
    else
      var normal := !NoDots(base) || !NoDots(full);
      var b := if normal then Normalize(base, absolute) else base;
      var c := if normal then Normalize(full, absolute) else full;
      var n := CommonPrefixLen(b, c);
      if !NoDots(b[n..]) then
        DotInSuffix(b, n);
        Refused(UnresolvableBase)
      else Relative(Join(Relativize(b, c)))
  }

  /** A suffix of a path without dot segments has none either. */
  lemma SuffixNoDots(b: Path, n: nat)
    requires n <= |b| && NoDots(b)
    ensures NoDots(b[n..])
  {
    forall i | 0 <= i < |b[n..]| ensures !IsDot(b[n..][i]) {
      assert b[n..][i] == b[n + i];
    }
  }

  /** A dot segment in a suffix is a dot segment of the whole path. */
  lemma DotInSuffix(b: Path, n: nat)
    requires n <= |b| && !NoDots(b[n..])
    ensures !NoDots(b)
  {
    var i :| 0 <= i < |b[n..]| && IsDot(b[n..][i]);
    assert b[n + i] == b[n..][i];
  }

  /**
   * For paths without dot segments and a base that is an ancestor of the
   * full path, the result is the remaining segments, and resolving it
   * against the base gives the full path back.
   */
  lemma RelativePathOfDescendant(full: Path, base: Path)
    requires ValidPath(full) && ValidPath(base) && NoDots(full) && NoDots(base) && IsPrefix(base, full)
    ensures GetRelativePath(PathString(full), PathString(base)) == Relative(Join(full[|base|..]))
    ensures Resolve(base, Join(full[|base|..])) == full
  {
    RelativePathNormalised(full, base);
    var rest := full[|base|..];
    assert ValidPath(rest) by {
      forall i | 0 <= i < |rest| ensures ValidName(rest[i]) {
        assert rest[i] == full[|base| + i];
      }
    }
    SegmentsOfJoin(rest);
    if |rest| > 0 {
      assert Join(rest)[0] == rest[0][0];
    }
  }

  /**
   * Between absolute paths the result is never refused, and when the
   * normalised base is an ancestor of the normalised full path it is the
   * rest of the normalised full path.
   */
  lemma RelativePathNormalised(full: Path, base: Path)
    requires ValidPath(full) && ValidPath(base)
    ensures GetRelativePath(PathString(full), PathString(base)).Relative?
    ensures var nb := Normalize(base, true);
            var nf := Normalize(full, true);
            IsPrefix(nb, nf) ==> GetRelativePath(PathString(full), PathString(base)) == Relative(Join(nf[|nb|..]))
  {
    SegmentsOfPathString(full);
    SegmentsOfPathString(base);
    var nb := Normalize(base, true);
    var nf := Normalize(full, true);
    if full != base {
      var normal := !NoDots(base) || !NoDots(full);
      var b := if normal then nb else base;
      var c := if normal then nf else full;
      assert b == nb && c == nf;
      var n := CommonPrefixLen(b, c);
      SuffixNoDots(b, n);
      if IsPrefix(nb, nf) {
        RelativizeFromAncestor(nb, nf);
      }
    }
  }

  /** A "." in the full path is normalised away. */
  lemma RelativePathDotExample()
    ensures GetRelativePath("/a/./b", "/a") == Relative("b")
  {
    var full, base := ["a", ".", "b"], ["a"];
    DotExampleNormalised();
    DotExampleStrings();
    RelativePathNormalised(full, base);
    assert ["a", "b"][1..] == ["b"];
  }

  /** The dot example's paths after normalisation. */
  lemma DotExampleNormalised()
    ensures Normalize(["a", ".", "b"], true) == ["a", "b"]
    ensures Normalize(["a"], true) == ["a"]
  {
    assert ["a", ".", "b"][1] == ".";
  }

  /** The dot example's paths as strings. */
  lemma DotExampleStrings()
    ensures PathString(["a", ".", "b"]) == "/a/./b"
    ensures PathString(["a"]) == "/a"
    ensures Join(["b"]) == "b"
  {
  }

  /**
   * Between absolute paths without dot segments the result is the plain
   * segment arithmetic: a ".." for each base segment below the common
   * prefix, then the rest of the full path.
   */
  lemma RelativePathPlain(full: Path, base: Path)
    requires ValidPath(full) && ValidPath(base) && NoDots(full) && NoDots(base)
    ensures GetRelativePath(PathString(full), PathString(base)) == Relative(Join(Relativize(base, full)))
  {
    SegmentsOfPathString(full);
    SegmentsOfPathString(base);
    var n := CommonPrefixLen(base, full);
    SuffixNoDots(base, n);
    if full == base {
      assert Relativize(base, full) == [];
    }
  }

  /** A sibling is reached through "..". */
  lemma RelativePathSiblingExample()
    ensures GetRelativePath("/a/b", "/a/c") == Relative("../b")
  {
    RelativePathPlain(["a", "b"], ["a", "c"]);
    SiblingExampleStrings();
    SiblingExampleRelativized();
  }

  /** The sibling example's paths as strings. */
  lemma SiblingExampleStrings()
    ensures PathString(["a", "b"]) == "/a/b"
    ensures PathString(["a", "c"]) == "/a/c"
    ensures Join(["..", "b"]) == "../b"
  {
  }

  /** The segment arithmetic of the sibling example. */
  lemma SiblingExampleRelativized()
    ensures Relativize(["a", "c"], ["a", "b"]) == ["..", "b"]
  {
    assert CommonPrefixLen(["a", "c"], ["a", "b"]) == 1;
  }

  /** A ".." that stays in the base below the common prefix is refused. */
  lemma RelativePathRefusedExample()
    ensures GetRelativePath("b", "../a") == Refused(UnresolvableBase)
  {
    RefusedExampleSegments();
    var full, base := ["b"], ["..", "a"];
    assert !NoDots(base) by {
      assert IsDot(base[0]);
    }
    assert Normalize(base, false) == base by {
      LeadingParentKept();
    }
    assert Normalize(full, false) == full;
    assert CommonPrefixLen(base, full) == 0;
    assert base[0..] == base;
  }

  /** The segments of the two relative paths of the refused example. */
  lemma RefusedExampleSegments()
    ensures Segments("b") == ["b"]
    ensures Segments("../a") == ["..", "a"]
  {
    assert Join(["b"]) == "b";
    SegmentsOfJoin(["b"]);
    assert Join(["..", "a"]) == "../a";
    SegmentsOfJoin(["..", "a"]);
  }

  /** A relative path keeps a leading "..", which has nothing to pop. */
  lemma LeadingParentKept()
    ensures Normalize(["..", "a"], false) == ["..", "a"]
  {
  }
}
