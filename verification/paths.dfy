/**
 * Absolute paths as sequences of name segments, and the parts of java.nio's
 * Unix path behaviour the shell relies on: resolve, getParent, getFileName,
 * toString, normalize and relativize. Resolve does no normalisation of "."
 * or "..", as java.nio's resolve does not; Normalize is what relativize
 * applies when either of its paths holds a dot segment.
 */
module Paths {
  import opened Wrappers

  /** The segments of an absolute path, root first; the root itself is []. */
  type Path = seq<string>

  /** A single segment: non-empty and free of the separator. */
  predicate ValidName(n: string) {
    n != [] && '/' !in n
  }

  predicate ValidPath(p: Path) {
    forall i :: 0 <= i < |p| ==> ValidName(p[i])
  }

  predicate IsAbsolute(s: string) {
    |s| > 0 && s[0] == '/'
  }

  /** p is p itself or one of its ancestors of q (segment-wise, not textual). */
  predicate IsPrefix(p: Path, q: Path) {
    |p| <= |q| && q[..|p|] == p
  }

  /** Length of the longest prefix of s that holds no separator. */
  function NameLen(s: string): (n: nat)
    ensures n <= |s|
    ensures forall i :: 0 <= i < n ==> s[i] != '/'
    ensures n < |s| ==> s[n] == '/'
  {
    if s == [] || s[0] == '/' then 0 else 1 + NameLen(s[1..])
  }

  /**
   * The segments of a path string: cut at every '/', empty pieces dropped, so
   * that repeated and trailing separators vanish as they do in java.nio.
   */
  function Segments(s: string): (r: Path)
    ensures ValidPath(r)
    decreases |s|
  {
    if s == [] then []
    else if s[0] == '/' then Segments(s[1..])
    else
      var n := NameLen(s);
      assert '/' !in s[..n] by {
        forall i | 0 <= i < n ensures s[..n][i] != '/' { }
      }
      [s[..n]] + Segments(s[n..])
  }

  /** Path.resolve(s): an absolute s replaces the base, anything else is appended. */
  function Resolve(base: Path, s: string): (r: Path)
    ensures ValidPath(base) ==> ValidPath(r)
    ensures !IsAbsolute(s) ==> IsPrefix(base, r)
  {
    if IsAbsolute(s) then Segments(s) else base + Segments(s)
  }

  /** The segments written out with single separators (Path.toString of a relative path). */
  function Join(p: Path): string
  {
    if |p| == 0 then ""
    else if |p| == 1 then p[0]
    else p[0] + "/" + Join(p[1..])
  }

  /** Path.toString of an absolute path. */
  function PathString(p: Path): string
  {
    "/" + Join(p)
  }

  /** Path.getParent: null exactly at the root. */
  function Parent(p: Path): (r: Option<Path>)
    ensures r.None? <==> p == []
    ensures r.Some? ==> IsPrefix(r.value, p) && |r.value| + 1 == |p|
  {
    if p == [] then None else Some(p[..|p| - 1])
  }

  /** Path.getFileName: the last segment, null at the root. */
  function FileName(p: Path): (r: Option<string>)
    ensures r.None? <==> p == []
  {
    if p == [] then None else Some(p[|p| - 1])
  }

  /** Number of leading segments a and b have in common. */
  function CommonPrefixLen(a: Path, b: Path): (n: nat)
    ensures n <= |a| && n <= |b|
    ensures a[..n] == b[..n]
    ensures n < |a| && n < |b| ==> a[n] != b[n]
  {
    if a == [] || b == [] || a[0] != b[0] then 0
    else
      var m := CommonPrefixLen(a[1..], b[1..]);
      assert a[..m + 1] == [a[0]] + a[1..][..m];
      assert b[..m + 1] == [b[0]] + b[1..][..m];
      1 + m
  }

  function Ups(k: nat): (r: Path)
    ensures |r| == k
  {
    if k == 0 then [] else [".."] + Ups(k - 1)
  }

  /**
   * The segment arithmetic of Path.relativize, on paths already normalised
   * when either held a dot segment: one ".." per base segment below the
   * common prefix, then the rest of full.
   */
  function Relativize(base: Path, full: Path): Path
  {
    var n := CommonPrefixLen(base, full);
    Ups(|base| - n) + full[n..]
  }

  /** The segments "." and "..", which Path.normalize removes or resolves. */
  predicate IsDot(n: string) {
    n == "." || n == ".."
  }

  predicate NoDots(p: Path) {
    forall i :: 0 <= i < |p| ==> !IsDot(p[i])
  }

  /**
   * Path.normalize, segment by segment onto the already normalised done: "."
   * goes, ".." takes away the name before it; a ".." with no name before it
   * is dropped at the root of an absolute path and kept at the start of a
   * relative one.
   */
  function NormalizeFrom(done: Path, rest: Path, absolute: bool): (r: Path)
    requires forall i :: 0 <= i < |done| ==> done[i] != "." && (absolute ==> done[i] != "..")
    ensures forall i :: 0 <= i < |r| ==> r[i] != "." && (absolute ==> r[i] != "..")
    ensures NoDots(rest) ==> r == done + rest
    decreases |rest|
  {
    if rest == [] then done
    else if rest[0] == "." then NormalizeFrom(done, rest[1..], absolute)
    else if rest[0] == ".." then
      if done != [] && done[|done| - 1] != ".." then NormalizeFrom(done[..|done| - 1], rest[1..], absolute)
      else if absolute then NormalizeFrom(done, rest[1..], absolute)
      else NormalizeFrom(done + [".."], rest[1..], absolute)
    else
      assert NoDots(rest) ==> NoDots(rest[1..]) by {
        forall i | 0 <= i < |rest[1..]| ensures rest[1..][i] == rest[i + 1] { }
      }
      assert done + rest == (done + [rest[0]]) + rest[1..];
      NormalizeFrom(done + [rest[0]], rest[1..], absolute)
  }

  /**
   * Path.normalize: no "." is left, no ".." either in an absolute path, and
   * a path without dot segments is its own normal form.
   */
  function Normalize(p: Path, absolute: bool): (r: Path)
    ensures forall i :: 0 <= i < |r| ==> r[i] != "."
    ensures absolute ==> NoDots(r)
    ensures NoDots(p) ==> r == p
  {
    NormalizeFrom([], p, absolute)
  }

  lemma NameLenOfJoin(p: Path)
    requires |p| > 0 && ValidPath(p)
    ensures NameLen(Join(p)) == |p[0]|
  {
    var s := Join(p);
    if |p| == 1 {
      assert s == p[0];
    } else {
      assert s == p[0] + "/" + Join(p[1..]);
      assert s[|p[0]|] == '/';
    }
  }

  /** Printing a path and reading it back gives the same segments. */
  lemma {:induction false} SegmentsOfJoin(p: Path)
    requires ValidPath(p)
    ensures Segments(Join(p)) == p
  {
    if |p| == 0 {
    } else {
      var s := Join(p);
      assert s[0] == p[0][0];
      NameLenOfJoin(p);
      assert s[..|p[0]|] == p[0];
      if |p| == 1 {
        assert s[|p[0]|..] == [];
      } else {
        assert s[|p[0]|..] == "/" + Join(p[1..]);
        assert Segments(s[|p[0]|..]) == Segments(Join(p[1..]));
        SegmentsOfJoin(p[1..]);
      }
    }
  }

  /** Path.toString is read back by Paths.get to the same path. */
  lemma SegmentsOfPathString(p: Path)
    requires ValidPath(p)
    ensures Segments(PathString(p)) == p
  {
    assert PathString(p)[1..] == Join(p);
    SegmentsOfJoin(p);
  }

  /** Distinct paths print differently, so path strings can serve as keys. */
  lemma PathStringInjective(p: Path, q: Path)
    requires ValidPath(p) && ValidPath(q)
    requires PathString(p) == PathString(q)
    ensures p == q
  {
    SegmentsOfPathString(p);
    SegmentsOfPathString(q);
  }

  /** Resolving a single entry name appends exactly that name. */
  lemma ResolveName(base: Path, n: string)
    requires ValidName(n)
    ensures Resolve(base, n) == base + [n]
  {
    SegmentsOfJoin([n]);
  }

  /** Resolving an absolute path string replaces the base outright. */
  lemma ResolveAbsolute(base: Path, p: Path)
    requires ValidPath(p)
    ensures Resolve(base, PathString(p)) == p
  {
    SegmentsOfPathString(p);
  }

  /** Descending into an entry and then asking for the parent gives the base back. */
  lemma ParentOfResolvedName(base: Path, n: string)
    requires ValidName(n)
    ensures Parent(Resolve(base, n)) == Some(base)
    ensures FileName(Resolve(base, n)) == Some(n)
  {
    ResolveName(base, n);
  }

  /** Relativizing against an ancestor leaves the segments below it. */
  lemma {:induction false} RelativizeFromAncestor(base: Path, full: Path)
    requires IsPrefix(base, full)
    ensures CommonPrefixLen(base, full) == |base|
    ensures Relativize(base, full) == full[|base|..]
  {
    var n := CommonPrefixLen(base, full);
    assert n == |base|;
  }
}
