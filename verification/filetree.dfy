/**
 * The abstract disk the shell works on: a finite map from absolute paths to
 * nodes, closed under parents, together with a set of faulty paths on which
 * every I/O call throws an IOException. The recursive delete and the copy of
 * a file or a directory subtree are specified here.
 */
module FileTree {
  import opened Wrappers
  import opened Paths

  /** File contents are opaque data; text decoding is not modelled here. */
  datatype Node = File(data: seq<int>) | Dir

  type Tree = map<Path, Node>

  predicate IsDir(fs: Tree, p: Path) {
    p in fs && fs[p].Dir?
  }

  predicate IsFile(fs: Tree, p: Path) {
    p in fs && fs[p].File?
  }

  /** q is the root or sits in an existing directory. */
  predicate InDir(fs: Tree, q: Path) {
    q != [] ==> IsDir(fs, q[..|q| - 1])
  }

  /**
   * Every entry other than the root sits in an existing directory. (The
   * trigger keeps the solver from climbing from each entry to its parent
   * on its own.)
   */
  ghost predicate Valid(fs: Tree) {
    forall q {:trigger InDir(fs, q)} :: q in fs ==> InDir(fs, q)
  }

  /** p and everything below it. */
  ghost function Subtree(fs: Tree, p: Path): set<Path> {
    set q | q in fs && IsPrefix(p, q)
  }

  /** The entries directly inside p (what a directory stream on p yields). */
  function Children(fs: Tree, p: Path): set<Path> {
    set q | q in fs && |q| == |p| + 1 && q[..|p|] == p
  }

  /** Files.delete on a directory fails with DirectoryNotEmptyException exactly when this holds. */
  predicate HasChildren(fs: Tree, p: Path) {
    exists q :: q in fs && |q| == |p| + 1 && q[..|p|] == p
  }

  /** No path at or below q is faulty. */
  predicate Clean(fs: Tree, faults: set<Path>, q: Path) {
    forall d :: d in fs && IsPrefix(q, d) ==> d !in faults
  }

  /** The recursion started at p reaches q: no path from p down to q's parent is faulty. */
  ghost predicate Reached(faults: set<Path>, p: Path, q: Path)
    requires IsPrefix(p, q)
  {
    forall k :: |p| <= k < |q| ==> q[..k] !in faults
  }

  /**
   * The entries a recursive delete started at p removes: those it reaches
   * whose own subtree holds no fault (a faulty entry survives, and so does
   * every directory above it, which then is not empty).
   */
  ghost function Doomed(fs: Tree, faults: set<Path>, p: Path): set<Path> {
    set q | q in fs && IsPrefix(p, q) && Reached(faults, p, q) && Clean(fs, faults, q)
  }

  /** The part of Doomed(fs, faults, p) that lies below the children in done. */
  ghost function DoomedBelow(fs: Tree, faults: set<Path>, p: Path, done: set<Path>): set<Path> {
    set q | q in fs && |q| > |p| && IsPrefix(p, q) && q[..|p| + 1] in done
                    && q in Doomed(fs, faults, q[..|p| + 1])
  }

  lemma PrefixTrans(a: Path, b: Path, c: Path)
    requires IsPrefix(a, b) && IsPrefix(b, c)
    ensures IsPrefix(a, c)
  {
    assert c[..|a|] == c[..|b|][..|a|];
  }

  /** Every proper ancestor of an entry is an existing directory. */
  lemma {:induction false} AncestorIsDir(fs: Tree, q: Path, a: Path)
    requires Valid(fs) && q in fs
    requires IsPrefix(a, q) && a != q
    ensures IsDir(fs, a)
  {
    var up := q[..|q| - 1];
    assert InDir(fs, q);
    assert IsPrefix(a, up) by {
      assert up[..|a|] == q[..|a|];
    }
    if a != up {
      AncestorIsDir(fs, up, a);
    }
  }

  lemma CardLess<T>(a: set<T>, b: set<T>)
    requires a < b
    ensures |a| < |b|
  {
    var extra := b - a;
    assert b == a + extra;
    assert |extra| > 0;
  }

  /** Deleting what Doomed names removes nothing outside p's subtree. */
  lemma DoomedWithinSubtree(fs: Tree, faults: set<Path>, p: Path)
    ensures Doomed(fs, faults, p) <= Subtree(fs, p)
  {
  }

  /** Without faults below p the whole subtree goes, p included. */
  lemma DoomedWithoutFaults(fs: Tree, faults: set<Path>, p: Path)
    requires Valid(fs)
    requires Clean(fs, faults, p)
    ensures Doomed(fs, faults, p) == Subtree(fs, p)
  {
    forall q | q in Subtree(fs, p) ensures q in Doomed(fs, faults, p) {
      forall k | |p| <= k < |q| ensures q[..k] !in faults {
        AncestorIsDir(fs, q, q[..k]);
        PrefixTrans(p, q[..k], q);
      }
      forall d | d in fs && IsPrefix(q, d) ensures d !in faults {
        PrefixTrans(p, q, d);
      }
    }
  }

  /** Below an entry a recursive delete removes, it removes everything. */
  lemma DoomedClosedDown(fs: Tree, faults: set<Path>, p: Path, q: Path)
    requires q in fs && q != [] && q[..|q| - 1] in Doomed(fs, faults, p)
    ensures q in Doomed(fs, faults, p)
  {
    var par := q[..|q| - 1];
    PrefixTrans(p, par, q);
    assert IsPrefix(par, par) && par !in faults;
    forall k | |p| <= k < |q| ensures q[..k] !in faults {
      if k < |par| {
        assert q[..k] == par[..k];
      } else {
        assert q[..k] == par;
      }
    }
    forall d | d in fs && IsPrefix(q, d) ensures d !in faults {
      PrefixTrans(par, q, d);
    }
  }

  /** What a recursive delete leaves is still closed under parents. */
  lemma DoomedKeepsValid(fs: Tree, faults: set<Path>, p: Path)
    requires Valid(fs)
    ensures Valid(fs - Doomed(fs, faults, p))
  {
    var gone := Doomed(fs, faults, p);
    forall q | q in fs && q != [] && q[..|q| - 1] in gone ensures q in gone {
      DoomedClosedDown(fs, faults, p, q);
    }
    forall q | q in fs - gone ensures InDir(fs - gone, q) {
      assert InDir(fs, q);
    }
  }

  /** A faulty start, or a start that does not exist, deletes nothing. */
  lemma DoomedEmpty(fs: Tree, faults: set<Path>, p: Path)
    requires Valid(fs)
    requires p in faults || p !in fs
    ensures Doomed(fs, faults, p) == {}
  {
    forall q | q in Doomed(fs, faults, p) ensures false {
      if q != p {
        assert q[..|p|] == p;
        if p !in fs {
          AncestorIsDir(fs, q, p);
        }
      }
    }
  }

  /** A sound file deletes just itself. */
  lemma DoomedFile(fs: Tree, faults: set<Path>, p: Path)
    requires Valid(fs)
    requires IsFile(fs, p) && p !in faults
    ensures Doomed(fs, faults, p) == {p}
    ensures !HasChildren(fs, p)
  {
    forall q | q in fs && IsPrefix(p, q) ensures q == p {
      if q != p {
        AncestorIsDir(fs, q, p);
      }
    }
    assert Clean(fs, faults, p);
  }

  /** Doomed below a child only depends on the entries under that child. */
  lemma DoomedLocal(fs1: Tree, fs2: Tree, faults: set<Path>, c: Path)
    requires Subtree(fs1, c) == Subtree(fs2, c)
    requires forall q :: q in Subtree(fs1, c) ==> fs1[q] == fs2[q]
    ensures Doomed(fs1, faults, c) == Doomed(fs2, faults, c)
  {
    forall q | q in fs1 && IsPrefix(c, q)
      ensures Clean(fs1, faults, q) == Clean(fs2, faults, q)
    {
      forall d | IsPrefix(q, d) ensures d in fs1 <==> d in fs2 {
        PrefixTrans(c, q, d);
        assert d in fs1 <==> d in Subtree(fs1, c);
        assert d in fs2 <==> d in Subtree(fs2, c);
      }
    }
    assert forall q :: q in fs1 && IsPrefix(c, q) <==> q in fs2 && IsPrefix(c, q) by {
      forall q ensures q in fs1 && IsPrefix(c, q) <==> q in fs2 && IsPrefix(c, q) {
        assert q in fs1 && IsPrefix(c, q) <==> q in Subtree(fs1, c);
        assert q in fs2 && IsPrefix(c, q) <==> q in Subtree(fs2, c);
      }
    }
  }

  /** Below a sound directory, the delete reaches an entry exactly when the delete of its child does. */
  lemma DoomedViaChild(fs: Tree, faults: set<Path>, p: Path, q: Path)
    requires Valid(fs)
    requires p !in faults
    requires q in fs && |q| > |p| && IsPrefix(p, q)
    ensures q[..|p| + 1] in Children(fs, p)
    ensures q in Doomed(fs, faults, p) <==> q in Doomed(fs, faults, q[..|p| + 1])
  {
    var c := q[..|p| + 1];
    assert c[..|p|] == p;
    if c != q {
      AncestorIsDir(fs, q, c);
    }
    assert IsPrefix(c, q);
    assert q[..|p|] == p;
    assert Reached(faults, p, q) <==> Reached(faults, c, q);
  }

  lemma CleanBelow(fs: Tree, faults: set<Path>, p: Path, c: Path)
    requires Clean(fs, faults, p) && IsPrefix(p, c)
    ensures Clean(fs, faults, c)
  {
    forall d | d in fs && IsPrefix(c, d) ensures d !in faults {
      PrefixTrans(p, c, d);
    }
  }

  lemma CleanFromChildren(fs: Tree, faults: set<Path>, p: Path)
    requires Valid(fs)
    requires p in fs && p !in faults
    requires forall c :: c in Children(fs, p) ==> Clean(fs, faults, c)
    ensures Clean(fs, faults, p)
  {
    forall d | d in fs && IsPrefix(p, d) ensures d !in faults {
      if d != p {
        var c := d[..|p| + 1];
        assert c[..|p|] == p;
        assert IsPrefix(c, d);
        if c != d {
          AncestorIsDir(fs, d, c);
        }
        assert c in Children(fs, p);
      }
    }
  }

  /** A sound directory is clean exactly when each of its children is deleted entirely. */
  lemma CleanIffChildrenDoomed(fs: Tree, faults: set<Path>, p: Path)
    requires Valid(fs)
    requires IsDir(fs, p) && p !in faults
    ensures Clean(fs, faults, p) <==>
              forall c :: c in Children(fs, p) ==> c in Doomed(fs, faults, c)
  {
    var kids := Children(fs, p);
    forall c | c in kids ensures c in Doomed(fs, faults, c) <==> Clean(fs, faults, c) {
      assert IsPrefix(c, c) && Reached(faults, c, c);
    }
    if Clean(fs, faults, p) {
      forall c | c in kids ensures Clean(fs, faults, c) {
        CleanBelow(fs, faults, p, c);
      }
    }
    if forall c :: c in kids ==> Clean(fs, faults, c) {
      CleanFromChildren(fs, faults, p);
    }
  }

  /**
   * The delete of a sound directory is the deletes of its children, plus the
   * directory itself exactly when every child went.
   */
  lemma DoomedDir(fs: Tree, faults: set<Path>, p: Path)
    requires Valid(fs)
    requires IsDir(fs, p) && p !in faults
    ensures Clean(fs, faults, p) <==>
              forall c :: c in Children(fs, p) ==> c in Doomed(fs, faults, c)
    ensures Doomed(fs, faults, p) ==
              DoomedBelow(fs, faults, p, Children(fs, p))
              + (if Clean(fs, faults, p) then {p} else {})
  {
    CleanIffChildrenDoomed(fs, faults, p);
    var kids := Children(fs, p);
    var rhs := DoomedBelow(fs, faults, p, kids) + (if Clean(fs, faults, p) then {p} else {});
    forall q ensures q in Doomed(fs, faults, p) <==> q in rhs {
      if q in fs && IsPrefix(p, q) && |q| > |p| {
        DoomedViaChild(fs, faults, p, q);
        assert q in rhs <==> q in DoomedBelow(fs, faults, p, kids);
      } else if q == p {
        assert q !in DoomedBelow(fs, faults, p, kids);
      } else {
        assert q !in Doomed(fs, faults, p);
        assert q !in DoomedBelow(fs, faults, p, kids);
      }
    }
  }

  /** One more child handled: the part of the delete already done grows by that child's delete. */
  lemma DoomedBelowStep(fs: Tree, faults: set<Path>, p: Path, done: set<Path>, c: Path)
    requires c in Children(fs, p)
    ensures DoomedBelow(fs, faults, p, done + {c}) ==
              DoomedBelow(fs, faults, p, done) + Doomed(fs, faults, c)
  {
    forall q | q in Doomed(fs, faults, c)
      ensures q in DoomedBelow(fs, faults, p, done + {c})
    {
      assert q[..|p| + 1] == q[..|c|] == c;
      assert IsPrefix(p, q) by { PrefixTrans(p, c, q); }
    }
  }

  /** A child's subtree is a strictly smaller part of its parent's. */
  lemma SubtreeOfChild(fs: Tree, p: Path, c: Path)
    requires c in Children(fs, p) && p in fs
    ensures Subtree(fs, c) < Subtree(fs, p)
  {
    forall q | q in Subtree(fs, c) ensures q in Subtree(fs, p) {
      PrefixTrans(p, c, q);
    }
    assert p !in Subtree(fs, c);
  }

  /** The deletes of the children in done leave the subtree of any other child as it was. */
  lemma SubtreeUntouched(fs: Tree, faults: set<Path>, p: Path, done: set<Path>, c: Path)
    requires c in Children(fs, p) && c !in done
    ensures var rest := fs - DoomedBelow(fs, faults, p, done);
            && Subtree(rest, c) == Subtree(fs, c)
            && forall q :: q in Subtree(fs, c) ==> rest[q] == fs[q]
  {
    var gone := DoomedBelow(fs, faults, p, done);
    forall q | q in Subtree(fs, c) ensures q !in gone {
      assert q[..|p| + 1] == c;
    }
  }

  /**
   * Once the deletes of all children of a sound directory have run, the
   * directory is empty exactly when its whole subtree was free of faults.
   */
  lemma ChildrenLeft(fs: Tree, faults: set<Path>, p: Path)
    requires Valid(fs)
    requires IsDir(fs, p) && p !in faults
    ensures HasChildren(fs - DoomedBelow(fs, faults, p, Children(fs, p)), p) <==> !Clean(fs, faults, p)
  {
    DoomedDir(fs, faults, p);
    var kids := Children(fs, p);
    var rest := fs - DoomedBelow(fs, faults, p, kids);
    if !Clean(fs, faults, p) {
      var c :| c in kids && c !in Doomed(fs, faults, c);
      assert c[..|p| + 1] == c;
      assert c in rest;
    }
    if HasChildren(rest, p) {
      var q :| q in rest && |q| == |p| + 1 && q[..|p|] == p;
      assert q[..|p| + 1] == q;
      assert q in kids;
      assert q !in Doomed(fs, faults, q);
    }
  }

  /** Taking away two sets of keys one after the other is taking away their union. */
  lemma MinusMinus<K, V>(m: map<K, V>, a: set<K>, b: set<K>)
    ensures m - a - b == m - (a + b)
  {
  }

  /**
   * One step of the walk over p's children: the delete of child c on what
   * is left acts as on the original tree, works on a smaller subtree than
   * the delete of p, and extends what is done by c.
   */
  lemma ChildStep(fs: Tree, faults: set<Path>, p: Path, done: set<Path>, c: Path)
    requires p in fs && c in Children(fs, p) && c !in done
    ensures var rest := fs - DoomedBelow(fs, faults, p, done);
            && Doomed(rest, faults, c) == Doomed(fs, faults, c)
            && |Subtree(rest, c)| < |Subtree(fs, p)|
            && DoomedBelow(fs, faults, p, done) + Doomed(rest, faults, c)
               == DoomedBelow(fs, faults, p, done + {c})
  {
    var rest := fs - DoomedBelow(fs, faults, p, done);
    SubtreeUntouched(fs, faults, p, done, c);
    DoomedLocal(rest, fs, faults, c);
    SubtreeOfChild(fs, p, c);
    CardLess(Subtree(fs, c), Subtree(fs, p));
    DoomedBelowStep(fs, faults, p, done, c);
  }

  /**
   * After the walk over the children of a sound directory, the final delete
   * of the directory succeeds exactly when that completes the delete of p.
   */
  lemma DirDeleted(fs: Tree, faults: set<Path>, p: Path)
    requires Valid(fs)
    requires IsDir(fs, p) && p !in faults
    ensures var below := DoomedBelow(fs, faults, p, Children(fs, p));
            && p !in below
            && (HasChildren(fs - below, p) ==> Doomed(fs, faults, p) == below)
            && (!HasChildren(fs - below, p) ==> Doomed(fs, faults, p) == below + {p})
  {
    DoomedDir(fs, faults, p);
    ChildrenLeft(fs, faults, p);
  }

  /** Before the walk over p's children nothing is gone. */
  lemma LoopStart<V>(fs: Tree, notes: map<Path, V>, faults: set<Path>, p: Path)
    ensures fs == fs - DoomedBelow(fs, faults, p, {})
    ensures notes == notes - DoomedBelow(fs, faults, p, {})
  {
    assert DoomedBelow(fs, faults, p, {}) == {};
  }

  /** The loop of the recursive delete keeps its invariant over one child. */
  lemma LoopStep<V>(fs: Tree, notes: map<Path, V>, faults: set<Path>, p: Path, done: set<Path>, c: Path,
                    fsMid: Tree, fsNew: Tree, notesMid: map<Path, V>, notesNew: map<Path, V>)
    requires p in fs && c in Children(fs, p) && c !in done
    requires fsMid == fs - DoomedBelow(fs, faults, p, done)
    requires notesMid == notes - DoomedBelow(fs, faults, p, done)
    requires fsNew == fsMid - Doomed(fsMid, faults, c)
    requires notesNew == notesMid - Doomed(fsMid, faults, c)
    ensures fsNew == fs - DoomedBelow(fs, faults, p, done + {c})
    ensures notesNew == notes - DoomedBelow(fs, faults, p, done + {c})
  {
    ChildStep(fs, faults, p, done, c);
    MinusMinus(fs, DoomedBelow(fs, faults, p, done), Doomed(fsMid, faults, c));
    MinusMinus(notes, DoomedBelow(fs, faults, p, done), Doomed(fsMid, faults, c));
  }

  /** Taking away an entry that has nothing inside it keeps the tree closed under parents. */
  lemma RemoveLeaf(fs: Tree, p: Path)
    requires Valid(fs)
    requires !HasChildren(fs, p)
    ensures Valid(fs - {p})
  {
    forall q | q in fs - {p} ensures InDir(fs - {p}, q) {
      assert InDir(fs, q);
    }
  }

  /** A new entry in an existing directory keeps the tree closed under parents. */
  lemma AddEntry(fs: Tree, p: Path, n: Node)
    requires Valid(fs)
    requires p !in fs && p != [] && IsDir(fs, p[..|p| - 1])
    ensures Valid(fs[p := n])
  {
    var m := fs[p := n];
    forall q | q in m ensures InDir(m, q) {
      if q != p {
        assert InDir(fs, q);
      }
    }
  }

  /**
   * Files.createDirectory and Files.createFile succeed exactly for a new
   * entry, not faulty, inside an existing directory.
   */
  predicate CanCreate(fs: Tree, faults: set<Path>, p: Path) {
    p != [] && p !in fs && p !in faults && IsDir(fs, p[..|p| - 1])
  }

  /** One segment of the operating system's lookup, from the directory at. */
  function StepFrom(at: Path, s: string): Path {
    if s == "." then at
    else if s == ".." then (if at == [] then [] else at[..|at| - 1])
    else at + [s]
  }

  /**
   * The operating system's lookup of rest from the directory at: every
   * segment but the last must reach an existing directory (otherwise the
   * lookup fails, as with ENOENT or ENOTDIR); "." stays where it is and
   * ".." climbs, but not above the root.
   */
  function LocateFrom(fs: Tree, at: Path, rest: Path): (r: Option<Path>)
    ensures r.Some? && NoDots(rest) ==> r.value == at + rest
    ensures r.Some? && NoDots(at) ==> NoDots(r.value)
    ensures r.Some? && ValidPath(at) && ValidPath(rest) ==> ValidPath(r.value)
    decreases |rest|
  {
    if rest == [] then Some(at)
    else
      var next := StepFrom(at, rest[0]);
      assert NoDots(rest) ==> next == at + [rest[0]] && NoDots(rest[1..]) by {
        forall i | 0 <= i < |rest[1..]| ensures rest[1..][i] == rest[i + 1] { }
      }
      assert ValidPath(rest) ==> ValidPath(rest[1..]) by {
        forall i | 0 <= i < |rest[1..]| ensures rest[1..][i] == rest[i + 1] { }
      }
      assert at + rest == next + rest[1..] || !NoDots(rest);
      if |rest| == 1 then Some(next)
      else if IsDir(fs, next) then LocateFrom(fs, next, rest[1..])
      else None
  }

  /**
   * The entry the operating system reaches for the absolute path p. A path
   * without dot segments is reached as written or not at all, and what is
   * reached never holds a dot segment.
   */
  function Locate(fs: Tree, p: Path): (r: Option<Path>)
    ensures r.Some? && NoDots(p) ==> r.value == p
    ensures r.Some? ==> NoDots(r.value)
    ensures r.Some? && ValidPath(p) ==> ValidPath(r.value)
  {
    LocateFrom(fs, [], p)
  }

  /**
   * Below an existing directory without dot segments, the lookup goes on
   * from that directory.
   */
  lemma LocateThrough(fs: Tree, dir: Path, rest: Path)
    requires Valid(fs) && NoDots(dir) && (dir == [] || IsDir(fs, dir)) && rest != []
    ensures Locate(fs, dir + rest) == LocateFrom(fs, dir, rest)
  {
    LocateThroughFrom(fs, dir, rest, 0);
    assert dir[..0] == [] && dir[0..] + rest == dir + rest;
  }

  lemma {:induction false} LocateThroughFrom(fs: Tree, dir: Path, rest: Path, k: nat)
    requires Valid(fs) && NoDots(dir) && (dir == [] || IsDir(fs, dir)) && rest != []
    requires k <= |dir|
    ensures LocateFrom(fs, dir[..k], dir[k..] + rest) == LocateFrom(fs, dir, rest)
    decreases |dir| - k
  {
    if k < |dir| {
      var tail := dir[k..] + rest;
      assert tail[0] == dir[k];
      assert StepFrom(dir[..k], tail[0]) == dir[..k + 1];
      if k + 1 < |dir| {
        AncestorIsDir(fs, dir, dir[..k + 1]);
      } else {
        assert dir[..k + 1] == dir;
      }
      assert tail[1..] == dir[k + 1..] + rest;
      LocateThroughFrom(fs, dir, rest, k + 1);
    } else {
      assert dir[..k] == dir && dir[k..] + rest == rest;
    }
  }

  /**
   * Files.exists, then Files.createDirectory or Files.createFile, on p: the
   * entry the lookup reaches is added when it is new and can be made;
   * otherwise (it exists, the lookup fails, or an IOException) nothing
   * changes. Nothing that exists changes, and what is added is one entry,
   * not faulty, without dot segments, holding n.
   */
  function Create(fs: Tree, faults: set<Path>, p: Path, n: Node): (r: Tree)
    requires Valid(fs)
    ensures Valid(r)
    ensures forall q :: q in fs ==> q in r && r[q] == fs[q]
    ensures forall q :: q in r && q !in fs ==> q !in faults && NoDots(q) && r[q] == n
    ensures forall q, q' :: q in r && q !in fs && q' in r && q' !in fs ==> q == q'
  {
    match Locate(fs, p)
    case Some(q) =>
      if CanCreate(fs, faults, q) then
        AddEntry(fs, q, n);
        fs[q := n]
      else fs
    case None => fs
  }

  /**
   * A plain name inside an existing directory without dot segments: the
   * lookup reaches the entry of that directory, and Create adds it exactly
   * when it is new and not faulty.
   */
  lemma CreateByName(fs: Tree, faults: set<Path>, dir: Path, name: string, n: Node)
    requires Valid(fs) && NoDots(dir) && IsDir(fs, dir) && !IsDot(name)
    ensures Locate(fs, dir + [name]) == Some(dir + [name])
    ensures Create(fs, faults, dir + [name], n)
              == if dir + [name] !in fs && dir + [name] !in faults then fs[dir + [name] := n] else fs
  {
    LocateThrough(fs, dir, [name]);
    assert (dir + [name])[..|dir|] == dir;
  }

  /**
   * ".." names the parent of an existing directory, which exists (or is the
   * root), so nothing is created; and a name after ".." is looked up in
   * the parent.
   */
  lemma CreateInParent(fs: Tree, faults: set<Path>, dir: Path, name: string, n: Node)
    requires Valid(fs) && NoDots(dir) && IsDir(fs, dir) && dir != [] && !IsDot(name)
    ensures Create(fs, faults, dir + [".."], n) == fs
    ensures Locate(fs, dir + ["..", name]) == Some(dir[..|dir| - 1] + [name])
    ensures var t := dir[..|dir| - 1] + [name];
            Create(fs, faults, dir + ["..", name], n) == if t !in fs && t !in faults then fs[t := n] else fs
  {
    LocateThrough(fs, dir, [".."]);
    LocateThrough(fs, dir, ["..", name]);
    assert InDir(fs, dir);
    assert ["..", name][1..] == [name];
    var t := dir[..|dir| - 1] + [name];
    assert t[..|t| - 1] == dir[..|dir| - 1];
  }

  /** q moved from below src to the same place below dst. */
  function Rebase(q: Path, src: Path, dst: Path): Path
    requires IsPrefix(src, q)
  {
    dst + q[|src|..]
  }

  /**
   * Whether t is the copy of some entry of src's subtree; entries already
   * inside dst are not copied (FileUtils.copyDirectory leaves the
   * destination out when it lies inside the source).
   */
  predicate IsCopyOf(fs: Tree, src: Path, dst: Path, t: Path) {
    IsPrefix(dst, t) && src + t[|dst|..] in fs && !IsPrefix(dst, src + t[|dst|..])
  }

  function CopyTargets(fs: Tree, src: Path, dst: Path): (r: set<Path>)
    ensures forall t :: t in r <==> IsCopyOf(fs, src, dst, t)
  {
    var r := set q | q in fs && IsPrefix(src, q) && !IsPrefix(dst, q) :: dst + q[|src|..];
    assert forall t :: IsCopyOf(fs, src, dst, t) ==> t in r by {
      forall t | IsCopyOf(fs, src, dst, t) ensures t in r {
        var q := src + t[|dst|..];
        assert q[|src|..] == t[|dst|..];
        assert t == dst + q[|src|..];
      }
    }
    assert forall t :: t in r ==> IsCopyOf(fs, src, dst, t) by {
      forall t | t in r ensures IsCopyOf(fs, src, dst, t) {
        var q :| q in fs && IsPrefix(src, q) && !IsPrefix(dst, q) && t == dst + q[|src|..];
        assert t[|dst|..] == q[|src|..];
        assert src + t[|dst|..] == q;
      }
    }
    r
  }

  /** The tree after copying src's subtree onto dst, merging into what is there. */
  function CopyDir(fs: Tree, src: Path, dst: Path): (r: Tree)
    ensures forall t :: t in r <==> t in fs || IsCopyOf(fs, src, dst, t)
    ensures forall t :: IsCopyOf(fs, src, dst, t) ==> r[t] == fs[src + t[|dst|..]]
    ensures forall t :: t in fs && !IsCopyOf(fs, src, dst, t) ==> r[t] == fs[t]
  {
    var targets := CopyTargets(fs, src, dst);
    map t | t in fs.Keys + targets ::
      if IsCopyOf(fs, src, dst, t) then fs[src + t[|dst|..]] else fs[t]
  }

  /** Some copied entry would land on an existing entry of the other kind. */
  predicate KindClash(fs: Tree, src: Path, dst: Path) {
    exists t :: t in CopyTargets(fs, src, dst) && t in fs
                && fs[t].Dir? != fs[src + t[|dst|..]].Dir?
  }

  /** The parent of a copied entry other than the destination is itself a copied directory. */
  lemma CopiedParent(fs: Tree, src: Path, dst: Path, t: Path)
    requires Valid(fs)
    requires IsCopyOf(fs, src, dst, t) && t != dst
    ensures t != [] && IsCopyOf(fs, src, dst, t[..|t| - 1])
    ensures IsDir(fs, src + t[..|t| - 1][|dst|..])
  {
    var q := src + t[|dst|..];
    var up := t[..|t| - 1];
    assert |t| > |dst| by { assert t[..|dst|] == dst; }
    var qUp := src + up[|dst|..];
    assert qUp == q[..|q| - 1];
    assert InDir(fs, q);
    assert IsPrefix(dst, up) by { assert up[..|dst|] == t[..|dst|]; }
  }

  lemma CopyDirValid(fs: Tree, src: Path, dst: Path)
    requires Valid(fs)
    requires IsDir(fs, src) && dst != [] && IsDir(fs, dst[..|dst| - 1])
    requires !(dst in fs && fs[dst].File?)
    requires !KindClash(fs, src, dst)
    ensures Valid(CopyDir(fs, src, dst))
  {
    var r := CopyDir(fs, src, dst);
    var targets := CopyTargets(fs, src, dst);
    forall t | t in r ensures InDir(r, t) {
      var up := if t == [] then [] else t[..|t| - 1];
      if t == [] {
      } else if IsCopyOf(fs, src, dst, t) && t != dst {
        CopiedParent(fs, src, dst, t);
        assert r[up] == fs[src + up[|dst|..]];
      } else {
        // up is an existing directory; if a copy lands on it, it is a directory too
        if t != dst {
          assert InDir(fs, t);
        }
        if IsCopyOf(fs, src, dst, up) {
          assert up in targets && up in fs;
          assert r[up] == fs[src + up[|dst|..]];
        } else {
          assert r[up] == fs[up];
        }
      }
    }
  }

  /**
   * The duplication step of a paste: Files.copy for a file (which refuses an
   * existing target unless it is the source itself, where it does nothing),
   * FileUtils.copyDirectory for a directory (which refuses the source itself
   * as target and merges into an existing directory). Either refuses a
   * faulty path it would write: the target, or for a directory any path the
   * copy creates or overwrites. None stands for the IOException.
   */
  function Duplicate(fs: Tree, faults: set<Path>, src: Path, dst: Path): (r: Option<Tree>)
    requires Valid(fs)
    ensures r.Some? ==> Valid(r.value)
    ensures r.Some? ==> src in fs && src !in faults && dst != []
    ensures r.Some? && IsFile(fs, src) ==> r.value == fs[dst := fs[src]]
    ensures r.Some? && IsDir(fs, src) ==> r.value == CopyDir(fs, src, dst) && Clean(fs, faults, src)
    ensures r.Some? ==> forall q :: q in fs ==> q in r.value
    ensures r.Some? && dst != src ==> dst !in faults
    ensures r.Some? && IsDir(fs, src) ==> CopyTargets(fs, src, dst) * faults == {}
  {
    if src !in fs || src in faults || dst == [] || !IsDir(fs, dst[..|dst| - 1]) then None
    else if fs[src].File? then
      if dst == src then Some(fs)
      else if dst in fs || dst in faults then None
      else
        AddEntry(fs, dst, fs[src]);
        Some(fs[dst := fs[src]])
    else if dst == src || (dst in fs && fs[dst].File?) || !Clean(fs, faults, src)
            || KindClash(fs, src, dst) || dst in faults || CopyTargets(fs, src, dst) * faults != {} then None
    else
      CopyDirValid(fs, src, dst);
      Some(CopyDir(fs, src, dst))
  }
}
