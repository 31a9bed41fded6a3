/**
 * The annotation store: at most one text per path, kept in a side file that
 * is read and rewritten on every call. Only its contract is modelled, as a
 * map from paths to texts; a path is identified with its segments, which is
 * faithful because distinct paths print differently (Paths.PathStringInjective).
 */
module Annotations {
  import opened Paths
  import opened FileTree

  type Store = map<Path, string>

  /** findAnnotation: the text recorded for k, or "" when there is none. */
  function Lookup(m: Store, k: Path): (t: string)
    ensures k !in m ==> t == ""
  {
    if k in m then m[k] else ""
  }

  /** annotationAdd: appends to the existing text, or records a new one. */
  function Add(m: Store, k: Path, t: string): (r: Store)
    ensures k in r && Lookup(r, k) == Lookup(m, k) + t
    ensures forall j :: j != k ==> (j in r <==> j in m) && Lookup(r, j) == Lookup(m, j)
  {
    m[k := Lookup(m, k) + t]
  }

  /** deleteAnnotationNER: drops the record of k, if any. */
  function Remove(m: Store, k: Path): (r: Store)
    ensures k !in r && Lookup(r, k) == ""
    ensures forall j :: j != k ==> (j in r <==> j in m) && Lookup(r, j) == Lookup(m, j)
  {
    m - {k}
  }

  /** Two additions to one path are one addition of the concatenated text. */
  lemma AddTwice(m: Store, k: Path, a: string, b: string)
    ensures Add(Add(m, k, a), k, b) == Add(m, k, a + b)
  {
    assert Lookup(m, k) + a + b == Lookup(m, k) + (a + b);
  }

  /** Removing after adding forgets the addition. */
  lemma RemoveAfterAdd(m: Store, k: Path, t: string)
    ensures Remove(Add(m, k, t), k) == Remove(m, k)
  {
  }

  /** A worked example: "hello", then "world" appended, then the record removed. */
  lemma HelloWorld(m: Store, k: Path)
    requires k !in m
    ensures Lookup(Add(m, k, "hello"), k) == "hello"
    ensures Lookup(Add(Add(m, k, "hello"), k, "world"), k) == "helloworld"
    ensures Lookup(Remove(Add(Add(m, k, "hello"), k, "world"), k), k) == ""
  {
  }

  /** The files at or below dir, the entries a walk of dir keeps. */
  function FilesUnder(fs: Tree, dir: Path): set<Path> {
    set q | q in fs && IsPrefix(dir, q) && fs[q].File?
  }

  /**
   * What staging a directory records (findAddToCopy): one pair per file of
   * the subtree, its path relative to dir and its current annotation, each
   * file once, in any order.
   */
  ghost predicate IsManifest(fs: Tree, notes: Store, dir: Path, paths: seq<Path>, texts: seq<string>) {
    && |paths| == |texts|
    && (forall i, j :: 0 <= i < j < |paths| ==> paths[i] != paths[j])
    && (forall i :: 0 <= i < |paths| ==>
          IsFile(fs, dir + paths[i]) && texts[i] == Lookup(notes, dir + paths[i]))
    && (forall q :: q in FilesUnder(fs, dir) ==> q[|dir|..] in paths)
  }

  /** findAddToCopy: walks dir's subtree (in no particular order) and records each file. */
  method CollectManifest(fs: Tree, notes: Store, dir: Path) returns (paths: seq<Path>, texts: seq<string>)
    ensures IsManifest(fs, notes, dir, paths, texts)
  {
    var todo := FilesUnder(fs, dir);
    paths, texts := [], [];
    while todo != {}
      invariant todo <= FilesUnder(fs, dir)
      invariant |paths| == |texts|
      invariant forall i, j :: 0 <= i < j < |paths| ==> paths[i] != paths[j]
      invariant forall i :: 0 <= i < |paths| ==>
                  dir + paths[i] in FilesUnder(fs, dir) - todo
                  && texts[i] == Lookup(notes, dir + paths[i])
      invariant forall q :: q in FilesUnder(fs, dir) - todo ==> q[|dir|..] in paths
      decreases todo
    {
      var q :| q in todo;
      var rel := q[|dir|..];
      assert dir + rel == q;
      paths, texts := paths + [rel], texts + [Lookup(notes, q)];
      todo := todo - {q};
    }
  }

  /** Adds t at k unless t is empty. */
  function AddNonEmpty(m: Store, k: Path, t: string): Store {
    if t == "" then m else Add(m, k, t)
  }

  /**
   * addAnnotationToDirectory: replays a manifest below target, adding each
   * non-empty text to target + its relative path, in manifest order.
   */
  function Replay(notes: Store, target: Path, paths: seq<Path>, texts: seq<string>): Store
    requires |paths| == |texts|
    decreases |paths|
  {
    if paths == [] then notes
    else Replay(AddNonEmpty(notes, target + paths[0], texts[0]), target, paths[1..], texts[1..])
  }

  lemma PrefixCancel(t: Path, a: Path, b: Path)
    ensures t + a == t + b ==> a == b
  {
    if t + a == t + b {
      assert a == (t + a)[|t|..];
      assert b == (t + b)[|t|..];
    }
  }

  /**
   * The effect of a replay, key by key: a manifest entry's copy gains its
   * text, every other path keeps its record (or its absence).
   */
  lemma {:induction false} ReplayEffect(notes: Store, target: Path, paths: seq<Path>, texts: seq<string>)
    requires |paths| == |texts|
    requires forall i, j :: 0 <= i < j < |paths| ==> paths[i] != paths[j]
    decreases |paths|
    ensures forall i :: 0 <= i < |paths| ==>
              Lookup(Replay(notes, target, paths, texts), target + paths[i])
                == Lookup(notes, target + paths[i]) + texts[i]
    ensures forall k :: (forall i :: 0 <= i < |paths| && texts[i] != "" ==> k != target + paths[i]) ==>
              (k in Replay(notes, target, paths, texts) <==> k in notes)
              && Lookup(Replay(notes, target, paths, texts), k) == Lookup(notes, k)
  {
    if paths != [] {
      var first := AddNonEmpty(notes, target + paths[0], texts[0]);
      var r := Replay(notes, target, paths, texts);
      ReplayEffect(first, target, paths[1..], texts[1..]);
      assert r == Replay(first, target, paths[1..], texts[1..]);
      forall i | 0 <= i < |paths|
        ensures Lookup(r, target + paths[i]) == Lookup(notes, target + paths[i]) + texts[i]
      {
        if i == 0 {
          forall j | 0 <= j < |paths[1..]| ensures target + paths[0] != target + paths[1..][j] {
            assert paths[1..][j] == paths[j + 1];
            PrefixCancel(target, paths[0], paths[j + 1]);
          }
        } else {
          assert paths[i] == paths[1..][i - 1];
          PrefixCancel(target, paths[i], paths[0]);
        }
      }
      forall k | (forall i :: 0 <= i < |paths| && texts[i] != "" ==> k != target + paths[i])
        ensures (k in r <==> k in notes) && Lookup(r, k) == Lookup(notes, k)
      {
        assert forall i :: 0 <= i < |paths[1..]| && texts[1..][i] != "" ==> k != target + paths[1..][i] by {
          forall i | 0 <= i < |paths[1..]| && texts[1..][i] != "" ensures k != target + paths[1..][i] {
            assert paths[1..][i] == paths[i + 1] && texts[1..][i] == texts[i + 1];
          }
        }
      }
    }
  }
}
