/**
 * The pure parts of Commande: the name a paste gives its target, and the
 * search that find performs over the tree. The stateful commands (copyFile,
 * pasteFile, mkdir, createTextFile) are methods of Shell.Session.
 */
module Commande {
  import opened Wrappers
  import opened Paths
  import opened FileTree

  /** String.lastIndexOf for a character: the last position of c, or -1. */
  function LastIndexOf(s: string, c: char): (i: int)
    ensures -1 <= i < |s|
    ensures i >= 0 ==> s[i] == c
    ensures forall j :: i < j < |s| ==> s[j] != c
  {
    if s == [] then -1
    else if s[|s| - 1] == c then |s| - 1
    else LastIndexOf(s[..|s| - 1], c)
  }

  /** The split of a name at its last dot: the base name and the extension. */
  function SplitName(name: string): (string, string) {
    var dot := LastIndexOf(name, '.');
    if dot == -1 then (name, "") else (name[..dot], name[dot..])
  }

  /**
   * The split loses nothing, and the extension is either empty (the name
   * has no dot) or starts with the only dot it contains.
   */
  lemma SplitNameParts(name: string)
    ensures SplitName(name).0 + SplitName(name).1 == name
    ensures SplitName(name).1 == "" <==> '.' !in name
    ensures SplitName(name).1 != "" ==>
              SplitName(name).1[0] == '.' && '.' !in SplitName(name).1[1..]
  {
    var dot := LastIndexOf(name, '.');
    if dot == -1 {
      assert '.' !in name by {
        forall j | 0 <= j < |name| ensures name[j] != '.' { }
      }
    } else {
      assert name[..dot] + name[dot..] == name;
      var ext := name[dot..];
      assert forall k :: 1 <= k < |ext| ==> ext[k] == name[dot + k];
    }
  }

  /** The target name of a paste: a cut keeps the name, a copy inserts "-copy" before the extension. */
  function PasteName(name: string, cut: bool): (r: string)
    ensures cut ==> r == name
    ensures !cut ==> |r| == |name| + 5
  {
    SplitNameParts(name);
    var (base, ext) := SplitName(name);
    if cut then base + ext else base + "-copy" + ext
  }

  /** A copy keeps the extension of the original and only lengthens the base name. */
  lemma PasteNameKeepsExtension(name: string)
    ensures SplitName(PasteName(name, false)) == (SplitName(name).0 + "-copy", SplitName(name).1)
  {
    SplitNameParts(name);
    var (base, ext) := SplitName(name);
    var r := PasteName(name, false);
    assert r == (base + "-copy") + ext;
    if ext == "" {
      assert '.' !in r by {
        assert '.' !in base;
        forall j | 0 <= j < |r| ensures r[j] != '.' {
          if j >= |base| { assert r[j] == "-copy"[j - |base|]; }
        }
      }
      assert LastIndexOf(r, '.') == -1;
      assert r == base + "-copy";
    } else {
      var dot := |base| + 5;
      assert r[dot] == '.';
      forall j | dot < j < |r| ensures r[j] != '.' {
        assert r[j] == ext[j - dot];
      }
      LastIndexOfIs(r, '.', dot);
      assert r[..dot] == base + "-copy";
      assert r[dot..] == ext;
    }
  }

  /** A pasted name is still a single path segment. */
  lemma PasteNameValid(name: string, cut: bool)
    requires ValidName(name)
    ensures ValidName(PasteName(name, cut))
  {
    SplitNameParts(name);
    var (base, ext) := SplitName(name);
    var r := PasteName(name, cut);
    assert '/' !in base && '/' !in ext by {
      assert forall j :: 0 <= j < |base| ==> base[j] == name[j];
      assert forall j :: 0 <= j < |ext| ==> ext[j] == name[|base| + j];
    }
    if !cut {
      forall j | 0 <= j < |r| ensures r[j] != '/' {
        if j < |base| {
          assert r[j] == base[j];
        } else if j < |base| + 5 {
          assert r[j] == "-copy"[j - |base|];
        } else {
          assert r[j] == ext[j - |base| - 5];
        }
      }
    }
  }

  /** The last position of c is the one after which no c occurs. */
  lemma {:induction false} LastIndexOfIs(s: string, c: char, i: int)
    requires 0 <= i < |s| && s[i] == c
    requires forall j :: i < j < |s| ==> s[j] != c
    ensures LastIndexOf(s, c) == i
  {
    if i < |s| - 1 {
      LastIndexOfIs(s[..|s| - 1], c, i);
    }
  }

  /**
   * Worked examples of the naming rule; testFile.txt is the file the copy
   * test pastes (CommandeTest.java:62 expects testFile-copy.txt).
   */
  lemma PasteNameExamples()
    ensures PasteName("testFile.txt", false) == "testFile-copy.txt"
    ensures PasteName("a.txt", false) == "a-copy.txt"
    ensures PasteName("archive.tar.gz", false) == "archive.tar-copy.gz"
    ensures PasteName("dossier", false) == "dossier-copy"
    ensures PasteName("a.txt", true) == "a.txt"
  {
    LastIndexOfIs("testFile.txt", '.', 8);
    LastIndexOfIs("a.txt", '.', 1);
    LastIndexOfIs("archive.tar.gz", '.', 11);
    assert LastIndexOf("dossier", '.') == -1;
  }

  /**
   * find: the regular files of the walk from the current directory (the
   * directory itself included) whose last segment is name. A walk that
   * cannot start (a missing or faulty current directory) throws the
   * IOException find catches, so nothing is reported; isRegularFile answers
   * false for a faulty entry, so it is never reported.
   */
  function Find(fs: Tree, faults: set<Path>, cwd: Path, name: string): (r: set<Path>)
    ensures cwd !in fs || cwd in faults ==> r == {}
    ensures forall q :: q in r <==>
              cwd in fs && cwd !in faults && IsFile(fs, q) && q !in faults && IsPrefix(cwd, q)
              && FileName(q) == Some(name)
  {
    if cwd !in fs || cwd in faults then {}
    else set q | q in fs && q !in faults && IsPrefix(cwd, q) && fs[q].File? && FileName(q) == Some(name)
  }
}
