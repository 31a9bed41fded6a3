/**
 * The state the shell keeps across commands, as one object: the current
 * directory and the last reference (FileManager), the clipboard (split in
 * the program between FileManager's toCopy, pathToCopy, annotationsToCopy
 * and CommandHandler's type and isToCut), the last annotation shown, and
 * the disk and annotation store the commands act on.
 */
module Shell {
  import opened Wrappers
  import opened Paths
  import opened FileTree
  import opened Annotations
  import FileManager
  import Commande
  import opened CommandHandler

  /** How processCommand ends: go on, exit, or an exception that ends the session. */
  datatype Outcome = Continue | Quit | Crash

  /** The disk, the annotation store and whether an exception escaped, after a paste. */
  datatype PasteResult = PasteResult(fs: Tree, notes: Store, crash: bool)

  /** Where a paste of src into cwd lands; None when src has no file name (the root). */
  function PasteTarget(cwd: Path, src: Path, kind: string): (r: Option<Path>)
    ensures r.None? <==> src == []
  {
    match FileName(src)
    case None => None
    case Some(n) => Some(Resolve(cwd, Commande.PasteName(n, kind == "cut")))
  }

  /**
   * pasteFile, step by step: nothing staged is reported; the target is
   * named after the source; the duplicate is made (an IOException stops
   * everything); the annotations are replayed below a directory target, or
   * the one staged annotation is added to a file target (an empty staged
   * list throws); and a cut onto a different path deletes the source.
   */
  ghost function Paste(fs: Tree, notes: Store, faults: set<Path>, cwd: Path, toCopy: Option<Path>,
                       paths: seq<Path>, texts: seq<string>, kind: string): PasteResult
    requires FileTree.Valid(fs) && |paths| == |texts|
  {
    if toCopy.None? then PasteResult(fs, notes, false)
    else
      var src := toCopy.value;
      match PasteTarget(cwd, src, kind)
      case None => PasteResult(fs, notes, true)
      case Some(target) =>
        match Duplicate(fs, faults, src, target)
        case None => PasteResult(fs, notes, false)
        case Some(copied) =>
          if !IsDir(fs, src) && texts == [] then PasteResult(copied, notes, true)
          else
            var annotated := if IsDir(fs, src) then Replay(notes, target, paths, texts)
                             else Add(notes, target, texts[0]);
            if kind == "cut" && target != src then
              var gone := Doomed(copied, faults, src);
              PasteResult(copied - gone, annotated - gone, false)
            else PasteResult(copied, annotated, false)
  }

  /**
   * The target of a paste is the entry of cwd named after the source (with
   * "-copy" unless it is a cut), so a copy never lands on its source and a
   * cut lands on it exactly when cwd is the source's own directory.
   */
  lemma PasteTargetPlace(cwd: Path, src: Path, kind: string)
    requires ValidPath(src) && src != []
    ensures PasteTarget(cwd, src, kind)
              == Some(cwd + [Commande.PasteName(src[|src| - 1], kind == "cut")])
    ensures kind != "cut" ==> PasteTarget(cwd, src, kind).value != src
    ensures kind == "cut" ==> (PasteTarget(cwd, src, kind).value == src <==> cwd == src[..|src| - 1])
  {
    var n := src[|src| - 1];
    var m := Commande.PasteName(n, kind == "cut");
    Commande.PasteNameValid(n, kind == "cut");
    ResolveName(cwd, m);
    var t := cwd + [m];
    if kind != "cut" {
      assert t[|t| - 1] != src[|src| - 1];
    } else {
      if cwd == src[..|src| - 1] {
        assert t == src;
      }
    }
  }

  /**
   * Cutting a file and pasting it into another directory, where its name
   * is free, moves it: the source entry and its annotation go, the target
   * holds the source's contents and gains the staged annotation.
   */
  lemma CutPasteMovesFile(fs: Tree, notes: Store, faults: set<Path>, cwd: Path, src: Path,
                          paths: seq<Path>, texts: seq<string>)
    requires FileTree.Valid(fs) && |paths| == |texts| && texts != []
    requires IsFile(fs, src) && src !in faults && ValidPath(src) && src != []
    requires cwd != src[..|src| - 1] && IsDir(fs, cwd)
    requires PasteTarget(cwd, src, "cut").value !in fs && PasteTarget(cwd, src, "cut").value !in faults
    ensures var t := PasteTarget(cwd, src, "cut").value;
            Paste(fs, notes, faults, cwd, Some(src), paths, texts, "cut")
              == PasteResult((fs - {src})[t := fs[src]], Remove(Add(notes, t, texts[0]), src), false)
  {
    PasteTargetPlace(cwd, src, "cut");
    var t := PasteTarget(cwd, src, "cut").value;
    assert t[..|t| - 1] == cwd;
    var copied := fs[t := fs[src]];
    assert Duplicate(fs, faults, src, t) == Some(copied);
    DoomedFile(copied, faults, src);
    assert copied - {src} == (fs - {src})[t := fs[src]];
  }

  /**
   * Cutting a file and pasting it back into its own directory leaves the
   * disk as it is, but the staged annotation is added to the file once
   * more: with the text staged by the cut, the annotation is doubled.
   */
  lemma CutPasteInPlace(fs: Tree, notes: Store, faults: set<Path>, src: Path,
                        paths: seq<Path>, texts: seq<string>)
    requires FileTree.Valid(fs) && |paths| == |texts| && texts != []
    requires IsFile(fs, src) && src !in faults && ValidPath(src) && src != []
    ensures Paste(fs, notes, faults, src[..|src| - 1], Some(src), paths, texts, "cut")
              == PasteResult(fs, Add(notes, src, texts[0]), false)
    ensures texts[0] == Lookup(notes, src) ==>
              var r := Paste(fs, notes, faults, src[..|src| - 1], Some(src), paths, texts, "cut");
              Lookup(r.notes, src) == Lookup(notes, src) + Lookup(notes, src)
  {
    PasteTargetPlace(src[..|src| - 1], src, "cut");
    assert InDir(fs, src);
    assert Duplicate(fs, faults, src, src) == Some(fs);
  }

  /**
   * Copying a file into a directory where the "-copy" name is free adds
   * that entry with the source's contents and the staged annotation, and
   * changes nothing else.
   */
  lemma CopyPasteFile(fs: Tree, notes: Store, faults: set<Path>, cwd: Path, src: Path, kind: string,
                      paths: seq<Path>, texts: seq<string>)
    requires FileTree.Valid(fs) && |paths| == |texts| && texts != [] && kind != "cut"
    requires IsFile(fs, src) && src !in faults && ValidPath(src) && src != [] && IsDir(fs, cwd)
    requires PasteTarget(cwd, src, kind).value !in fs && PasteTarget(cwd, src, kind).value !in faults
    ensures var t := PasteTarget(cwd, src, kind).value;
            Paste(fs, notes, faults, cwd, Some(src), paths, texts, kind)
              == PasteResult(fs[t := fs[src]], Add(notes, t, texts[0]), false)
  {
    PasteTargetPlace(cwd, src, kind);
    var t := PasteTarget(cwd, src, kind).value;
    assert t[..|t| - 1] == cwd;
  }

  /**
   * A file pasted onto an existing entry other than itself fails
   * (FileAlreadyExistsException is reported and swallowed): nothing changes.
   */
  lemma PasteOntoExisting(fs: Tree, notes: Store, faults: set<Path>, cwd: Path, src: Path, kind: string,
                          paths: seq<Path>, texts: seq<string>)
    requires FileTree.Valid(fs) && |paths| == |texts|
    requires IsFile(fs, src) && ValidPath(src) && src != []
    requires PasteTarget(cwd, src, kind).value in fs && PasteTarget(cwd, src, kind).value != src
    ensures Paste(fs, notes, faults, cwd, Some(src), paths, texts, kind) == PasteResult(fs, notes, false)
  {
    PasteTargetPlace(cwd, src, kind);
  }

  /**
   * A paste whose target is faulty fails (the IOException of the copy is
   * reported and swallowed) before any annotation is added or any source
   * deleted: nothing changes.
   */
  lemma PasteOntoFaulty(fs: Tree, notes: Store, faults: set<Path>, cwd: Path, src: Path, kind: string,
                        paths: seq<Path>, texts: seq<string>)
    requires FileTree.Valid(fs) && |paths| == |texts| && src != []
    requires PasteTarget(cwd, src, kind).value in faults
    ensures Paste(fs, notes, faults, cwd, Some(src), paths, texts, kind) == PasteResult(fs, notes, false)
  {
  }

  /**
   * Copying a clean directory into a place where the copy can be made: the
   * subtree is duplicated below the target, every file of the staged
   * manifest gains its staged annotation at its copy, and every other
   * record of the store is kept as it was.
   */
  lemma CopyPasteDir(fs: Tree, notes: Store, faults: set<Path>, cwd: Path, src: Path, kind: string,
                     paths: seq<Path>, texts: seq<string>)
    requires FileTree.Valid(fs) && kind != "cut"
    requires IsDir(fs, src) && ValidPath(src) && src != [] && Clean(fs, faults, src) && IsDir(fs, cwd)
    requires IsManifest(fs, notes, src, paths, texts)
    requires var t := PasteTarget(cwd, src, kind).value;
             !(t in fs && fs[t].File?) && !KindClash(fs, src, t) && t !in faults
             && CopyTargets(fs, src, t) * faults == {}
    ensures var t := PasteTarget(cwd, src, kind).value;
            var r := Paste(fs, notes, faults, cwd, Some(src), paths, texts, kind);
            && !r.crash && r.fs == CopyDir(fs, src, t)
            && (forall i :: 0 <= i < |paths| ==>
                  Lookup(r.notes, t + paths[i]) == Lookup(notes, t + paths[i]) + texts[i])
            && forall k :: (forall i :: 0 <= i < |paths| && texts[i] != "" ==> k != t + paths[i]) ==>
                 (k in r.notes <==> k in notes) && Lookup(r.notes, k) == Lookup(notes, k)
  {
    PasteTargetPlace(cwd, src, kind);
    var t := PasteTarget(cwd, src, kind).value;
    assert t[..|t| - 1] == cwd;
    ReplayEffect(notes, t, paths, texts);
  }


  /** Pasting keeps the disk closed under parents. */
  lemma PasteKeepsValid(fs: Tree, notes: Store, faults: set<Path>, cwd: Path, toCopy: Option<Path>,
                        paths: seq<Path>, texts: seq<string>, kind: string)
    requires FileTree.Valid(fs) && |paths| == |texts|
    ensures FileTree.Valid(Paste(fs, notes, faults, cwd, toCopy, paths, texts, kind).fs)
  {
    if toCopy.Some? && PasteTarget(cwd, toCopy.value, kind).Some? {
      var copied := Duplicate(fs, faults, toCopy.value, PasteTarget(cwd, toCopy.value, kind).value);
      if copied.Some? {
        DoomedKeepsValid(copied.value, faults, toCopy.value);
      }
    }
  }

  /** What the abandonment of a pending cut deletes. */
  ghost function Abandoned(fs: Tree, faults: set<Path>, toCopy: Option<Path>, cut: bool): set<Path> {
    if cut && toCopy.Some? then Doomed(fs, faults, toCopy.value) else {}
  }

  /**
   * The reference of a listing-based command exists and the name given
   * with it, if any, is the listed one.
   */
  predicate NameMatches(listing: seq<string>, ner: int, name: string) {
    1 <= ner <= |listing| && (name == "" || name == listing[ner - 1])
  }

  /**
   * The listing copyFile takes once a pending cut is abandoned: the entries
   * of the line's listing that the abandonment did not delete, in the same
   * order; with nothing deleted it is the line's listing.
   */
  function Relist(listing: seq<string>, cwd: Path, gone: set<Path>): (r: seq<string>)
    ensures forall n :: n in r <==> n in listing && Resolve(cwd, n) !in gone
    ensures gone == {} ==> r == listing
    ensures |r| <= |listing|
  {
    if listing == [] then []
    else
      var rest := Relist(listing[1..], cwd, gone);
      assert listing == [listing[0]] + listing[1..];
      if Resolve(cwd, listing[0]) in gone then rest else [listing[0]] + rest
  }

  /**
   * updateCurrentDir: "retour" goes to the parent, with None for the
   * IllegalArgumentException at the root; any other choice is resolved
   * against the current directory, a plain name one level down.
   */
  function ChangeDir(cwd: Path, choice: string): (r: Option<Path>)
    ensures ValidPath(cwd) && r.Some? ==> ValidPath(r.value)
    ensures choice == "retour" ==> (r.None? <==> cwd == [])
    ensures choice == "retour" && r.Some? ==> IsPrefix(r.value, cwd) && |r.value| + 1 == |cwd|
    ensures choice != "retour" ==> r.Some? && (ValidName(choice) ==> r.value == cwd + [choice])
  {
    if choice == "retour" then
      assert ValidPath(cwd) && cwd != [] ==> ValidPath(cwd[..|cwd| - 1]) by {
        if cwd != [] {
          assert forall i :: 0 <= i < |cwd| - 1 ==> cwd[..|cwd| - 1][i] == cwd[i];
        }
      }
      Parent(cwd)
    else
      assert ValidName(choice) ==> Resolve(cwd, choice) == cwd + [choice] by {
        if ValidName(choice) {
          ResolveName(cwd, choice);
        }
      }
      Some(Resolve(cwd, choice))
  }

  /** Entering a listed directory by its name and then going up comes back. */
  lemma ChangeDirRoundTrip(cwd: Path, name: string)
    requires ValidName(name) && name != "retour"
    ensures ChangeDir(cwd, name) == Some(cwd + [name])
    ensures ChangeDir(cwd + [name], "retour") == Some(cwd)
  {
    assert (cwd + [name])[..|cwd|] == cwd;
  }

  /** Everything the shell keeps across commands (the fields of Session). */
  datatype State = State(cwd: Path, toCopy: Option<Path>, pathToCopy: seq<Path>,
                         annotationsToCopy: seq<string>, pasteType: string, cutPending: bool,
                         lastNER: int, lastAnnotation: string, fs: Tree, notes: Store)

  /**
   * The disk is a tree, the paths held are well formed, a pending cut has a
   * source, and the staged paths and annotations pair up.
   */
  ghost predicate StateValid(s: State) {
    && FileTree.Valid(s.fs)
    && ValidPath(s.cwd)
    && (s.toCopy.Some? ==> ValidPath(s.toCopy.value))
    && (s.cutPending ==> s.toCopy.Some?)
    && |s.pathToCopy| == |s.annotationsToCopy|
  }

  /**
   * The clipboard after copyFile has looked ner up in relisted: the entry is
   * staged with the manifest of a directory or the annotation of a file;
   * a reference outside relisted leaves the clipboard as it was.
   */
  ghost predicate StagedClip(s: State, s': State, relisted: seq<string>, ner: int) {
    match FileManager.PathByNER(s.cwd, relisted, ner)
    case None =>
      s'.toCopy == s.toCopy && s'.pathToCopy == s.pathToCopy && s'.annotationsToCopy == s.annotationsToCopy
    case Some(p) =>
      && s'.toCopy == Some(p)
      && if IsDir(s'.fs, p) then IsManifest(s'.fs, s'.notes, p, s'.pathToCopy, s'.annotationsToCopy)
         else s'.pathToCopy == [p] && s'.annotationsToCopy == [Lookup(s'.notes, p)]
  }

  /**
   * cut (cut true) and copy on the listed entry ner: a pending cut is
   * abandoned, deleting its source; the entry is then looked up in the
   * listing as it stands after that delete; cut marks the cut pending with
   * the paste type "cut", copy clears the mark.
   */
  ghost predicate Staged(s: State, s': State, faults: set<Path>, cut: bool, ner: int, listing: seq<string>) {
    var gone := Abandoned(s.fs, faults, s.toCopy, s.cutPending);
    && s'.fs == s.fs - gone && s'.notes == s.notes - gone
    && s'.cwd == s.cwd && s'.lastNER == s.lastNER && s'.lastAnnotation == s.lastAnnotation
    && s'.cutPending == cut && s'.pasteType == (if cut then "cut" else s.pasteType)
    && StagedClip(s, s', Relist(listing, s.cwd, gone), ner)
  }

  /**
   * The commands that act on the listed entry ner (cut, copy, visu, the
   * default command and "."): a reference past the listing throws, a name
   * that is not the listed one changes nothing, "." enters a directory.
   */
  ghost predicate Listed(s: State, s': State, o: Outcome, faults: set<Path>, cmd: Command, ner: int,
                         name: string, listing: seq<string>) {
    if !(1 <= ner <= |listing|) then o == Crash && s' == s
    else if !NameMatches(listing, ner, name) then o == Continue && s' == s
    else match cmd
      case Cut => o == Continue && Staged(s, s', faults, true, ner, listing)
      case Copy => o == Continue && Staged(s, s', faults, false, ner, listing)
      case Enter =>
        if !IsDir(s.fs, Resolve(s.cwd, listing[ner - 1])) then o == Continue && s' == s
        else (match ChangeDir(s.cwd, listing[ner - 1])
              case None => o == Crash && s' == s
              case Some(d) => o == Continue && s' == s.(cwd := d))
      case _ => o == Continue && s' == s
  }

  /**
   * "+" appends the third part of the line to the annotation of the
   * reference and shows the result, "-" removes the annotation; both need a
   * positive reference ("+" also a third part), and a positive reference
   * past the listing throws.
   */
  ghost predicate Annotated(s: State, s': State, o: Outcome, command: string, ner: int,
                            parts: seq<string>, listing: seq<string>) {
    if !(ner > 0 && (command == "+" ==> |parts| > 2)) then o == Continue && s' == s
    else match FileManager.PathByNER(s.cwd, listing, ner)
      case None => o == Crash && s' == s
      case Some(p) =>
        && o == Continue
        && s' == if command == "+" then s.(notes := Add(s.notes, p, parts[2]),
                                           lastAnnotation := Lookup(s.notes, p) + parts[2])
                 else s.(notes := Remove(s.notes, p), lastAnnotation := "")
  }

  /**
   * The commands that change the disk or the annotations: delete (then the
   * reference and the annotation shown are reset), past (then nothing is
   * pending), mkdir and touch with a name, "+" and "-".
   */
  ghost predicate Edited(s: State, s': State, o: Outcome, faults: set<Path>, cmd: Command, ner: int,
                         name: string, parts: seq<string>, listing: seq<string>)
    requires StateValid(s)
  {
    match cmd
    case Delete =>
      (match FileManager.PathByNER(s.cwd, listing, ner)
       case None => o == Crash && s' == s
       case Some(p) =>
         var gone := Doomed(s.fs, faults, p);
         o == Continue && s' == s.(fs := s.fs - gone, notes := s.notes - gone, lastAnnotation := "", lastNER := -1))
    case Past =>
      var r := Paste(s.fs, s.notes, faults, s.cwd, s.toCopy, s.pathToCopy, s.annotationsToCopy, s.pasteType);
      if r.crash then o == Crash && s' == s.(fs := r.fs, notes := r.notes)
      else o == Continue && s' == s.(fs := r.fs, notes := r.notes, cutPending := false, pasteType := "")
    case Mkdir =>
      o == Continue && s' == if name == "" then s else s.(fs := Create(s.fs, faults, Resolve(s.cwd, name), Dir))
    case Touch =>
      o == Continue
      && s' == if name == "" then s else s.(fs := Create(s.fs, faults, Resolve(s.cwd, name + ".txt"), File([])))
    case AddNote => Annotated(s, s', o, "+", ner, parts, listing)
    case RemoveNote => Annotated(s, s', o, "-", ner, parts, listing)
    case _ => o == Continue && s' == s
  }

  /**
   * The switch of processCommand on the command word, with the reference
   * ner and the name that follow it: ".." goes up (throwing at the root),
   * exit abandons a pending cut and ends the session, help, find and an
   * unknown word only print, note throws on a positive reference past the
   * listing.
   */
  ghost predicate Dispatched(s: State, s': State, o: Outcome, faults: set<Path>, cmd: Command, ner: int,
                             name: string, parts: seq<string>, listing: seq<string>)
    requires StateValid(s)
  {
    match cmd
    case Up =>
      (match ChangeDir(s.cwd, "retour")
       case None => o == Crash && s' == s
       case Some(d) => o == Continue && s' == s.(cwd := d))
    case Cut | Copy | Visu | Default | Enter => Listed(s, s', o, faults, cmd, ner, name, listing)
    case Delete | Past | Mkdir | Touch | AddNote | RemoveNote =>
      Edited(s, s', o, faults, cmd, ner, name, parts, listing)
    case Note =>
      if ner > 0 && FileManager.PathByNER(s.cwd, listing, ner).None? then o == Crash && s' == s
      else o == Continue && s' == s
    case Exit =>
      var gone := Abandoned(s.fs, faults, s.toCopy, s.cutPending);
      o == Quit && s' == s.(fs := s.fs - gone, notes := s.notes - gone)
    case Help | Find | Unknown => o == Continue && s' == s
  }

  /**
   * processCommand on one line, with the listing of the current directory
   * as it stands when the line is read: a numeric first part sets the last
   * reference and shows its annotation first (throwing past the listing);
   * then the command word is dispatched.
   */
  ghost predicate Processed(s: State, s': State, o: Outcome, faults: set<Path>, line: string,
                            listing: seq<string>)
    requires StateValid(s)
  {
    var q := Tokenise(line, s.lastNER);
    if q.numeric then
      match FileManager.PathByNER(s.cwd, listing, q.ner)
      case None => o == Crash && s' == s.(lastNER := q.ner)
      case Some(p) =>
        Dispatched(s.(lastNER := q.ner, lastAnnotation := Lookup(s.notes, p)), s', o, faults,
                   Classify(q.command), q.ner, q.name, q.parts, listing)
    else Dispatched(s, s', o, faults, Classify(q.command), q.ner, q.name, q.parts, listing)
  }

  /** Staging keeps the state well formed. */
  lemma StagedKeepsValid(s: State, s': State, faults: set<Path>, cut: bool, ner: int, listing: seq<string>)
    requires StateValid(s) && 1 <= ner <= |listing| && Staged(s, s', faults, cut, ner, listing)
    ensures StateValid(s')
  {
    if s.cutPending {
      DoomedKeepsValid(s.fs, faults, s.toCopy.value);
    } else {
      assert s'.fs == s.fs;
    }
  }

  /** No command that goes on leaves the state ill formed. */
  lemma DispatchedKeepsValid(s: State, s': State, o: Outcome, faults: set<Path>, cmd: Command, ner: int,
                             name: string, parts: seq<string>, listing: seq<string>)
    requires StateValid(s) && Dispatched(s, s', o, faults, cmd, ner, name, parts, listing) && o != Crash
    ensures StateValid(s')
  {
    match cmd
    case Cut | Copy =>
      if NameMatches(listing, ner, name) {
        StagedKeepsValid(s, s', faults, cmd == Cut, ner, listing);
      }
    case Delete =>
      DoomedKeepsValid(s.fs, faults, FileManager.PathByNER(s.cwd, listing, ner).value);
    case Past =>
      PasteKeepsValid(s.fs, s.notes, faults, s.cwd, s.toCopy, s.pathToCopy, s.annotationsToCopy, s.pasteType);
    case Exit =>
      if s.cutPending {
        DoomedKeepsValid(s.fs, faults, s.toCopy.value);
        assert s'.fs == s.fs - Doomed(s.fs, faults, s.toCopy.value);
      } else {
        assert s'.fs == s.fs;
      }
    case _ =>
  }

  /** The invariant of the session: every line that does not end it in an exception keeps it. */
  lemma ProcessedKeepsValid(s: State, s': State, o: Outcome, faults: set<Path>, line: string, listing: seq<string>)
    requires StateValid(s) && Processed(s, s', o, faults, line, listing) && o != Crash
    ensures StateValid(s')
  {
    var q := Tokenise(line, s.lastNER);
    var cmd := Classify(q.command);
    if q.numeric {
      var p := FileManager.PathByNER(s.cwd, listing, q.ner).value;
      DispatchedKeepsValid(s.(lastNER := q.ner, lastAnnotation := Lookup(s.notes, p)), s', o, faults,
                           cmd, q.ner, q.name, q.parts, listing);
    } else {
      DispatchedKeepsValid(s, s', o, faults, cmd, q.ner, q.name, q.parts, listing);
    }
  }

  /**
   * A line ends the session exactly when its command word is exit and its
   * reference, if numeric, is in the listing.
   */
  lemma ProcessedQuit(s: State, s': State, o: Outcome, faults: set<Path>, line: string, listing: seq<string>)
    requires StateValid(s) && Processed(s, s', o, faults, line, listing)
    ensures var q := Tokenise(line, s.lastNER);
            o == Quit <==> Classify(q.command) == Exit
                           && (q.numeric ==> FileManager.PathByNER(s.cwd, listing, q.ner).Some?)
  {
  }

  /** help, find, visu, the default command, note and an unknown word change nothing. */
  lemma ReadOnlyCommands(s: State, s': State, o: Outcome, faults: set<Path>, cmd: Command, ner: int,
                         name: string, parts: seq<string>, listing: seq<string>)
    requires StateValid(s) && Dispatched(s, s', o, faults, cmd, ner, name, parts, listing)
    requires cmd in {Help, Find, Visu, Default, Note, Unknown}
    ensures s' == s && o != Quit
  {
  }

  /**
   * The reference of a cut is looked up again once a pending cut has been
   * abandoned: with x and y listed and x cut, "2 cut" deletes x and finds
   * nothing at 2 in what is left, so x stays staged (gone from the disk)
   * and the cut stays pending.
   */
  lemma StaleReferenceAfterCut(s: State, s': State, o: Outcome, faults: set<Path>, parts: seq<string>)
    requires StateValid(s) && s.cutPending && s.toCopy == Some(s.cwd + ["x"])
    requires IsFile(s.fs, s.cwd + ["x"]) && s.cwd + ["x"] !in faults
    requires Dispatched(s, s', o, faults, Cut, 2, "", parts, ["x", "y"])
    ensures o == Continue && s'.toCopy == s.toCopy && s'.cutPending && s'.pasteType == "cut"
    ensures s.cwd + ["x"] !in s'.fs && s'.pathToCopy == s.pathToCopy
  {
    var x := s.cwd + ["x"];
    DoomedFile(s.fs, faults, x);
    ResolveName(s.cwd, "x");
    ResolveName(s.cwd, "y");
    assert s.cwd + ["y"] != x by {
      assert (s.cwd + ["y"])[|s.cwd|] != x[|s.cwd|];
    }
    assert ["x", "y"][1..] == ["y"];
    assert ["y"][1..] == [];
    assert Relist(["x", "y"], s.cwd, {x}) == ["y"];
  }

  /**
   * "." on a listed directory, then "..", comes back to where it started,
   * with nothing else changed.
   */
  lemma EnterThenUp(s: State, s1: State, o1: Outcome, s2: State, o2: Outcome, faults: set<Path>,
                    ner: int, parts: seq<string>, listing: seq<string>, parts2: seq<string>)
    requires StateValid(s) && 1 <= ner <= |listing|
    requires ValidName(listing[ner - 1]) && listing[ner - 1] != "retour"
    requires IsDir(s.fs, Resolve(s.cwd, listing[ner - 1]))
    requires Dispatched(s, s1, o1, faults, Enter, ner, "", parts, listing)
    requires StateValid(s1) && Dispatched(s1, s2, o2, faults, Up, ner, "", parts2, listing)
    ensures o1 == Continue && s1 == s.(cwd := s.cwd + [listing[ner - 1]])
    ensures o2 == Continue && s2 == s
  {
    ChangeDirRoundTrip(s.cwd, listing[ner - 1]);
  }

  /**
   * mkdir with a plain name, in a current directory that exists and holds
   * no dot segment, adds that entry as a directory when it is new and not
   * faulty, and changes nothing otherwise.
   */
  lemma MkdirByName(s: State, s': State, o: Outcome, faults: set<Path>, ner: int, name: string,
                    parts: seq<string>, listing: seq<string>)
    requires StateValid(s) && NoDots(s.cwd) && IsDir(s.fs, s.cwd) && ValidName(name) && !IsDot(name)
    requires Dispatched(s, s', o, faults, Command.Mkdir, ner, name, parts, listing)
    ensures var t := s.cwd + [name];
            o == Continue && s' == s.(fs := if t !in s.fs && t !in faults then s.fs[t := Dir] else s.fs)
  {
    ResolveName(s.cwd, name);
    CreateByName(s.fs, faults, s.cwd, name, Dir);
  }

  /** "mkdir .." names the parent, which exists: nothing changes. */
  lemma MkdirParent(s: State, s': State, o: Outcome, faults: set<Path>, ner: int,
                    parts: seq<string>, listing: seq<string>)
    requires StateValid(s) && NoDots(s.cwd) && IsDir(s.fs, s.cwd) && s.cwd != []
    requires Dispatched(s, s', o, faults, Command.Mkdir, ner, "..", parts, listing)
    ensures o == Continue && s' == s
  {
    ResolveName(s.cwd, "..");
    CreateInParent(s.fs, faults, s.cwd, "x", Dir);
  }

  /** "touch ../n" creates n.txt in the parent of the current directory. */
  lemma TouchInParent(s: State, s': State, o: Outcome, faults: set<Path>, ner: int, n: string,
                      parts: seq<string>, listing: seq<string>)
    requires StateValid(s) && NoDots(s.cwd) && IsDir(s.fs, s.cwd) && s.cwd != [] && ValidName(n + ".txt")
    requires Dispatched(s, s', o, faults, Touch, ner, "../" + n, parts, listing)
    ensures var t := s.cwd[..|s.cwd| - 1] + [n + ".txt"];
            o == Continue && s' == s.(fs := if t !in s.fs && t !in faults then s.fs[t := File([])] else s.fs)
  {
    ParentTextFile(s.cwd, n);
    CreateInParent(s.fs, faults, s.cwd, n + ".txt", File([]));
  }

  /** The name "../n" that touch extends with ".txt" resolves to two segments. */
  lemma ParentTextFile(cwd: Path, n: string)
    requires ValidName(n + ".txt")
    ensures !IsDot(n + ".txt")
    ensures Resolve(cwd, ("../" + n) + ".txt") == cwd + ["..", n + ".txt"]
  {
    var m := n + ".txt";
    assert |m| >= 4;
    assert ("../" + n) + ".txt" == Join(["..", m]);
    SegmentsOfJoin(["..", m]);
  }

  /**
   * delete on a listed entry with no faulty path below it removes its
   * whole subtree from the disk and from the store.
   */
  lemma DeleteCleanEntry(s: State, s': State, o: Outcome, faults: set<Path>, ner: int, name: string,
                         parts: seq<string>, listing: seq<string>)
    requires StateValid(s) && 1 <= ner <= |listing|
    requires Clean(s.fs, faults, Resolve(s.cwd, listing[ner - 1]))
    requires Dispatched(s, s', o, faults, Delete, ner, name, parts, listing)
    ensures var gone := Subtree(s.fs, Resolve(s.cwd, listing[ner - 1]));
            o == Continue && s'.fs == s.fs - gone && s'.notes == s.notes - gone
            && s'.lastNER == -1 && s'.lastAnnotation == ""
  {
    DoomedWithoutFaults(s.fs, faults, Resolve(s.cwd, listing[ner - 1]));
  }

  class Session {
    var cwd: Path
    var toCopy: Option<Path>
    var pathToCopy: seq<Path>
    var annotationsToCopy: seq<string>
    /** CommandHandler.type: "cut" after a cut, "" after a paste. */
    var pasteType: string
    /** CommandHandler.isToCut: the staged source goes away unless it is pasted. */
    var cutPending: bool
    var lastNER: int
    var lastAnnotation: string
    var fs: Tree
    var notes: Store
    /** The paths whose I/O calls throw an IOException. */
    const faults: set<Path>

    /** The fields as one value. */
    ghost function Snapshot(): State
      reads this
    {
      State(cwd, toCopy, pathToCopy, annotationsToCopy, pasteType, cutPending, lastNER, lastAnnotation, fs, notes)
    }

    ghost predicate Valid()
      reads this
    {
      StateValid(Snapshot())
    }

    /** A fresh shell in the start directory, nothing staged and no reference. */
    constructor(start: Path, disk: Tree, store: Store, broken: set<Path>)
      requires ValidPath(start) && FileTree.Valid(disk)
      ensures Valid()
      ensures cwd == start && fs == disk && notes == store && faults == broken
      ensures toCopy == None && pathToCopy == [] && annotationsToCopy == []
      ensures pasteType == "" && !cutPending
      ensures lastNER == -1 && lastAnnotation == ""
    {
      cwd, fs, notes, faults := start, disk, store, broken;
      toCopy, pathToCopy, annotationsToCopy := None, [], [];
      pasteType, cutPending := "", false;
      lastNER, lastAnnotation := -1, "";
    }

    /**
     * Files.delete followed by the purge of the entry's annotation: the
     * delete throws for a missing or faulty entry and for a directory that
     * still has entries, and then the annotation stays.
     */
    method RemoveEntry(p: Path) returns (removed: bool)
      modifies this`fs, this`notes
      requires FileTree.Valid(fs)
      ensures removed <==> p in old(fs) && p !in faults && !HasChildren(old(fs), p)
      ensures FileTree.Valid(fs)
      ensures fs == if removed then old(fs) - {p} else old(fs)
      ensures notes == if removed then old(notes) - {p} else old(notes)
    {
      if p !in fs || p in faults || HasChildren(fs, p) {
        return false;
      }
      RemoveLeaf(fs, p);
      fs := fs - {p};
      notes := notes - {p};
      return true;
    }

    /**
     * deleteFileOrDirectory: a directory has its entries deleted one by one
     * and is then deleted itself, which fails while anything is left inside;
     * each entry that goes loses its annotation. A failure on one entry is
     * caught there and the walk goes on with the next.
     */
    method DeleteFileOrDirectory(p: Path)
      modifies this`fs, this`notes
      requires FileTree.Valid(fs)
      ensures FileTree.Valid(fs)
      ensures fs == old(fs) - Doomed(old(fs), faults, p)
      ensures notes == old(notes) - Doomed(old(fs), faults, p)
      decreases |Subtree(fs, p)|
    {
      if IsDir(fs, p) && p !in faults {
        ghost var fs0, notes0 := fs, notes;
        var todo := Children(fs, p);
        ghost var done: set<Path> := {};
        LoopStart(fs, notes, faults, p);
        while todo != {}
          invariant todo + done == Children(fs0, p) && todo !! done
          invariant FileTree.Valid(fs)
          invariant fs == fs0 - DoomedBelow(fs0, faults, p, done)
          invariant notes == notes0 - DoomedBelow(fs0, faults, p, done)
          decreases todo
        {
          var c :| c in todo;
          ChildStep(fs0, faults, p, done, c);
          ghost var fsBefore, notesBefore := fs, notes;
          DeleteFileOrDirectory(c);
          LoopStep(fs0, notes0, faults, p, done, c, fsBefore, fs, notesBefore, notes);
          done := done + {c};
          todo := todo - {c};
        }
        DirDeleted(fs0, faults, p);
        MinusMinus(fs0, DoomedBelow(fs0, faults, p, done), {p});
        MinusMinus(notes0, DoomedBelow(fs0, faults, p, done), {p});
        var _ := RemoveEntry(p);
      } else {
        if IsFile(fs, p) && p !in faults {
          DoomedFile(fs, faults, p);
        } else {
          DoomedEmpty(fs, faults, p);
        }
        var _ := RemoveEntry(p);
      }
    }

    /** updateCurrentDir (see ChangeDir); the choice is not checked against the disk. */
    method UpdateCurrentDir(choice: string) returns (ok: bool)
      modifies this`cwd
      requires ValidPath(cwd)
      ensures ValidPath(cwd)
      ensures ok <==> ChangeDir(old(cwd), choice).Some?
      ensures cwd == if ok then ChangeDir(old(cwd), choice).value else old(cwd)
    {
      if choice != "retour" {
        cwd := Resolve(cwd, choice);
        return true;
      }
      var up := Parent(cwd);
      if up.None? {
        return false;
      }
      cwd := up.value;
      return true;
    }

    /**
     * mkdir: Files.exists, then Files.createDirectory, on cwd/dirName, with
     * the operating system resolving dot segments (see Create).
     */
    method Mkdir(dirName: string) returns (created: bool)
      modifies this`fs
      requires FileTree.Valid(fs)
      ensures FileTree.Valid(fs)
      ensures fs == Create(old(fs), faults, Resolve(cwd, dirName), Dir)
      ensures created <==> fs != old(fs)
    {
      var target := Locate(fs, Resolve(cwd, dirName));
      if target.None? || !CanCreate(fs, faults, target.value) {
        return false;
      }
      AddEntry(fs, target.value, Dir);
      fs := fs[target.value := Dir];
      assert target.value in fs;
      return true;
    }

    /**
     * createTextFile (touch): the same on cwd/(fileName + ".txt") with
     * Files.createFile; find from the current directory then reports the
     * new file.
     */
    method CreateTextFile(fileName: string) returns (created: bool)
      modifies this`fs
      requires FileTree.Valid(fs)
      ensures FileTree.Valid(fs)
      ensures fs == Create(old(fs), faults, Resolve(cwd, fileName + ".txt"), File([]))
      ensures created <==> fs != old(fs)
      ensures created && ValidName(fileName + ".txt") && NoDots(cwd) && cwd !in faults ==>
                cwd + [fileName + ".txt"] in Commande.Find(fs, faults, cwd, fileName + ".txt")
    {
      var name := fileName + ".txt";
      var target := Locate(fs, Resolve(cwd, name));
      if target.None? || !CanCreate(fs, faults, target.value) {
        return false;
      }
      AddEntry(fs, target.value, File([]));
      fs := fs[target.value := File([])];
      assert target.value in fs;
      if ValidName(name) && NoDots(cwd) {
        ResolveName(cwd, name);
        assert NoDots(cwd + [name]) by {
          assert |name| >= 4;
          assert forall i :: 0 <= i < |cwd| ==> (cwd + [name])[i] == cwd[i];
        }
        ParentOfResolvedName(cwd, name);
      }
      return true;
    }

    /**
     * copyFile (cut and copy): a pending cut is abandoned first, deleting
     * its source (with no source staged that throws); then the directory is
     * listed again and the reference is looked up in that listing (see
     * StagedClip).
     */
    method CopyFile(fileNER: int, isToCut: bool, listing: seq<string>) returns (crash: bool)
      modifies this`fs, this`notes, this`toCopy, this`pathToCopy, this`annotationsToCopy
      requires Valid()
      ensures crash <==> isToCut && old(toCopy).None?
      ensures crash ==> unchanged(this)
      ensures !crash ==> Valid()
      ensures fs == old(fs) - Abandoned(old(fs), faults, old(toCopy), isToCut)
      ensures notes == old(notes) - Abandoned(old(fs), faults, old(toCopy), isToCut)
      ensures !crash ==>
                StagedClip(old(Snapshot()), Snapshot(),
                           Relist(listing, cwd, Abandoned(old(fs), faults, old(toCopy), isToCut)), fileNER)
    {
      var before := fs;
      if isToCut {
        if toCopy.None? {
          return true;
        }
        DeleteFileOrDirectory(toCopy.value);
        DoomedWithinSubtree(before, faults, old(toCopy).value);
      }
      assert before.Keys - fs.Keys == Abandoned(before, faults, old(toCopy), isToCut);
      var relisted := Relist(listing, cwd, before.Keys - fs.Keys);
      if fileNER < 1 || fileNER > |relisted| {
        return false;
      }
      var theCopy := Resolve(cwd, relisted[fileNER - 1]);
      toCopy := Some(theCopy);
      if IsDir(fs, theCopy) {
        pathToCopy, annotationsToCopy := CollectManifest(fs, notes, theCopy);
      } else {
        pathToCopy, annotationsToCopy := [theCopy], [Lookup(notes, theCopy)];
      }
      return false;
    }

    /** pasteFile: duplicates the staged source into the current directory (see Paste). */
    method PasteFile(kind: string) returns (crash: bool)
      modifies this`fs, this`notes
      requires Valid()
      ensures Valid()
      ensures PasteResult(fs, notes, crash)
              == Paste(old(fs), old(notes), faults, cwd, toCopy, pathToCopy, annotationsToCopy, kind)
    {
      if toCopy.None? {
        return false;
      }
      var src := toCopy.value;
      var target := PasteTarget(cwd, src, kind);
      if target.None? {
        return true;
      }
      var srcIsDir := IsDir(fs, src);
      var copied := Duplicate(fs, faults, src, target.value);
      if copied.None? {
        return false;
      }
      fs := copied.value;
      if srcIsDir {
        notes := Replay(notes, target.value, pathToCopy, annotationsToCopy);
      } else {
        if annotationsToCopy == [] {
          return true;
        }
        notes := Add(notes, target.value, annotationsToCopy[0]);
      }
      if kind == "cut" && target.value != src {
        DeleteFileOrDirectory(src);
      }
      return false;
    }

    /** executeCommandeOnAnnotation (see Annotated). */
    method ExecuteCommandeOnAnnotation(ner: int, command: string, parts: seq<string>, listing: seq<string>)
      returns (crash: bool)
      modifies this`notes, this`lastAnnotation
      ensures Annotated(old(Snapshot()), Snapshot(), if crash then Crash else Continue, command, ner, parts, listing)
    {
      if command == "+" {
        if ner > 0 && |parts| > 2 {
          var path := FileManager.PathByNER(cwd, listing, ner);
          if path.None? {
            return true;
          }
          notes := Add(notes, path.value, parts[2]);
          lastAnnotation := Lookup(notes, path.value);
        }
      } else {
        if ner > 0 {
          var path := FileManager.PathByNER(cwd, listing, ner);
          if path.None? {
            return true;
          }
          notes := Remove(notes, path.value);
          lastAnnotation := "";
        }
      }
      return false;
    }

    /**
     * The cut and copy commands on the listed entry ner: copyFile, then cut
     * records the paste type "cut" and marks the cut pending, copy clears
     * the mark.
     */
    method Stage(cut: bool, ner: int, listing: seq<string>)
      modifies this`fs, this`notes, this`toCopy, this`pathToCopy, this`annotationsToCopy,
               this`pasteType, this`cutPending
      requires Valid() && 1 <= ner <= |listing|
      ensures Valid()
      ensures Staged(old(Snapshot()), Snapshot(), faults, cut, ner, listing)
    {
      var _ := CopyFile(ner, cutPending, listing);
      if cut {
        pasteType, cutPending := "cut", true;
      } else {
        cutPending := false;
      }
    }

    /** The commands of processCommand that act on the listed entry ner (see Listed). */
    method RunListed(cmd: Command, ner: int, name: string, listing: seq<string>) returns (outcome: Outcome)
      modifies this
      requires Valid()
      ensures outcome != Crash ==> Valid()
      ensures Listed(old(Snapshot()), Snapshot(), outcome, faults, cmd, ner, name, listing)
    {
      if ner < 1 || ner > |listing| {
        return Crash;
      }
      var actualName := listing[ner - 1];
      if name != "" && name != actualName {
        return Continue;
      }
      match cmd {
        case Cut | Copy =>
          Stage(cmd == Cut, ner, listing);
        case Enter =>
          if IsDir(fs, Resolve(cwd, actualName)) {
            var ok := UpdateCurrentDir(actualName);
            if !ok {
              return Crash;
            }
          }
        case _ =>
      }
      return Continue;
    }

    /**
     * processCommand on one input line, with the listing of the current
     * directory as it stands when the line is read (see Processed).
     * Exceptions that escape end the session (Crash).
     */
    method ProcessCommand(line: string, listing: seq<string>) returns (outcome: Outcome)
      modifies this
      requires Valid()
      ensures outcome != Crash ==> Valid()
      ensures Processed(old(Snapshot()), Snapshot(), outcome, faults, line, listing)
    {
      var q := Tokenise(line, lastNER);
      var ner := q.ner;
      if q.numeric {
        lastNER := ner;
        var path := FileManager.PathByNER(cwd, listing, ner);
        if path.None? {
          return Crash;
        }
        lastAnnotation := Lookup(notes, path.value);
      }
      outcome := Dispatch(Classify(q.command), ner, q.name, q.parts, listing);
    }

    /** The switch of processCommand (see Dispatched). */
    method Dispatch(cmd: Command, ner: int, name: string, parts: seq<string>, listing: seq<string>)
      returns (outcome: Outcome)
      modifies this
      requires Valid()
      ensures outcome != Crash ==> Valid()
      ensures Dispatched(old(Snapshot()), Snapshot(), outcome, faults, cmd, ner, name, parts, listing)
    {
      match cmd {
        case Up =>
          var ok := UpdateCurrentDir("retour");
          if !ok {
            return Crash;
          }
        case Cut | Copy | Visu | Default | Enter =>
          outcome := RunListed(cmd, ner, name, listing);
          return;
        case Help =>
        case Find =>
        case Delete | Past | Mkdir | Touch | AddNote | RemoveNote =>
          outcome := Edit(cmd, ner, name, parts, listing);
          return;
        case Note =>
          if ner > 0 && FileManager.PathByNER(cwd, listing, ner).None? {
            return Crash;
          }
        case Exit =>
          if cutPending {
            DeleteFileOrDirectory(toCopy.value);
          }
          return Quit;
        case Unknown =>
      }
      return Continue;
    }

    /** The commands of processCommand that change the disk or the annotations (see Edited). */
    method Edit(cmd: Command, ner: int, name: string, parts: seq<string>, listing: seq<string>)
      returns (outcome: Outcome)
      modifies this
      requires Valid()
      ensures outcome != Crash ==> Valid()
      ensures Edited(old(Snapshot()), Snapshot(), outcome, faults, cmd, ner, name, parts, listing)
    {
      match cmd {
        case Delete =>
          var path := FileManager.PathByNER(cwd, listing, ner);
          if path.None? {
            return Crash;
          }
          DeleteFileOrDirectory(path.value);
          lastAnnotation, lastNER := "", -1;
        case Past =>
          var crash := PasteFile(pasteType);
          if crash {
            return Crash;
          }
          cutPending, pasteType := false, "";
        case Mkdir =>
          if name != "" {
            var _ := Mkdir(name);
          }
        case Touch =>
          if name != "" {
            var _ := CreateTextFile(name);
          }
        case AddNote =>
          var crash := ExecuteCommandeOnAnnotation(ner, "+", parts, listing);
          if crash {
            return Crash;
          }
        case RemoveNote =>
          var crash := ExecuteCommandeOnAnnotation(ner, "-", parts, listing);
          if crash {
            return Crash;
          }
        case _ =>
      }
      return Continue;
    }
  }
}
