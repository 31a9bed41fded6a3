# A verified model of the file-browser shell

The shell shows the entries of a current directory, numbered from 1. A
number is an NER (numéro d'élément de référence). Commands act on an NER.
They navigate (`.`, `..`), stage an entry on a one-slot clipboard (`cut`,
`copy`), paste it into the current directory (`past`), delete entries
recursively (`delete`), create directories and text files (`mkdir`,
`touch`), search (`find`) and keep a text annotation per path (`+`, `-`,
`note`). This project models that core in Dafny and proves what it does.

- `Paths`: absolute paths as sequences of name segments. Covers
  `Path.resolve`, `getParent`, `getFileName`, `toString`, `normalize` and
  the segment arithmetic of `relativize`. As in java.nio, resolve does no
  normalisation.
- `FileTree`: the disk as a map from paths to nodes, closed under parents.
  A set of faulty paths stands for the entries on which every I/O call
  throws an `IOException`. The recursive delete is specified here, as the
  set `Doomed` of entries it removes. So are the duplication step of a
  paste (`Files.copy` and `FileUtils.copyDirectory`) and the creation of
  an entry (`Files.exists`, then `Files.createDirectory` or
  `Files.createFile`). Creation goes through `Locate`, the operating
  system's lookup of a path, which resolves `.` and `..` against the disk.
- `Annotations`: the annotation store as a map from paths to texts. Covers
  the manifest that staging a directory records and the replay of that
  manifest under a pasted directory.
- `FileManager`: the pure parts of `FileManager`:
  - NER resolution against a listing;
  - the text-file scan over decoded code points;
  - the image-name test;
  - `getRelativePath`, with the normalisation `relativize` applies when a
    path holds a dot segment and both of its refusals.
- `Commande`: the name a paste gives its target, and `find`.
- `CommandHandler`: the pure front half of `processCommand`:
  - the `split("\\s+", 3)` of the input line;
  - `Integer.parseInt`;
  - the split into reference, command and name;
  - the classification of the command word.
- `Shell`: one class `Session` holds all the state the program spreads over
  `FileManager` and `CommandHandler`:
  - the current directory;
  - the clipboard: `toCopy`, `pathToCopy`, `annotationsToCopy`, `type` and
    `isToCut`;
  - the last NER and the last annotation;
  - the disk and the annotation store.

  The same state as a value is the datatype `State`. For each part of
  `processCommand`, a ghost predicate relates the state before to the
  state after and the outcome:
  - `Processed`: the numeric step, then the dispatch;
  - `Dispatched`: the switch on the command word;
  - `Listed`: the commands on a listed entry;
  - `Staged`: cut and copy;
  - `Edited`: the commands that change the disk or the store;
  - `Annotated`: `+` and `-`.

  Its methods are the commands, each proved against a specification:
  - `DeleteFileOrDirectory` removes exactly `Doomed`, from both the disk
    and the store;
  - `PasteFile` ends in the state given by the function `Paste`;
  - `ProcessCommand`, `Dispatch`, `RunListed`, `Stage`, `Edit` and
    `ExecuteCommandeOnAnnotation` end in a state their relation allows.

  Lemmas about the relations state the effect of individual commands, and
  that every step that does not crash keeps the state well formed.

  An exception that escapes `processCommand` ends the interactive loop.
  The model reports it as the outcome `Crash`.

Two facts about the code as written are proved as lemmas:
- `Shell.CutPasteInPlace`: cutting a file and pasting it back into its own
  directory leaves the disk alone but adds the staged annotation to the
  file a second time, so the annotation is doubled.
- `CommandHandler.Tokenise` together with `Shell.Session.ProcessCommand`: a
  numeric first word past the end of the listing sets the last NER before
  the null dereference ends the session.

## Model

| member | source | states |
|---|---|---|
| Paths.Resolve | src/main/java/fr/uvsq/cprog/FileManager.java:207-209 | resolving keeps a path well formed; a relative name extends the base (the base is a prefix of the result) |
| Paths.Parent | src/main/java/fr/uvsq/cprog/FileManager.java:211-213 | getParent is null exactly at the root, otherwise the path one segment shorter |
| Paths.FileName | src/main/java/fr/uvsq/cprog/Commande.java:139-141 | getFileName is null exactly at the root |
| Paths.ResolveName | src/main/java/fr/uvsq/cprog/FileManager.java:291-294 | resolving a single entry name appends exactly that name |
| Paths.ResolveAbsolute | src/test/java/fr/uvsq/cprog/CommandeTest.java:51 | resolving an absolute path string replaces the current directory outright |
| Paths.ParentOfResolvedName | src/main/java/fr/uvsq/cprog/FileManager.java:206-220 | entering a name and going back up returns to the base; the entered path's file name is that name |
| Paths.PathStringInjective | src/main/java/fr/uvsq/cprog/FileManager.java:264-266 | distinct paths print differently, so annotation keys by path string and by path agree |
| Paths.RelativizeFromAncestor | src/main/java/fr/uvsq/cprog/FileManager.java:313-314 | after any normalisation, relativize against an ancestor has the whole base as common prefix and leaves the segments below it |
| Paths.NormalizeFrom | src/main/java/fr/uvsq/cprog/FileManager.java:313-314 | normalising onto a normal prefix leaves no "." (and no ".." in an absolute path), and appends a path without dot segments unchanged |
| Paths.Normalize | src/main/java/fr/uvsq/cprog/FileManager.java:313-314 | normalize leaves no ".", no ".." in an absolute path, and changes nothing in a path without dot segments |
| FileManager.PathByNER | src/main/java/fr/uvsq/cprog/FileManager.java:289-297 | a path is returned exactly when 1 <= ner <= size of the listing (an unreadable directory lists empty, so then never) |
| FileManager.PathByNEREntry | src/main/java/fr/uvsq/cprog/FileManager.java:291-294 | a valid NER gives cwd plus the listed name, whose parent is cwd and whose file name is that name |
| FileManager.BinaryCodePointRanges | src/main/java/fr/uvsq/cprog/FileManager.java:116-117 | an ISO control that is not whitespace is exactly a code point in 0x00-0x08, 0x0E-0x1B or 0x7F-0x9F |
| FileManager.IsTextFile | src/main/java/fr/uvsq/cprog/FileManager.java:108-129 | the scan answers true exactly when the content decodes and no code point is binary |
| FileManager.TextEdgeCases | src/main/java/fr/uvsq/cprog/FileManager.java:108-129 | an empty file is text, an unreadable entry is not, tab/newline/accents are text, a NUL is not |
| FileManager.ToLowerAscii | src/main/java/fr/uvsq/cprog/FileManager.java:139 | lower-casing keeps the length and maps each character on its own |
| FileManager.EndsWithAny | src/main/java/fr/uvsq/cprog/FileManager.java:140 | true exactly when some listed suffix ends the name |
| FileManager.ImageNameCaseInsensitive | src/main/java/fr/uvsq/cprog/FileManager.java:138-141 | the image test gives the same answer for a name and its lower-cased form |
| FileManager.ImageNameHasExtension | src/main/java/fr/uvsq/cprog/FileManager.java:66-67 | an accepted name is at least four characters long and holds the dot of its extension |
| FileManager.ImageNameExamples | src/main/java/fr/uvsq/cprog/Commande.java:276-279 | "A.PNG" is an image name, "a.txt" is not |
| FileManager.GetRelativePath | src/main/java/fr/uvsq/cprog/FileManager.java:308-321 | relativize throws the mixed-kinds refusal exactly when one path is absolute and the other is not; the refusal of a ".." left in the base only happens for a relative base that holds a dot segment |
| FileManager.RelativePathOfDescendant | src/main/java/fr/uvsq/cprog/FileManager.java:308-321 | for paths without dot segments and a base that is an ancestor, the result is the remaining segments, and resolving it against the base gives the full path back |
| FileManager.RelativePathNormalised | src/main/java/fr/uvsq/cprog/FileManager.java:308-321 | between absolute paths the result is never refused; when the normalised base is an ancestor of the normalised full path, it is the rest of the normalised full path |
| FileManager.RelativePathPlain | src/main/java/fr/uvsq/cprog/FileManager.java:308-321 | between absolute paths without dot segments the result is one ".." per base segment below the common prefix, then the rest of the full path |
| FileManager.RelativePathDotExample | src/main/java/fr/uvsq/cprog/FileManager.java:313-314 | "/a/./b" against "/a" is "b" |
| FileManager.RelativePathSiblingExample | src/main/java/fr/uvsq/cprog/FileManager.java:313-314 | "/a/b" against "/a/c" is "../b" |
| FileManager.RelativePathRefusedExample | src/main/java/fr/uvsq/cprog/FileManager.java:313-314 | "b" against "../a" is refused |
| FileTree.DoomedWithinSubtree | src/main/java/fr/uvsq/cprog/FileManager.java:255-276 | a delete removes nothing outside the subtree it starts at |
| FileTree.DoomedWithoutFaults | src/main/java/fr/uvsq/cprog/FileManager.java:255-276 | when no I/O call fails, the delete removes the whole subtree, the start included |
| FileTree.DoomedEmpty | src/main/java/fr/uvsq/cprog/FileManager.java:255-276 | a delete of a missing or faulty entry removes nothing |
| FileTree.DoomedFile | src/main/java/fr/uvsq/cprog/FileManager.java:267-270 | a sound file deletes just itself |
| FileTree.CleanIffChildrenDoomed | src/main/java/fr/uvsq/cprog/FileManager.java:257-266 | a sound directory has no fault below it exactly when each of its entries is deleted entirely |
| FileTree.DoomedDir | src/main/java/fr/uvsq/cprog/FileManager.java:257-266 | a directory's delete is its entries' deletes, plus itself exactly when every entry went |
| FileTree.AddEntry | src/main/java/fr/uvsq/cprog/Commande.java:213-215 | creating an entry inside an existing directory keeps the tree closed under parents |
| FileTree.DoomedKeepsValid | src/main/java/fr/uvsq/cprog/FileManager.java:255-276 | what a recursive delete leaves is still closed under parents |
| FileTree.LocateFrom | src/main/java/fr/uvsq/cprog/Commande.java:211-215 | the lookup of a path without dot segments reaches it as written or fails; what it reaches holds no dot segment |
| FileTree.Locate | src/main/java/fr/uvsq/cprog/Commande.java:211-215 | the operating system reaches a path without dot segments as written or not at all, and never reaches a path holding a dot segment |
| FileTree.LocateThrough | src/main/java/fr/uvsq/cprog/Commande.java:211-215 | below an existing directory without dot segments, the lookup goes on from that directory |
| FileTree.Create | src/main/java/fr/uvsq/cprog/Commande.java:210-225 | exists-then-create keeps the tree well formed, changes no existing entry and adds at most one entry, not faulty, without dot segments, of the requested kind |
| FileTree.CreateByName | src/main/java/fr/uvsq/cprog/Commande.java:210-225 | a plain name in an existing directory is created exactly when it is new and not faulty |
| FileTree.CreateInParent | src/main/java/fr/uvsq/cprog/Commande.java:372-388 | ".." names the existing parent, so nothing is created; a name after ".." is looked up in the parent and created there exactly when it is new and not faulty |
| FileTree.CopyDir | src/main/java/fr/uvsq/cprog/Commande.java:162-165 | copyDirectory adds a copy of every source-subtree entry below the target, merging into what is there and leaving other entries as they were |
| FileTree.CopyDirValid | src/main/java/fr/uvsq/cprog/Commande.java:162-165 | a copy into an existing directory without kind clashes keeps the tree closed under parents |
| FileTree.Duplicate | src/main/java/fr/uvsq/cprog/Commande.java:160-174 | a successful duplicate keeps the tree well formed and every old entry; a file copy adds exactly the target, a directory copy needs a fault-free source; a faulty target, or for a directory any faulty path the copy would write, is refused |
| Annotations.Lookup | src/test/java/fr/uvsq/cprog/AnnotationManagerTest.java:104-117 | findAnnotation gives "" for a path without a record |
| Annotations.Add | src/main/java/fr/uvsq/cprog/Commande.java:352-355 | annotationAdd appends the text to the path's record (creating it) and leaves every other path's record as it was |
| Annotations.Remove | src/test/java/fr/uvsq/cprog/AnnotationManagerTest.java:119-136 | deleteAnnotationNER drops the path's record and leaves every other record as it was |
| Annotations.AddTwice | src/main/java/fr/uvsq/cprog/Commande.java:352-355 | two additions are one addition of the concatenated text |
| Annotations.RemoveAfterAdd | src/main/java/fr/uvsq/cprog/Commande.java:356-358 | removing after adding forgets the addition |
| Annotations.HelloWorld | src/main/java/fr/uvsq/cprog/Commande.java:352-358 | "hello", then "world", read back as "hello" and "helloworld"; after the removal, "" |
| Annotations.CollectManifest | src/main/java/fr/uvsq/cprog/Commande.java:104-111 | staging a directory records each file of its subtree once, by its path relative to the directory, with its annotation |
| Annotations.ReplayEffect | src/main/java/fr/uvsq/cprog/Commande.java:170-172 | replaying a manifest below a target gives each listed copy its staged text and leaves every other record as it was |
| Commande.LastIndexOf | src/main/java/fr/uvsq/cprog/Commande.java:144 | lastIndexOf gives -1 or a position of the dot, with no dot after it |
| Commande.SplitNameParts | src/main/java/fr/uvsq/cprog/Commande.java:144-150 | base name plus extension is the name; the extension is empty exactly when there is no dot, otherwise it starts with the only dot it holds |
| Commande.PasteName | src/main/java/fr/uvsq/cprog/Commande.java:154-156 | a cut keeps the name; any other paste lengthens it by "-copy" |
| Commande.PasteNameKeepsExtension | src/main/java/fr/uvsq/cprog/Commande.java:154-156 | the copy's name splits into the base name plus "-copy" and the original extension |
| Commande.PasteNameValid | src/main/java/fr/uvsq/cprog/Commande.java:154-158 | the target name is still a single path segment |
| Commande.PasteNameExamples | src/test/java/fr/uvsq/cprog/CommandeTest.java:55-65 | testFile.txt gives testFile-copy.txt, a.txt gives a-copy.txt, archive.tar.gz gives archive.tar-copy.gz, a directory name gets -copy at its end, a cut keeps a.txt |
| Commande.Find | src/main/java/fr/uvsq/cprog/Commande.java:287-298 | find reports exactly the sound regular files at or below the current directory whose last segment is the name, and nothing when the current directory is missing or faulty |
| CommandHandler.SplitWs | src/main/java/fr/uvsq/cprog/CommandHandler.java:127 | the split gives between one and three parts |
| CommandHandler.SplitWsParts | src/main/java/fr/uvsq/cprog/CommandHandler.java:127 | no part but the last holds whitespace, and the last holds none unless the limit was reached |
| CommandHandler.SplitWsSqueeze | src/main/java/fr/uvsq/cprog/CommandHandler.java:127 | the parts joined with single spaces are the line, up to the length of whitespace runs |
| CommandHandler.ParseInt | src/main/java/fr/uvsq/cprog/CommandHandler.java:133 | parseInt only yields values in the 32-bit range |
| CommandHandler.ParseShowInt | src/main/java/fr/uvsq/cprog/CommandHandler.java:133 | every 32-bit int parses back from its decimal form |
| CommandHandler.ParseShowIntOutOfRange | src/main/java/fr/uvsq/cprog/CommandHandler.java:133 | a number outside the 32-bit range is refused |
| CommandHandler.ParseIntRefusals | src/main/java/fr/uvsq/cprog/CommandHandler.java:133 | the empty text, a lone sign and a word are refused; "+7" is 7 |
| CommandHandler.Tokenise | src/main/java/fr/uvsq/cprog/CommandHandler.java:127-152 | the line is numeric exactly when its first part parses; then ner is that number, else ner is the last NER and the command is the first part |
| CommandHandler.TokeniseReference | src/main/java/fr/uvsq/cprog/CommandHandler.java:132-144 | "n command rest" gives reference n, that command, and the rest of the line as name |
| CommandHandler.TokeniseBareReference | src/main/java/fr/uvsq/cprog/CommandHandler.java:138-140 | "n" alone gives reference n with the command "default" and no name |
| CommandHandler.TokeniseCommand | src/main/java/fr/uvsq/cprog/CommandHandler.java:145-152 | "command name" keeps the last NER, with the first word as command and the second as name |
| CommandHandler.Classify | src/main/java/fr/uvsq/cprog/CommandHandler.java:156-269 | a recognised word is the case label of the command it selects |
| CommandHandler.ClassifyLabel | src/main/java/fr/uvsq/cprog/CommandHandler.java:156-269 | every case label selects its own command |
| Shell.PasteTarget | src/main/java/fr/uvsq/cprog/Commande.java:139-158 | there is a paste target exactly when the source has a file name |
| Shell.PasteTargetPlace | src/main/java/fr/uvsq/cprog/Commande.java:139-158 | the target is cwd plus the pasted name; a copy never lands on its source; a cut lands on it exactly when cwd is the source's directory |
| Shell.CutPasteMovesFile | src/main/java/fr/uvsq/cprog/Commande.java:173-192 | a cut file pasted into another directory where its name is free and not faulty is moved: the source and its record go, the target holds its contents and the staged annotation |
| Shell.CutPasteInPlace | src/main/java/fr/uvsq/cprog/Commande.java:173-192 | a cut file pasted into its own directory leaves the disk unchanged and appends the staged annotation again, doubling it |
| Shell.CopyPasteFile | src/main/java/fr/uvsq/cprog/Commande.java:173-180 | a copied file whose "-copy" name is free and not faulty is added with the source's contents and the staged annotation; nothing else changes |
| Shell.PasteOntoExisting | src/main/java/fr/uvsq/cprog/Commande.java:173-196 | a file pasted onto another existing entry fails with nothing changed |
| Shell.PasteOntoFaulty | src/main/java/fr/uvsq/cprog/Commande.java:173-196 | a paste whose target is faulty fails before any annotation or deletion: nothing changes |
| Shell.CopyPasteDir | src/main/java/fr/uvsq/cprog/Commande.java:161-172 | a copied clean directory whose copy writes no faulty path is duplicated below the target, every manifest file's copy gains its staged annotation, and every other record is kept |
| Shell.PasteKeepsValid | src/main/java/fr/uvsq/cprog/Commande.java:138-201 | a paste keeps the disk closed under parents |
| Shell.Relist | src/main/java/fr/uvsq/cprog/Commande.java:84-92 | the second listing holds exactly the listed names the abandonment did not delete, and is the line's listing when nothing was deleted |
| Shell.ChangeDir | src/main/java/fr/uvsq/cprog/FileManager.java:206-220 | "retour" fails exactly at the root and otherwise gives the parent; any other word gives a path, a plain name one level down |
| Shell.ChangeDirRoundTrip | src/main/java/fr/uvsq/cprog/FileManager.java:206-220 | entering a name and going back up returns to the start |
| Shell.StagedKeepsValid | src/main/java/fr/uvsq/cprog/CommandHandler.java:171-179 | cut and copy keep the state well formed |
| Shell.DispatchedKeepsValid | src/main/java/fr/uvsq/cprog/CommandHandler.java:156-269 | no command that goes on leaves the state ill formed |
| Shell.ProcessedKeepsValid | src/main/java/fr/uvsq/cprog/CommandHandler.java:126-271 | every line that does not crash keeps the state well formed |
| Shell.ProcessedQuit | src/main/java/fr/uvsq/cprog/CommandHandler.java:260-266 | a line ends the session exactly when its command is exit and its numeric reference, if any, is listed |
| Shell.ReadOnlyCommands | src/main/java/fr/uvsq/cprog/CommandHandler.java:156-269 | help, find, visu, the default command, note and an unknown word leave the state as it was |
| Shell.StaleReferenceAfterCut | src/main/java/fr/uvsq/cprog/Commande.java:84-95 | with x cut and x, y listed, "2 cut" deletes x and then finds no entry 2, so x stays staged and the cut stays pending |
| Shell.EnterThenUp | src/main/java/fr/uvsq/cprog/CommandHandler.java:157-158 | "." on a listed directory and then ".." returns to the starting state |
| Shell.MkdirByName | src/main/java/fr/uvsq/cprog/CommandHandler.java:225-231 | mkdir with a plain name adds that directory when it is new and not faulty, and changes nothing else |
| Shell.MkdirParent | src/main/java/fr/uvsq/cprog/Commande.java:214-219 | "mkdir .." finds the parent existing and changes nothing |
| Shell.TouchInParent | src/main/java/fr/uvsq/cprog/Commande.java:372-388 | "touch ../n" creates n.txt in the parent directory when it is new and not faulty |
| Shell.DeleteCleanEntry | src/main/java/fr/uvsq/cprog/CommandHandler.java:214-219 | delete on an entry with no fault below removes its whole subtree from disk and store and resets the last NER and annotation |
| Shell.Session.constructor | src/main/java/fr/uvsq/cprog/FileManager.java:97-99 | a new shell starts in its start directory with nothing staged, no type, no pending cut and no last NER |
| Shell.Session.RemoveEntry | src/main/java/fr/uvsq/cprog/FileManager.java:264-270 | Files.delete succeeds exactly for an existing, sound, empty entry, and only then is its annotation removed |
| Shell.Session.DeleteFileOrDirectory | src/main/java/fr/uvsq/cprog/FileManager.java:255-276 | the disk and the annotation store both lose exactly the doomed entries; the tree stays well formed |
| Shell.Session.UpdateCurrentDir | src/main/java/fr/uvsq/cprog/FileManager.java:206-220 | the new cwd is the one ChangeDir gives; when it fails (at the root) cwd is unchanged |
| Shell.Session.Mkdir | src/main/java/fr/uvsq/cprog/Commande.java:210-225 | the disk becomes Create of cwd/name as a directory; the result says whether anything was added |
| Shell.Session.CreateTextFile | src/main/java/fr/uvsq/cprog/Commande.java:372-388 | the disk becomes Create of cwd/(name + ".txt") as an empty file; the result says whether anything was added; find then reports a plain new name in a sound current directory |
| Shell.Session.CopyFile | src/main/java/fr/uvsq/cprog/Commande.java:82-127 | a pending cut is abandoned first (null source: throws, nothing changes); the NER is then looked up in the listing without the deleted entries: out of range keeps the clipboard, otherwise the entry is staged with its annotation, or with its manifest for a directory |
| Shell.Session.PasteFile | src/main/java/fr/uvsq/cprog/Commande.java:138-201 | the new disk, store and exception are those of Paste on the staged clipboard; the clipboard itself is kept |
| Shell.Session.ExecuteCommandeOnAnnotation | src/main/java/fr/uvsq/cprog/CommandHandler.java:273-295 | the new state is the one Annotated allows: "+" appends the third part to the entry's annotation and shows it, "-" removes it, both only for ner > 0; a positive NER past the listing throws |
| Shell.Session.Stage | src/main/java/fr/uvsq/cprog/CommandHandler.java:171-179 | the new state is the one Staged allows: the pending cut abandoned, the entry found in the second listing staged with its manifest or annotation, cut marked pending with type "cut", copy unmarked with the type kept |
| Shell.Session.RunListed | src/main/java/fr/uvsq/cprog/CommandHandler.java:160-210 | the new state is the one Listed allows: an NER past the listing throws with nothing changed, a mismatched name changes nothing, cut and copy stage, "." enters a directory, visu and default change nothing |
| Shell.Session.Edit | src/main/java/fr/uvsq/cprog/CommandHandler.java:214-251 | the new state is the one Edited allows: delete removes the doomed entries from disk and store and resets the last NER and annotation; past applies Paste and clears type and pending cut; mkdir and touch apply Create; "+" and "-" as Annotated |
| Shell.Session.Dispatch | src/main/java/fr/uvsq/cprog/CommandHandler.java:156-269 | the new state is the one Dispatched allows: ".." goes up (throwing at the root), exit abandons a pending cut and ends the loop, the other words as their relations say |
| Shell.Session.ProcessCommand | src/main/java/fr/uvsq/cprog/CommandHandler.java:126-271 | the new state is the one Processed allows: a numeric first word sets the last NER and the annotation shown (throwing past the listing), then the command word acts as Dispatched says |

## Left out

- The interactive loop `handleCommands`: the prompts, the `Scanner`, the
  printed messages and the logging. Its exception handlers end the loop;
  the model returns `Crash` instead.
- `help`, the listing with colours, `visu` and the Swing image windows
  only print or draw. Their commands change no state, and the model says
  exactly that.
- `App.main` only wires the objects together.
- `AnnotationManager` is not part of this model; its source is not
  available. Its store is a map from paths to texts with the contract
  fixed by its call sites, the help text and its tests. Two of its helpers
  are assumed:
  - `findAddToCopy` records the files (not the directories) of the subtree;
  - `addAnnotationToDirectory` appends each non-empty text below the target.

  The JSON file behind the store is not modelled.
- Annotation keys are paths rather than path strings.
  `Paths.PathStringInjective` shows the two agree.
- The order of `Files.list`, `Files.walk` and directory streams. A listing
  is an input taken when the line is read. The second listing `copyFile`
  takes after abandoning a pending cut is that listing without the deleted
  entries, in the same order (`Shell.Relist`). The walks are modelled as
  sets.
- Lookups of listed entries (delete, cut, copy, `.`, `+`, `-`) use the
  resolved path as the disk key directly. `Files.list` never yields `.` or
  `..`, so only `mkdir` and `touch`, which take a typed name, go through
  the operating system's lookup `FileTree.Locate`. Symbolic links are not
  modelled.
- UTF-8 decoding in `isTextFile`. The decoded code points, or a failure,
  are the input.
- The failure points of the real file system. A fixed set of faulty paths
  makes every I/O call on them throw, while `Files.isDirectory` never
  fails. Two effects of the libraries are not modelled:
  - a copy that fails half-way leaves a partial copy;
  - `copyDirectory` creates missing parent directories.

  The model refuses such copies as a whole.
- File contents are opaque data. `Files.copy` copies them and
  `FileUtils.copyDirectory` overwrites existing files.
- `Paths.Resolve`: `Path.resolve` does not normalise `.` or `..`, and
  neither does the model; `relativize` does (`Paths.Normalize`).
- `Commande.Find`: the `UncheckedIOException` that `Files.walk` raises
  half-way through, on a faulty directory below the current one, is not
  modelled. In the program it escapes `processCommand` and ends the
  session; the model reports every sound matching file below. A missing
  or faulty current directory (the caught `IOException`) and faulty files
  (`isRegularFile` answers false) are modelled.
- `FileManager.ToLowerAscii`: lower-cases ASCII letters only; Java's
  `toLowerCase` also maps other Unicode letters.
- `CommandHandler.ParseInt`: accepts ASCII digits only; `Integer.parseInt`
  also accepts other Unicode decimal digits.
- The `commandParts.length < 1` branch of `processCommand` cannot be taken:
  a split always yields at least one part (`CommandHandler.SplitWs`).
- `Shell.Session.Stage`, `RunListed`, `Dispatch`, `Edit` and `RemoveEntry`
  are pieces of `processCommand` and `deleteFileOrDirectory`, split out so
  that each proof stays small. They are not methods of the program.
