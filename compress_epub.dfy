/**
 The converter end to end: `compress_epub_folder` for one publication folder
 of the input directory, and the driver that selects the `*.epub` folders,
 converts them one after another into `compressed_epubs` and sets the exit
 status.
 */
module CompressEpub {
  import opened Wrappers
  import opened Paths
  import opened FileTree
  import opened Container
  import opened BookName
  import opened Staging
  import opened Archive

  /** The output directory, created inside the input directory. */
  const OutputDirName: Name := "compressed_epubs"

  /** Why the conversion of one folder raises. */
  datatype Failure =
    | OutputDirIsFile         // `os.makedirs(..., exist_ok=True)` finds a file in the way
    | StagingFailed(error: Error)

  /** The archive written for one folder, under its name in the output directory. */
  datatype Output = Output(fileName: Name, entries: seq<Entry>)

  /** `os.walk` reports only files of the tree it walks. */
  ghost predicate ListsOnlyFiles(walkOf: Tree -> seq<WalkStep>) {
    forall t :: ListsFiles(walkOf(t), t)
  }

  /** `os.walk` of a real tree is a walk of it: every file once, in some order. */
  ghost predicate WalksEveryTree(walkOf: Tree -> seq<WalkStep>) {
    forall t :: ValidTree(t) ==> IsWalkOf(walkOf(t), t)
  }

  /**
   `os.makedirs(output_dir, exist_ok=True)` raises exactly when something that
   is not a directory already has the name.
   */
  predicate OutputDirBlocked(input: Tree): (b: bool)
    ensures b <==> [OutputDirName] in input && !IsFolder(input, OutputDirName)
  {
    [OutputDirName] in input && input[[OutputDirName]].File?
  }

  /** The cover `compress_epub_folder` picks for the folder `folderName`. */
  function CoverOf(input: Tree, folderName: Name): (c: Option<Name>)
    ensures c.Some? ==> [c.value] in input
  {
    SelectCover(input, BookNameOf(folderName))
  }

  /**
   `compress_epub_folder(input/folderName, input/compressed_epubs)`: the
   archive it writes, or the exception it raises.
   */
  function Compress(input: Tree, folderName: Name, walkOf: Tree -> seq<WalkStep>): (r: Result<Output, Failure>)
    requires ListsOnlyFiles(walkOf)
    ensures OutputDirBlocked(input) ==> r == Err(OutputDirIsFile)
    ensures r.Err? <==>
      || OutputDirBlocked(input)
      || (var c := CoverOf(input, folderName);
          c.Some? && [c.value] !in Subtree(input, folderName) && input[[c.value]].Dir?)
    ensures r.Ok? ==> r.value.fileName == OutputFileName(BookNameOf(folderName)) && |r.value.entries| > 0
  {
    if OutputDirBlocked(input) then Err(OutputDirIsFile)
    else
      StageFailsOnlyOnDirectoryCover(input, folderName, CoverOf(input, folderName));
      match StageSpec(input, folderName, CoverOf(input, folderName))
      case Err(e) => Err(StagingFailed(e))
      case Ok(staged) => Ok(Output(OutputFileName(BookNameOf(folderName)), ArchiveSpec(staged, walkOf(staged))))
  }

  /** Lines 11-68 of the converter: name, cover, staging and archive, one after the other. */
  method CompressEpubFolder(input: Tree, folderName: Name, walkOf: Tree -> seq<WalkStep>)
    returns (r: Result<Output, Failure>)
    requires ValidTree(input) && ListsOnlyFiles(walkOf)
    ensures r == Compress(input, folderName, walkOf)
  {
    if OutputDirBlocked(input) {
      return Err(OutputDirIsFile);
    }
    var bookName := BookNameOf(folderName);
    var cover := FindCover(input, bookName);
    var staged := Stage(input, folderName, cover);
    match staged
    case Err(e) =>
      return Err(StagingFailed(e));
    case Ok(t) =>
      var entries := WriteArchive(t, walkOf(t));
      return Ok(Output(OutputFileName(bookName), entries));
  }

  /** The staging area the conversion archives, when it gets that far. */
  function StagedFor(input: Tree, folderName: Name): Result<Tree, Error> {
    StageSpec(input, folderName, CoverOf(input, folderName))
  }

  /** The staging area of a real input is real, and the cover is a plain top-level name. */
  lemma StagedForValid(input: Tree, folderName: Name)
    requires ValidTree(input) && ValidName(folderName) && StagedFor(input, folderName).Ok?
    ensures ValidTree(StagedFor(input, folderName).value)
    ensures var c := CoverOf(input, folderName);
      c.Some? ==> ValidName(c.value) && c.value != MimetypeName
  {
    BookNameHasNoSeparator(folderName);
    SelectedCoverIsPlainName(input, BookNameOf(folderName));
    StagedTreeValid(input, folderName, CoverOf(input, folderName));
  }

  /**
   The first entry of every archive the converter writes is the stored
   `mimetype`: the folder's own when it has one, the marker bytes otherwise.
   */
  lemma CompressedFirstEntry(input: Tree, folderName: Name, walkOf: Tree -> seq<WalkStep>)
    requires ValidTree(input) && ValidName(folderName) && ListsOnlyFiles(walkOf)
    requires Compress(input, folderName, walkOf).Ok?
    ensures var a := Compress(input, folderName, walkOf).value.entries;
      var f := Subtree(input, folderName);
      && |a| > 0
      && ([MimetypeName] !in f ==> a[0] == Entry(MimetypeName, Stored, Marker))
      && (IsFile(f, [MimetypeName]) ==> a[0] == Entry(MimetypeName, Stored, f[[MimetypeName]].content))
      && ([MimetypeName] in f && f[[MimetypeName]].Dir? ==> a[0] == Entry(MimetypeName + "/", Stored, []))
  {
    CompressedArchive(input, folderName, walkOf);
    StagedForValid(input, folderName);
    var t := StagedFor(input, folderName).value;
    StagedContents(input, folderName, CoverOf(input, folderName));
    var e := FirstEntry(t);
    assert ArchiveSpec(t, walkOf(t))[0] == e;
  }

  /** A successful conversion archives the staging area, walked by `os.walk`. */
  lemma CompressedArchive(input: Tree, folderName: Name, walkOf: Tree -> seq<WalkStep>)
    requires ListsOnlyFiles(walkOf) && Compress(input, folderName, walkOf).Ok?
    ensures StagedFor(input, folderName).Ok?
    ensures var t := StagedFor(input, folderName).value;
      [MimetypeName] in t &&
      Compress(input, folderName, walkOf).value.entries == ArchiveSpec(t, walkOf(t))
  {
  }

  /**
   The files the archive writer keeps from the staging area: those of the
   folder, unchanged, and the external cover the folder lacked.
   */
  lemma StagedFilesFromFolder(input: Tree, folderName: Name)
    requires ValidTree(input) && ValidName(folderName) && StagedFor(input, folderName).Ok?
    ensures var t := StagedFor(input, folderName).value;
      var f := Subtree(input, folderName);
      var c := CoverOf(input, folderName);
      forall p :: Archived(t, p) ==>
        || (Archived(f, p) && FileEntry(t, p) == FileEntry(f, p))
        || (c.Some? && p == [c.value] && [c.value] !in f && IsFile(input, p)
            && FileEntry(t, p) == Entry(c.value, Deflated, input[p].content))
  {
    StagedForValid(input, folderName);
    var t := StagedFor(input, folderName).value;
    var f := Subtree(input, folderName);
    var c := CoverOf(input, folderName);
    StagedContents(input, folderName, c);
    forall p | Archived(t, p) && !(Archived(f, p) && FileEntry(t, p) == FileEntry(f, p))
      ensures c.Some? && p == [c.value] && [c.value] !in f && IsFile(input, p)
        && FileEntry(t, p) == Entry(c.value, Deflated, input[p].content)
    {
      assert p !in f;
      assert Join([c.value]) == c.value;
    }
  }

  /**
   Every later entry is deflated, is not named `mimetype`, and is either a file
   of the folder (relative path and content, at any depth, base name other
   than `mimetype`) or the external cover the folder lacked.
   */
  lemma CompressedEntriesFromFolder(input: Tree, folderName: Name, walkOf: Tree -> seq<WalkStep>)
    requires ValidTree(input) && ValidName(folderName) && ListsOnlyFiles(walkOf)
    requires Compress(input, folderName, walkOf).Ok?
    ensures var a := Compress(input, folderName, walkOf).value.entries;
      var f := Subtree(input, folderName);
      var c := CoverOf(input, folderName);
      forall i :: 1 <= i < |a| ==>
        && a[i].compression == Deflated
        && a[i].name != MimetypeName
        && ((exists p :: Archived(f, p) && a[i] == FileEntry(f, p))
            || (c.Some? && [c.value] !in f && IsFile(input, [c.value])
                && a[i] == Entry(c.value, Deflated, input[[c.value]].content)))
  {
    CompressedArchive(input, folderName, walkOf);
    StagedForValid(input, folderName);
    StagedFilesFromFolder(input, folderName);
    var t := StagedFor(input, folderName).value;
    var walk := walkOf(t);
    ArchiveEntriesAreStagedFiles(t, walk);
  }

  /**
   Nothing is lost: every file of the folder whose base name is not
   `mimetype` has its entry, and so has the external cover when it was added.
   */
  lemma CompressedKeepsEveryFile(input: Tree, folderName: Name, walkOf: Tree -> seq<WalkStep>)
    requires ValidTree(input) && ValidName(folderName) && ListsOnlyFiles(walkOf) && WalksEveryTree(walkOf)
    requires Compress(input, folderName, walkOf).Ok?
    ensures var a := Compress(input, folderName, walkOf).value.entries;
      var f := Subtree(input, folderName);
      var c := CoverOf(input, folderName);
      && (forall p :: Archived(f, p) ==> exists i :: 1 <= i < |a| && a[i] == FileEntry(f, p))
      && (c.Some? && [c.value] !in f ==>
            exists i :: 1 <= i < |a| && a[i] == Entry(c.value, Deflated, input[[c.value]].content))
  {
    CompressedArchive(input, folderName, walkOf);
    StagedForValid(input, folderName);
    FolderFilesStaged(input, folderName);
    var c := CoverOf(input, folderName);
    if c.Some? && [c.value] !in Subtree(input, folderName) {
      CoverStaged(input, folderName);
    }
    var t := StagedFor(input, folderName).value;
    ArchiveHasEveryStagedFile(t, walkOf(t));
  }

  /** The files of the folder are files of the staging area, with the same content. */
  lemma FolderFilesStaged(input: Tree, folderName: Name)
    requires ValidTree(input) && ValidName(folderName) && StagedFor(input, folderName).Ok?
    ensures var t := StagedFor(input, folderName).value;
      var f := Subtree(input, folderName);
      forall p :: Archived(f, p) ==> Archived(t, p) && FileEntry(t, p) == FileEntry(f, p)
  {
    StagedForValid(input, folderName);
    StagedContents(input, folderName, CoverOf(input, folderName));
  }

  /** The cover the folder lacked is a top-level file of the staging area, with the cover's content. */
  lemma CoverStaged(input: Tree, folderName: Name)
    requires ValidTree(input) && ValidName(folderName) && StagedFor(input, folderName).Ok?
    requires var c := CoverOf(input, folderName); c.Some? && [c.value] !in Subtree(input, folderName)
    ensures var t := StagedFor(input, folderName).value;
      var c := CoverOf(input, folderName).value;
      Archived(t, [c]) && IsFile(input, [c]) && FileEntry(t, [c]) == Entry(c, Deflated, input[[c]].content)
  {
    StagedForValid(input, folderName);
    var c := CoverOf(input, folderName).value;
    var f := Subtree(input, folderName);
    StageFailsOnlyOnDirectoryCover(input, folderName, Some(c));
    assert input[[c]].File?;
    var added := AddCover(f, input, Some(c)).value;
    assert added[[c]] == input[[c]];
    assert StagedFor(input, folderName).value == EnsureMimetype(added);
    assert Join([c]) == c;
  }

  /**
   No two entries of an archive share a name, and only the first is named
   `mimetype`, when the folder has no `mimetype` directory.
   */
  lemma CompressedNamesUnique(input: Tree, folderName: Name, walkOf: Tree -> seq<WalkStep>)
    requires ValidTree(input) && ValidName(folderName) && ListsOnlyFiles(walkOf) && WalksEveryTree(walkOf)
    requires Compress(input, folderName, walkOf).Ok?
    ensures var a := Compress(input, folderName, walkOf).value.entries;
      && (forall i, j :: 1 <= i < j < |a| ==> a[i].name != a[j].name)
      && (!IsFolder(Subtree(input, folderName), MimetypeName) ==>
            forall i :: 0 <= i < |a| ==> (a[i].name == MimetypeName <==> i == 0))
  {
    CompressedArchive(input, folderName, walkOf);
    StagedForValid(input, folderName);
    var t := StagedFor(input, folderName).value;
    StagedContents(input, folderName, CoverOf(input, folderName));
    ArchiveNamesUnique(t, walkOf(t));
  }

  /**
   The order `os.walk` happens to use changes nothing but the order of the
   entries after the first: same file name, same first entry, same entries.
   */
  lemma CompressOrderIrrelevant(input: Tree, folderName: Name, w1: Tree -> seq<WalkStep>, w2: Tree -> seq<WalkStep>)
    requires ValidTree(input) && ValidName(folderName)
    requires ListsOnlyFiles(w1) && WalksEveryTree(w1) && ListsOnlyFiles(w2) && WalksEveryTree(w2)
    ensures Compress(input, folderName, w1).Ok? <==> Compress(input, folderName, w2).Ok?
    ensures Compress(input, folderName, w1).Ok? ==>
      var o1, o2 := Compress(input, folderName, w1).value, Compress(input, folderName, w2).value;
      && o1.fileName == o2.fileName
      && o1.entries[0] == o2.entries[0]
      && multiset(o1.entries) == multiset(o2.entries)
  {
    if Compress(input, folderName, w1).Ok? {
      CompressedArchive(input, folderName, w1);
      CompressedArchive(input, folderName, w2);
      StagedForValid(input, folderName);
      var t := StagedFor(input, folderName).value;
      StagedContents(input, folderName, CoverOf(input, folderName));
      ArchiveOrderIrrelevant(t, w1(t), w2(t));
    }
  }

  /**
   The folder pattern `*.epub` of `glob.glob`: names ending in `.epub` that do
   not start with a dot, which the pattern's leading `*` never matches.
   */
  predicate MatchesEpubGlob(n: Name): (m: bool)
    ensures m ==> |BookNameOf(n)| < |n|
  {
    if |n| >= |EpubSuffix| && n[|n| - |EpubSuffix|..] == EpubSuffix && n[0] != '.' then
      var stem := n[..|n| - |EpubSuffix|];
      assert n == stem + EpubSuffix + [];
      DeleteEpubBetween(stem, []);
      DeleteAllShrinks(stem, EpubSuffix);
      true
    else false
  }

  /**
   A selected folder never yields an empty book name: its first character is
   no dot, so no deleted `.epub` starts there.
   */
  lemma SelectedBookNameNonEmpty(n: Name)
    requires MatchesEpubGlob(n)
    ensures |BookNameOf(n)| > 0 && BookNameOf(n)[0] == n[0]
  {
    assert n[..|EpubSuffix|][0] == n[0];
  }

  /** The folders of the listing `glob.glob` and the `isdir` filter keep, in listing order. */
  function SelectFolders(input: Tree, listing: seq<Name>): (r: seq<Name>)
    ensures forall n :: n in r <==> n in listing && MatchesEpubGlob(n) && IsFolder(input, n)
    ensures Distinct(listing) ==> Distinct(r)
    decreases |listing|
  {
    if listing == [] then []
    else
      var n := listing[|listing| - 1];
      var kept := SelectFolders(input, listing[..|listing| - 1]);
      assert forall m :: m in listing <==> m in listing[..|listing| - 1] || m == n;
      assert Distinct(listing) ==> n !in listing[..|listing| - 1] && Distinct(listing[..|listing| - 1]);
      if MatchesEpubGlob(n) && IsFolder(input, n) then kept + [n] else kept
  }

  /** The selection keeps the listing order: it distributes over concatenation. */
  lemma {:induction false} SelectFoldersAppend(input: Tree, l1: seq<Name>, l2: seq<Name>)
    ensures SelectFolders(input, l1 + l2) == SelectFolders(input, l1) + SelectFolders(input, l2)
    decreases |l2|
  {
    if l2 == [] {
      assert l1 + l2 == l1;
    } else {
      var n := |l2| - 1;
      assert (l1 + l2)[..|l1 + l2| - 1] == l1 + l2[..n];
      SelectFoldersAppend(input, l1, l2[..n]);
    }
  }

  /** `os.listdir` of the input directory: every top-level name once. */
  ghost predicate ListsTopLevel(listing: seq<Name>, input: Tree) {
    Distinct(listing) && forall n :: n in listing <==> [n] in input
  }

  /** How a run ends; `written` maps each output file name to the archive written last under it. */
  datatype Outcome =
    | NoFolders
    | Crashed(written: map<Name, seq<Entry>>, folder: Name, failure: Failure)
    | Finished(written: map<Name, seq<Entry>>)

  /** The process exit status: 0 only for a run that converted every folder. */
  function ExitStatus(o: Outcome): (status: int)
    ensures status == 0 <==> o.Finished?
    ensures status == 0 || status == 1
  {
    if o.Finished? then 0 else 1
  }

  /** One conversion per folder: `compress_epub_folder` of the run's input directory. */
  function ConvertWith(input: Tree, walkOf: Tree -> seq<WalkStep>): (convert: Name -> Result<Output, Failure>)
    requires ListsOnlyFiles(walkOf)
    ensures forall n :: convert(n) == Compress(input, n, walkOf)
  {
    n => Compress(input, n, walkOf)
  }

  /** The conversion loop over `folders`, each archive written over any earlier one of the same name. */
  function ConvertAll(convert: Name -> Result<Output, Failure>, folders: seq<Name>,
                      written: map<Name, seq<Entry>>): (o: Outcome)
    ensures o.Finished? || o.Crashed?
    ensures written.Keys <= o.written.Keys
    ensures o.Crashed? ==> o.folder in folders && convert(o.folder) == Err(o.failure)
    decreases |folders|
  {
    if folders == [] then Finished(written)
    else
      match convert(folders[0])
      case Err(e) => Crashed(written, folders[0], e)
      case Ok(out) => ConvertAll(convert, folders[1..], written[out.fileName := out.entries])
  }

  /** Lines 75-87 of the converter, after the argument check. */
  function RunSpec(input: Tree, listing: seq<Name>, walkOf: Tree -> seq<WalkStep>): (o: Outcome)
    requires ListsOnlyFiles(walkOf)
    ensures o.NoFolders? <==> SelectFolders(input, listing) == []
    ensures o.Crashed? ==>
      o.folder in SelectFolders(input, listing) && Compress(input, o.folder, walkOf) == Err(o.failure)
  {
    var folders := SelectFolders(input, listing);
    if folders == [] then NoFolders else ConvertAll(ConvertWith(input, walkOf), folders, map[])
  }

  /** The driver: select the folders, stop with status 1 when there are none, convert each in turn. */
  method Run(input: Tree, listing: seq<Name>, walkOf: Tree -> seq<WalkStep>) returns (outcome: Outcome, status: int)
    requires ValidTree(input) && ListsOnlyFiles(walkOf)
    ensures outcome == RunSpec(input, listing, walkOf)
    ensures status == ExitStatus(outcome)
  {
    var folders := SelectFolders(input, listing);
    if |folders| == 0 {
      return NoFolders, 1;
    }
    ghost var convert := ConvertWith(input, walkOf);
    var written: map<Name, seq<Entry>> := map[];
    var i := 0;
    while i < |folders|
      invariant 0 <= i <= |folders|
      invariant RunSpec(input, listing, walkOf) == ConvertAll(convert, folders[i..], written)
    {
      assert folders[i..][1..] == folders[i + 1..];
      var r := CompressEpubFolder(input, folders[i], walkOf);
      assert r == convert(folders[i]);
      match r
      case Err(e) =>
        outcome := Crashed(written, folders[i], e);
        return outcome, ExitStatus(outcome);
      case Ok(out) =>
        written := written[out.fileName := out.entries];
      i := i + 1;
    }
    outcome := Finished(written);
    return outcome, 0;
  }

  /**
   The run stops with status 1 and writes nothing exactly when the input
   directory holds no folder matching `*.epub`.
   */
  lemma NoFoldersExactly(input: Tree, listing: seq<Name>, walkOf: Tree -> seq<WalkStep>)
    requires ListsOnlyFiles(walkOf) && ListsTopLevel(listing, input)
    ensures RunSpec(input, listing, walkOf) == NoFolders <==>
      forall n :: IsFolder(input, n) ==> !MatchesEpubGlob(n)
    ensures RunSpec(input, listing, walkOf) == NoFolders ==> ExitStatus(RunSpec(input, listing, walkOf)) == 1
  {
    var folders := SelectFolders(input, listing);
    if folders != [] {
      assert folders[0] in folders;
    }
  }

  /** The loop finishes exactly when no folder's conversion raises. */
  lemma {:induction false} ConvertAllFinishes(convert: Name -> Result<Output, Failure>, folders: seq<Name>,
                                               written: map<Name, seq<Entry>>)
    ensures ConvertAll(convert, folders, written).Finished? <==>
      forall k :: 0 <= k < |folders| ==> convert(folders[k]).Ok?
    decreases |folders|
  {
    if folders != [] {
      match convert(folders[0])
      case Err(_) =>
      case Ok(out) =>
        ConvertAllFinishes(convert, folders[1..], written[out.fileName := out.entries]);
        assert forall k :: 1 <= k < |folders| ==> folders[k] == folders[1..][k - 1];
    }
  }

  /** The output names the conversions of `folders` write to. */
  function OutputNames(convert: Name -> Result<Output, Failure>, folders: seq<Name>): set<Name>
    requires forall k :: 0 <= k < |folders| ==> convert(folders[k]).Ok?
  {
    set k | 0 <= k < |folders| :: convert(folders[k]).value.fileName
  }

  /** The folder at `k` is the last of `folders` to write its output name. */
  predicate LastWriter(convert: Name -> Result<Output, Failure>, folders: seq<Name>, k: int)
    requires forall k :: 0 <= k < |folders| ==> convert(folders[k]).Ok?
  {
    0 <= k < |folders| &&
    forall j :: k < j < |folders| ==> convert(folders[j]).value.fileName != convert(folders[k]).value.fileName
  }

  /**
   What a finished loop leaves in the output directory: an archive under the
   output name of each folder, the one of the last folder with that name;
   names no folder writes keep what they held.
   */
  lemma {:induction false} ConvertAllWritten(convert: Name -> Result<Output, Failure>, folders: seq<Name>,
                                              written: map<Name, seq<Entry>>)
    requires forall k :: 0 <= k < |folders| ==> convert(folders[k]).Ok?
    ensures var o := ConvertAll(convert, folders, written);
      && o.Finished?
      && o.written.Keys == written.Keys + OutputNames(convert, folders)
      && (forall n :: n in written && n !in OutputNames(convert, folders) ==> o.written[n] == written[n])
      && (forall k :: LastWriter(convert, folders, k) ==>
            o.written[convert(folders[k]).value.fileName] == convert(folders[k]).value.entries)
    decreases |folders|
  {
    if folders == [] {
      assert OutputNames(convert, folders) == {};
    } else {
      var out := convert(folders[0]).value;
      var next := written[out.fileName := out.entries];
      var rest := folders[1..];
      assert forall k :: 1 <= k < |folders| ==> folders[k] == rest[k - 1];
      ConvertAllWritten(convert, rest, next);
      var w := ConvertAll(convert, folders, written).written;
      assert w == ConvertAll(convert, rest, next).written;
      assert OutputNames(convert, folders) == {out.fileName} + OutputNames(convert, rest) by {
        forall x | x in OutputNames(convert, folders) ensures x in {out.fileName} + OutputNames(convert, rest) {
          var k :| 0 <= k < |folders| && x == convert(folders[k]).value.fileName;
          if k > 0 {
            assert x == convert(rest[k - 1]).value.fileName;
          }
        }
        forall x | x in OutputNames(convert, rest) ensures x in OutputNames(convert, folders) {
          var k :| 0 <= k < |rest| && x == convert(rest[k]).value.fileName;
          assert x == convert(folders[k + 1]).value.fileName;
        }
      }
      forall k | LastWriter(convert, folders, k)
        ensures w[convert(folders[k]).value.fileName] == convert(folders[k]).value.entries
      {
        if k > 0 {
          assert LastWriter(convert, rest, k - 1);
        } else {
          forall j | 0 <= j < |rest| ensures convert(rest[j]).value.fileName != out.fileName {
            assert convert(folders[j + 1]).value.fileName != convert(folders[0]).value.fileName;
          }
        }
      }
    }
  }

  /**
   A run that raises stops at the first folder whose conversion raises and
   reports it; the folders before it have their archives written.
   */
  lemma {:induction false} ConvertAllCrashes(convert: Name -> Result<Output, Failure>, folders: seq<Name>,
                                              written: map<Name, seq<Entry>>)
    requires ConvertAll(convert, folders, written).Crashed?
    ensures var o := ConvertAll(convert, folders, written);
      exists k :: 0 <= k < |folders|
        && o.folder == folders[k]
        && convert(folders[k]) == Err(o.failure)
        && (forall j :: 0 <= j < k ==> convert(folders[j]).Ok?)
        && o.written == ConvertAll(convert, folders[..k], written).written
    decreases |folders|
  {
    match convert(folders[0])
    case Err(_) =>
      assert folders[..0] == [];
    case Ok(out) =>
      var next := written[out.fileName := out.entries];
      var rest := folders[1..];
      ConvertAllStep(convert, folders, written);
      ConvertAllCrashes(convert, rest, next);
      var o := ConvertAll(convert, rest, next);
      var k :| 0 <= k < |rest| && o.folder == rest[k]
        && convert(rest[k]) == Err(o.failure)
        && (forall j :: 0 <= j < k ==> convert(rest[j]).Ok?)
        && o.written == ConvertAll(convert, rest[..k], next).written;
      var pre := folders[..k + 1];
      assert pre[0] == folders[0] && pre[1..] == rest[..k];
      ConvertAllStep(convert, pre, written);
      forall j | 0 <= j < k + 1 ensures convert(folders[j]).Ok? {
        if j > 0 { assert folders[j] == rest[j - 1]; }
      }
      assert o.folder == folders[k + 1] && convert(folders[k + 1]) == Err(o.failure);
  }

  /** One successful conversion, then the loop over the remaining folders. */
  lemma ConvertAllStep(convert: Name -> Result<Output, Failure>, folders: seq<Name>,
                       written: map<Name, seq<Entry>>)
    requires folders != [] && convert(folders[0]).Ok?
    ensures var out := convert(folders[0]).value;
      ConvertAll(convert, folders, written)
        == ConvertAll(convert, folders[1..], written[out.fileName := out.entries])
  {
  }

  /** The output file name of the folder `n`. */
  function OutputOf(n: Name): Name {
    OutputFileName(BookNameOf(n))
  }

  /**
   A finished run has written one archive per output name of the selected
   folders, with exit status 0, and nothing else.
   */
  lemma RunFinished(input: Tree, listing: seq<Name>, walkOf: Tree -> seq<WalkStep>)
    requires ListsOnlyFiles(walkOf)
    requires RunSpec(input, listing, walkOf).Finished?
    ensures var folders := SelectFolders(input, listing);
      && ExitStatus(RunSpec(input, listing, walkOf)) == 0
      && |folders| > 0
      && (forall k :: 0 <= k < |folders| ==> Compress(input, folders[k], walkOf).Ok?)
      && RunSpec(input, listing, walkOf).written.Keys == set k | 0 <= k < |folders| :: OutputOf(folders[k])
  {
    var folders := SelectFolders(input, listing);
    var convert := ConvertWith(input, walkOf);
    ConvertAllFinishes(convert, folders, map[]);
    ConvertedNames(input, walkOf, folders);
    WrittenNames(convert, OutputOf, folders);
  }

  /** Every successful conversion names its archive after the folder. */
  lemma ConvertedNames(input: Tree, walkOf: Tree -> seq<WalkStep>, folders: seq<Name>)
    requires ListsOnlyFiles(walkOf)
    requires forall k :: 0 <= k < |folders| ==> ConvertWith(input, walkOf)(folders[k]).Ok?
    ensures forall k :: 0 <= k < |folders| ==>
      ConvertWith(input, walkOf)(folders[k]).value.fileName == OutputOf(folders[k])
  {
  }

  /** The names a finished loop writes, when every conversion names its output by `nameOf` of its folder. */
  lemma WrittenNames(convert: Name -> Result<Output, Failure>, nameOf: Name -> Name, folders: seq<Name>)
    requires forall k :: 0 <= k < |folders| ==> convert(folders[k]).Ok?
    requires forall k :: 0 <= k < |folders| ==> convert(folders[k]).value.fileName == nameOf(folders[k])
    ensures ConvertAll(convert, folders, map[]).written.Keys == set k | 0 <= k < |folders| :: nameOf(folders[k])
  {
    ConvertAllWritten(convert, folders, map[]);
    forall x | x in OutputNames(convert, folders) ensures x in set k | 0 <= k < |folders| :: nameOf(folders[k]) {
      var k :| 0 <= k < |folders| && x == convert(folders[k]).value.fileName;
      assert x == nameOf(folders[k]);
    }
  }

  /** Two folders can share an output name; the later one's archive is the one that stays. */
  lemma SharedOutputName()
    ensures OutputOf("A.epub") == OutputOf("A.epub.epub") == "A.epub"
  {
    assert "A.epub" == "A" + EpubSuffix + "";
    DeleteEpubBetween("A", "");
    assert "A.epub.epub" == "A" + EpubSuffix + (EpubSuffix + "");
    DeleteEpubBetween("A", EpubSuffix + "");
    assert EpubSuffix + "" == "" + EpubSuffix + "";
    DeleteEpubBetween("", "");
  }
}
