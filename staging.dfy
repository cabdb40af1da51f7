/**
 The staging area of `compress_epub_folder`: the cover search beside the
 publication folder, the copy of the folder's children into a fresh
 temporary directory, the fallback cover and the synthesised `mimetype`.
 */
module Staging {
  import opened Wrappers
  import opened Paths
  import opened FileTree
  import opened Container

  /** `shutil.copy2` of a cover candidate that is a directory raises `IsADirectoryError`. */
  datatype Error = CoverIsDirectory(cover: Name)

  /** The cover extensions, in the order the search tries them. */
  const CoverExtensions: seq<string> := ["jpg", "jpeg", "png", "gif"]

  function CoverCandidate(bookName: string, ext: string): Name {
    bookName + "." + ext
  }

  /** The first candidate `<book>.<ext>`, in the order of `exts`, that exists beside the folder. */
  function FirstExisting(input: Tree, bookName: string, exts: seq<string>): (r: Option<Name>)
    ensures r.None? <==> forall k :: 0 <= k < |exts| ==> [CoverCandidate(bookName, exts[k])] !in input
    ensures r.Some? ==>
      exists k :: 0 <= k < |exts| && r.value == CoverCandidate(bookName, exts[k])
        && [r.value] in input
        && forall j :: 0 <= j < k ==> [CoverCandidate(bookName, exts[j])] !in input
    decreases |exts|
  {
    if exts == [] then None
    else if [CoverCandidate(bookName, exts[0])] in input then Some(CoverCandidate(bookName, exts[0]))
    else
      var r := FirstExisting(input, bookName, exts[1..]);
      assert forall k :: 1 <= k < |exts| ==> exts[k] == exts[1..][k - 1];
      r
  }

  /** The cover search of lines 24-28: the first of `<book>.jpg`, `.jpeg`, `.png`, `.gif` beside the folder. */
  function SelectCover(input: Tree, bookName: string): (r: Option<Name>)
    ensures r.None? <==> forall k :: 0 <= k < |CoverExtensions| ==>
      [CoverCandidate(bookName, CoverExtensions[k])] !in input
    ensures r.Some? ==>
      exists k :: 0 <= k < |CoverExtensions| && r.value == CoverCandidate(bookName, CoverExtensions[k])
        && [r.value] in input
        && forall j :: 0 <= j < k ==> [CoverCandidate(bookName, CoverExtensions[j])] !in input
  {
    FirstExisting(input, bookName, CoverExtensions)
  }

  /** The cover search loop: the first extension whose sibling exists wins. */
  method FindCover(input: Tree, bookName: string) returns (cover: Option<Name>)
    ensures cover == SelectCover(input, bookName)
  {
    cover := None;
    var i := 0;
    while i < |CoverExtensions|
      invariant 0 <= i <= |CoverExtensions|
      invariant SelectCover(input, bookName) == FirstExisting(input, bookName, CoverExtensions[i..])
    {
      var candidate := CoverCandidate(bookName, CoverExtensions[i]);
      if [candidate] in input {
        cover := Some(candidate);
        break;
      }
      assert CoverExtensions[i..][1..] == CoverExtensions[i + 1..];
      i := i + 1;
    }
  }

  /** A cover candidate is a valid top-level name, and never the name `mimetype`. */
  lemma SelectedCoverIsPlainName(input: Tree, bookName: string)
    requires '/' !in bookName
    ensures SelectCover(input, bookName).Some? ==>
      var c := SelectCover(input, bookName).value;
      [c] in input && ValidName(c) && c != MimetypeName
  {
    var r := SelectCover(input, bookName);
    if r.Some? {
      var k :| 0 <= k < |CoverExtensions| && r.value == CoverCandidate(bookName, CoverExtensions[k]);
      var c := r.value;
      assert '/' !in CoverExtensions[k];
      assert c[|bookName|] == '.';
      assert '.' !in MimetypeName;
    }
  }

  /** The immediate children of a directory, as `glob('*')` lists them. */
  function Children(folder: Tree): (c: set<Name>)
    ensures forall n :: n in c <==> [n] in folder
  {
    var c := set p | p in folder && |p| == 1 :: p[0];
    assert forall n :: [n] in folder ==> [n][0] in c;
    assert forall p :: p in folder && |p| == 1 ==> p == [p[0]];
    c
  }

  /** The part of a tree that lies under the given top-level names. */
  function Under(folder: Tree, names: set<Name>): Tree {
    map p | p in folder && |p| > 0 && p[0] in names :: folder[p]
  }

  /**
   The copy loop: each immediate child is copied into the staging area, a
   directory with `shutil.copytree`, a file with `shutil.copy2`. Whatever the
   order of the children, the staging area ends up equal to the folder.
   */
  method CopyChildren(folder: Tree) returns (staging: Tree)
    requires ValidTree(folder)
    ensures staging == folder
  {
    staging := map[];
    var pending := Children(folder);
    ghost var copied: set<Name> := {};
    while pending != {}
      invariant pending !! copied && pending + copied == Children(folder)
      invariant staging == Under(folder, copied)
      decreases pending
    {
      var name :| name in pending;
      assert [name] in folder by {
        var p :| p in folder && |p| == 1 && p[0] == name;
        assert p == [name];
      }
      if folder[[name]].Dir? {
        staging := staging + Under(folder, {name});
      } else {
        forall p | p in folder && |p| > 0 && p[0] == name ensures p == [name] {
          if |p| > 1 {
            TopSegmentIsDir(folder, p);
            assert false;
          }
        }
        staging := staging[[name] := folder[[name]]];
      }
      assert staging == Under(folder, copied + {name});
      pending := pending - {name};
      copied := copied + {name};
    }
    forall p | p in folder ensures p[0] in Children(folder) {
      if |p| > 1 {
        TopSegmentIsDir(folder, p);
      } else {
        assert p == [p[0]];
      }
    }
    assert staging == folder;
  }

  /**
   The fallback cover: added at the top only when nothing of that name is
   there yet, so the publication's own file always wins.
   */
  function AddCover(staging: Tree, input: Tree, cover: Option<Name>): (r: Result<Tree, Error>)
    requires cover.Some? ==> [cover.value] in input
    ensures cover.None? ==> r == Ok(staging)
    ensures cover.Some? && [cover.value] in staging ==> r == Ok(staging)
    ensures cover.Some? && [cover.value] !in staging && input[[cover.value]].Dir? ==>
      r == Err(CoverIsDirectory(cover.value))
    ensures cover.Some? && [cover.value] !in staging && input[[cover.value]].File? ==>
      && r.Ok?
      && r.value.Keys == staging.Keys + {[cover.value]}
      && r.value[[cover.value]] == input[[cover.value]]
      && forall p :: p in staging ==> r.value[p] == staging[p]
  {
    match cover
    case None => Ok(staging)
    case Some(c) =>
      if [c] in staging then Ok(staging)
      else if input[[c]].Dir? then Err(CoverIsDirectory(c))
      else Ok(staging[[c] := input[[c]]])
  }

  /**
   The marker step: afterwards a top-level `mimetype` exists; one the
   publication supplied is kept as it is, otherwise it holds the marker bytes.
   */
  function EnsureMimetype(staging: Tree): (r: Tree)
    ensures [MimetypeName] in r
    ensures r.Keys == staging.Keys + {[MimetypeName]}
    ensures forall p :: p in staging ==> r[p] == staging[p]
    ensures [MimetypeName] !in staging ==> r[[MimetypeName]] == File(Marker)
  {
    if [MimetypeName] in staging then staging else staging[[MimetypeName] := File(Marker)]
  }

  /** The staging area built for the folder `folderName` of `input`, given the cover found. */
  function StageSpec(input: Tree, folderName: Name, cover: Option<Name>): Result<Tree, Error>
    requires cover.Some? ==> [cover.value] in input
  {
    match AddCover(Subtree(input, folderName), input, cover)
    case Err(e) => Err(e)
    case Ok(t) => Ok(EnsureMimetype(t))
  }

  /** Lines 30-47 of the converter: copy the children, then update the staging area in place. */
  method Stage(input: Tree, folderName: Name, cover: Option<Name>) returns (r: Result<Tree, Error>)
    requires ValidTree(input)
    requires cover.Some? ==> [cover.value] in input
    ensures r == StageSpec(input, folderName, cover)
  {
    SubtreeValid(input, folderName);
    var staging := CopyChildren(Subtree(input, folderName));
    if cover.Some? && [cover.value] !in staging {
      var source := input[[cover.value]];
      if source.Dir? {
        return Err(CoverIsDirectory(cover.value));
      }
      staging := staging[[cover.value] := source];
    }
    if [MimetypeName] !in staging {
      staging := staging[[MimetypeName] := File(Marker)];
    }
    return Ok(staging);
  }

  /** Staging fails exactly when the cover would have to be copied and is a directory. */
  lemma StageFailsOnlyOnDirectoryCover(input: Tree, folderName: Name, cover: Option<Name>)
    requires cover.Some? ==> [cover.value] in input
    ensures StageSpec(input, folderName, cover).Err? <==>
      cover.Some? && [cover.value] !in Subtree(input, folderName) && input[[cover.value]].Dir?
  {
  }

  /**
   What staging makes of a publication folder: every item of the folder
   unchanged, at most the cover besides (only where the folder had nothing of
   that name) and a top-level `mimetype` that is the folder's own when it has
   one and the marker otherwise.
   */
  lemma StagedContents(input: Tree, folderName: Name, cover: Option<Name>)
    requires cover.Some? ==> [cover.value] in input && cover.value != MimetypeName
    requires StageSpec(input, folderName, cover).Ok?
    ensures var folder := Subtree(input, folderName);
      var t := StageSpec(input, folderName, cover).value;
      && (forall p :: p in folder ==> p in t && t[p] == folder[p])
      && (forall p :: p in t ==> p in folder || p == [MimetypeName] || (cover.Some? && p == [cover.value]))
      && [MimetypeName] in t
      && ([MimetypeName] !in folder ==> t[[MimetypeName]] == File(Marker))
      && (cover.Some? && [cover.value] !in folder ==> t[[cover.value]] == input[[cover.value]])
  {
  }

  /** A new top-level item under a fresh valid name keeps a tree real. */
  lemma AddTopLevelValid(t: Tree, name: Name, item: Item)
    requires ValidTree(t) && ValidName(name) && [name] !in t
    ensures ValidTree(t[[name] := item])
  {
    var u := t[[name] := item];
    forall p, k | p in u && 0 < k < |p| ensures p[..k] in u && u[p[..k]].Dir? {
      assert p in t;
    }
  }

  /** Adding the cover keeps a real tree real. */
  lemma AddCoverValid(staging: Tree, input: Tree, cover: Option<Name>)
    requires ValidTree(staging)
    requires cover.Some? ==> [cover.value] in input && ValidName(cover.value)
    requires AddCover(staging, input, cover).Ok?
    ensures ValidTree(AddCover(staging, input, cover).value)
  {
    if cover.Some? && [cover.value] !in staging {
      AddTopLevelValid(staging, cover.value, input[[cover.value]]);
    }
  }

  /** Adding the marker keeps a real tree real. */
  lemma EnsureMimetypeValid(staging: Tree)
    requires ValidTree(staging)
    ensures ValidTree(EnsureMimetype(staging))
  {
    if [MimetypeName] !in staging {
      assert '/' !in MimetypeName;
      AddTopLevelValid(staging, MimetypeName, File(Marker));
    }
  }

  /** The staging area of a real input tree is a real tree. */
  lemma StagedTreeValid(input: Tree, folderName: Name, cover: Option<Name>)
    requires ValidTree(input)
    requires cover.Some? ==> [cover.value] in input && ValidName(cover.value)
    requires StageSpec(input, folderName, cover).Ok?
    ensures ValidTree(StageSpec(input, folderName, cover).value)
  {
    var folder := Subtree(input, folderName);
    SubtreeValid(input, folderName);
    AddCoverValid(folder, input, cover);
    EnsureMimetypeValid(AddCover(folder, input, cover).value);
  }
}
