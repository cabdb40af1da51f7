/**
 The archive writer: the `mimetype` entry first and stored, then every file
 `os.walk` reports under the staging area, deflated, except files whose base
 name is `mimetype`. A ZIP archive is modelled as its sequence of entries;
 the compression method is a tag and the byte layout is not modelled.
 */
module Archive {
  import opened Wrappers
  import opened Paths
  import opened FileTree
  import opened Container

  datatype Compression = Stored | Deflated

  datatype Entry = Entry(name: string, compression: Compression, content: Bytes)

  /** One triple of `os.walk`: a directory (relative to the walk's root) and the files in it. */
  datatype WalkStep = WalkStep(root: Path, files: seq<Name>)

  /** The files of one walk step, as paths relative to the walk's root. */
  function StepPaths(step: WalkStep): seq<Path> {
    seq(|step.files|, k requires 0 <= k < |step.files| => step.root + [step.files[k]])
  }

  /** Every file path a walk reports, in the order it reports them. */
  function Flatten(walk: seq<WalkStep>): seq<Path>
    decreases |walk|
  {
    if walk == [] then [] else Flatten(walk[..|walk| - 1]) + StepPaths(walk[|walk| - 1])
  }

  /** One walk step reports only files of `t`. */
  predicate StepListsFiles(step: WalkStep, t: Tree) {
    forall j :: 0 <= j < |step.files| ==> IsFile(t, step.root + [step.files[j]])
  }

  /** A walk reports only files of `t`. */
  predicate ListsFiles(walk: seq<WalkStep>, t: Tree) {
    forall i :: 0 <= i < |walk| ==> StepListsFiles(walk[i], t)
  }

  /** A walk of `t`: it reports every file of `t`, each exactly once, and nothing else. */
  ghost predicate IsWalkOf(walk: seq<WalkStep>, t: Tree) {
    && ListsFiles(walk, t)
    && Distinct(Flatten(walk))
    && forall p :: IsFile(t, p) ==> p in Flatten(walk)
  }

  predicate OnlyFiles(paths: seq<Path>, t: Tree) {
    forall p :: p in paths ==> |p| > 0 && IsFile(t, p)
  }

  lemma {:induction false} FlattenOnlyFiles(walk: seq<WalkStep>, t: Tree)
    requires ListsFiles(walk, t)
    ensures OnlyFiles(Flatten(walk), t)
    decreases |walk|
  {
    if walk != [] {
      var n := |walk| - 1;
      assert ListsFiles(walk[..n], t) by {
        forall i | 0 <= i < n ensures StepListsFiles(walk[..n][i], t) {
          assert walk[..n][i] == walk[i];
        }
      }
      FlattenOnlyFiles(walk[..n], t);
      forall p | p in StepPaths(walk[n]) ensures |p| > 0 && IsFile(t, p) {
        var j :| 0 <= j < |walk[n].files| && p == walk[n].root + [walk[n].files[j]];
      }
    }
  }

  /** The entry the walk loop writes for the staged file at `p`. */
  function FileEntry(t: Tree, p: Path): Entry
    requires |p| > 0 && IsFile(t, p)
  {
    Entry(Join(p), Deflated, t[p].content)
  }

  /** The entries the walk loop writes for the listed paths: those not named `mimetype`, in order. */
  function FileEntries(t: Tree, paths: seq<Path>): (es: seq<Entry>)
    requires OnlyFiles(paths, t)
    ensures |es| <= |paths|
    decreases |paths|
  {
    if paths == [] then []
    else
      var last := paths[|paths| - 1];
      assert forall p :: p in paths[..|paths| - 1] ==> p in paths;
      FileEntries(t, paths[..|paths| - 1]) + (if Base(last) == MimetypeName then [] else [FileEntry(t, last)])
  }

  /**
   The first entry: the top-level `mimetype` stored under that very name.
   When the publication made `mimetype` a directory, `zipfile` writes a stored
   directory entry `mimetype/` with no content instead.
   */
  function FirstEntry(t: Tree): (e: Entry)
    requires [MimetypeName] in t
    ensures e.compression == Stored
    ensures IsFile(t, [MimetypeName]) ==> e.name == MimetypeName && e.content == t[[MimetypeName]].content
    ensures t[[MimetypeName]].Dir? ==> e.name == MimetypeName + "/" && e.content == []
  {
    match t[[MimetypeName]]
    case File(c) => Entry(MimetypeName, Stored, c)
    case Dir => Entry(MimetypeName + "/", Stored, [])
  }

  /** The archive written from staging area `t` walked in the order `walk`. */
  function ArchiveSpec(t: Tree, walk: seq<WalkStep>): (a: seq<Entry>)
    requires [MimetypeName] in t && ListsFiles(walk, t)
    ensures 1 <= |a| <= 1 + |Flatten(walk)|
    ensures a[0] == FirstEntry(t)
  {
    FlattenOnlyFiles(walk, t);
    [FirstEntry(t)] + FileEntries(t, Flatten(walk))
  }

  lemma AppendAssoc<T>(a: seq<T>, b: seq<T>, c: seq<T>)
    ensures (a + b) + c == a + (b + c)
  {
  }

  lemma FileEntriesSnoc(t: Tree, paths: seq<Path>, p: Path)
    requires OnlyFiles(paths, t) && |p| > 0 && IsFile(t, p)
    ensures OnlyFiles(paths + [p], t)
    ensures FileEntries(t, paths + [p]) ==
      FileEntries(t, paths) + (if Base(p) == MimetypeName then [] else [FileEntry(t, p)])
  {
    assert (paths + [p])[..|paths|] == paths;
  }

  lemma FlattenSnoc(walk: seq<WalkStep>, i: nat)
    requires i < |walk|
    ensures Flatten(walk[..i + 1]) == Flatten(walk[..i]) + StepPaths(walk[i])
  {
    assert walk[..i + 1][..i] == walk[..i];
  }

  lemma StepPathsSnoc(root: Path, files: seq<Name>, j: nat)
    requires j < |files|
    ensures StepPaths(WalkStep(root, files[..j + 1])) == StepPaths(WalkStep(root, files[..j])) + [root + [files[j]]]
  {
  }

  lemma {:induction false} FileEntriesAppend(t: Tree, a: seq<Path>, b: seq<Path>)
    requires OnlyFiles(a, t) && OnlyFiles(b, t)
    ensures OnlyFiles(a + b, t)
    ensures FileEntries(t, a + b) == FileEntries(t, a) + FileEntries(t, b)
    decreases |b|
  {
    if b == [] {
      assert a + b == a;
    } else {
      var n := |b| - 1;
      var front, last := b[..n], b[n];
      assert b == front + [last];
      assert a + b == (a + front) + [last];
      assert OnlyFiles(front, t) by {
        assert forall p :: p in front ==> p in b;
      }
      assert last in b;
      FileEntriesAppend(t, a, front);
      FileEntriesSnoc(t, a + front, last);
      FileEntriesSnoc(t, front, last);
      var tail := if Base(last) == MimetypeName then [] else [FileEntry(t, last)];
      AppendAssoc(FileEntries(t, a), FileEntries(t, front), tail);
    }
  }

  /** One more directory of the walk adds exactly the entries for its files. */
  lemma WalkPrefixStep(t: Tree, walk: seq<WalkStep>, i: nat)
    requires i < |walk| && OnlyFiles(Flatten(walk[..i]), t) && OnlyFiles(StepPaths(walk[i]), t)
    ensures OnlyFiles(Flatten(walk[..i + 1]), t)
    ensures FileEntries(t, Flatten(walk[..i + 1])) == FileEntries(t, Flatten(walk[..i])) + FileEntries(t, StepPaths(walk[i]))
  {
    FlattenSnoc(walk, i);
    FileEntriesAppend(t, Flatten(walk[..i]), StepPaths(walk[i]));
  }

  /** The inner loop of the walk: the entries for the files of one directory. */
  method WriteDirectory(t: Tree, step: WalkStep, archive0: seq<Entry>) returns (archive: seq<Entry>)
    requires StepListsFiles(step, t)
    ensures OnlyFiles(StepPaths(step), t)
    ensures archive == archive0 + FileEntries(t, StepPaths(step))
  {
    archive := archive0;
    var j := 0;
    while j < |step.files|
      invariant 0 <= j <= |step.files|
      invariant OnlyFiles(StepPaths(WalkStep(step.root, step.files[..j])), t)
      invariant archive == archive0 + FileEntries(t, StepPaths(WalkStep(step.root, step.files[..j])))
    {
      var file := step.files[j];
      var path := step.root + [file];
      StepPathsSnoc(step.root, step.files, j);
      FileEntriesSnoc(t, StepPaths(WalkStep(step.root, step.files[..j])), path);
      if file != MimetypeName {
        archive := archive + [Entry(Join(path), Deflated, t[path].content)];
      }
      j := j + 1;
    }
    assert step.files[..j] == step.files;
  }

  /** Lines 49-65 of the converter: the stored marker entry, then the walk. */
  method WriteArchive(t: Tree, walk: seq<WalkStep>) returns (archive: seq<Entry>)
    requires [MimetypeName] in t && ListsFiles(walk, t)
    ensures archive == ArchiveSpec(t, walk)
  {
    archive := [FirstEntry(t)];
    ghost var written: seq<Entry> := [];
    var i := 0;
    while i < |walk|
      invariant 0 <= i <= |walk|
      invariant OnlyFiles(Flatten(walk[..i]), t)
      invariant written == FileEntries(t, Flatten(walk[..i]))
      invariant archive == [FirstEntry(t)] + written
    {
      ghost var added := FileEntries(t, StepPaths(walk[i]));
      archive := WriteDirectory(t, walk[i], archive);
      AppendAssoc([FirstEntry(t)], written, added);
      WalkPrefixStep(t, walk, i);
      written := written + added;
      i := i + 1;
    }
    assert walk[..i] == walk;
  }

  /** A staged file the walk loop keeps: a file whose base name is not `mimetype`. */
  predicate Archived(t: Tree, p: Path) {
    |p| > 0 && IsFile(t, p) && Base(p) != MimetypeName
  }

  /** Each entry the walk loop writes is the entry of a listed file it keeps. */
  lemma {:induction false} FileEntriesSound(t: Tree, paths: seq<Path>)
    requires OnlyFiles(paths, t)
    ensures forall k :: 0 <= k < |FileEntries(t, paths)| ==>
      exists p :: p in paths && Archived(t, p) && FileEntries(t, paths)[k] == FileEntry(t, p)
    decreases |paths|
  {
    if paths != [] {
      var n := |paths| - 1;
      var es := FileEntries(t, paths);
      var prior := FileEntries(t, paths[..n]);
      assert forall p :: p in paths[..n] ==> p in paths;
      FileEntriesSound(t, paths[..n]);
      forall k | 0 <= k < |es|
        ensures exists p :: p in paths && Archived(t, p) && es[k] == FileEntry(t, p)
      {
        if k < |prior| {
          var p :| p in paths[..n] && Archived(t, p) && prior[k] == FileEntry(t, p);
          assert es[k] == prior[k];
        } else {
          assert es[k] == FileEntry(t, paths[n]) && Archived(t, paths[n]);
        }
      }
      assert forall k :: 0 <= k < |FileEntries(t, paths)| ==>
        exists p :: p in paths && Archived(t, p) && FileEntries(t, paths)[k] == FileEntry(t, p);
    } else {
      assert FileEntries(t, paths) == [];
    }
  }

  /** Each listed file the walk loop keeps gets its entry. */
  lemma {:induction false} FileEntriesComplete(t: Tree, paths: seq<Path>, p: Path)
    requires OnlyFiles(paths, t) && p in paths && Base(p) != MimetypeName
    ensures FileEntry(t, p) in FileEntries(t, paths)
    decreases |paths|
  {
    var n := |paths| - 1;
    assert forall q :: q in paths[..n] ==> q in paths;
    if p != paths[n] {
      assert paths == paths[..n] + [paths[n]];
      FileEntriesComplete(t, paths[..n], p);
    }
  }

  /** No two entries share a name. */
  predicate UniqueNames(es: seq<Entry>) {
    forall i, j :: 0 <= i < j < |es| ==> es[i].name != es[j].name
  }

  /** Distinct listed files of a real tree get distinct entry names. */
  lemma {:induction false} FileEntriesNamesDistinct(t: Tree, paths: seq<Path>)
    requires ValidTree(t) && OnlyFiles(paths, t) && Distinct(paths)
    ensures UniqueNames(FileEntries(t, paths))
    decreases |paths|
  {
    if paths != [] {
      var n := |paths| - 1;
      var last := paths[n];
      var before := paths[..n];
      assert forall p :: p in before ==> p in paths;
      assert last !in before;
      FileEntriesNamesDistinct(t, before);
      FileEntriesSound(t, before);
      var es := FileEntries(t, paths);
      var prior := FileEntries(t, before);
      if Base(last) != MimetypeName {
        assert es == prior + [FileEntry(t, last)];
        forall i | 0 <= i < |prior| ensures prior[i].name != Join(last) {
          var q :| q in before && Archived(t, q) && prior[i] == FileEntry(t, q);
          if Join(q) == Join(last) {
            JoinInjective(q, last);
          }
        }
        forall i, j | 0 <= i < j < |es| ensures es[i].name != es[j].name {
          if j < |prior| {
            assert es[i] == prior[i] && es[j] == prior[j];
            assert prior[i].name != prior[j].name;
          } else {
            assert j == |prior|;
            assert es[i] == prior[i] && es[j] == FileEntry(t, last);
            assert prior[i].name != Join(last);
          }
        }
      } else {
        assert es == prior;
      }
    }
  }

  /** No entry the walk loop writes is named `mimetype`, whatever the depth of the file. */
  lemma FileEntriesNeverMimetype(t: Tree, paths: seq<Path>)
    requires ValidTree(t) && OnlyFiles(paths, t)
    ensures forall e :: e in FileEntries(t, paths) ==> e.name != MimetypeName
  {
    FileEntriesSound(t, paths);
    var es := FileEntries(t, paths);
    assert ValidName(MimetypeName) by {
      assert '/' !in MimetypeName;
    }
    forall k | 0 <= k < |es| ensures es[k].name != MimetypeName {
      var p :| p in paths && Archived(t, p) && es[k] == FileEntry(t, p);
      if Join(p) == MimetypeName {
        JoinIsName(p, MimetypeName);
      }
    }
  }

  /** Taking one element out of a sequence takes it out of its multiset. */
  lemma RemoveAt<T>(b: seq<T>, k: nat)
    requires k < |b|
    ensures b == b[..k] + [b[k]] + b[k + 1..]
    ensures multiset(b) == multiset(b[..k] + b[k + 1..]) + multiset{b[k]}
  {
    assert b == b[..k] + [b[k]] + b[k + 1..];
  }

  lemma OnlyFilesSplit(t: Tree, a: seq<Path>, b: seq<Path>)
    requires OnlyFiles(a + b, t)
    ensures OnlyFiles(a, t) && OnlyFiles(b, t)
  {
    assert forall p :: p in a ==> p in a + b;
    assert forall p :: p in b ==> p in a + b;
  }

  /** The entries of a listing split around one listed file. */
  lemma FileEntriesRemoveAt(t: Tree, b: seq<Path>, k: nat)
    requires OnlyFiles(b, t) && k < |b|
    ensures OnlyFiles(b[..k] + b[k + 1..], t) && OnlyFiles([b[k]], t)
    ensures multiset(FileEntries(t, b)) ==
      multiset(FileEntries(t, b[..k] + b[k + 1..])) + multiset(FileEntries(t, [b[k]]))
  {
    var front, x, back := b[..k], [b[k]], b[k + 1..];
    RemoveAt(b, k);
    OnlyFilesSplit(t, front + x, back);
    OnlyFilesSplit(t, front, x);
    FileEntriesAppend(t, front, back);
    FileEntriesAppend(t, front, x);
    FileEntriesAppend(t, front + x, back);
    var ef, ex, eb := FileEntries(t, front), FileEntries(t, x), FileEntries(t, back);
    calc {
      multiset(FileEntries(t, b));
      multiset(FileEntries(t, front + x) + eb);
      multiset(ef + ex + eb);
      multiset(ef) + multiset(ex) + multiset(eb);
      multiset(ef + eb) + multiset(ex);
      multiset(FileEntries(t, front + back)) + multiset(ex);
    }
  }

  /** A rearranged listing of files still lists only files. */
  lemma OnlyFilesPermuted(t: Tree, a: seq<Path>, b: seq<Path>)
    requires OnlyFiles(a, t) && multiset(a) == multiset(b)
    ensures OnlyFiles(b, t)
  {
    forall p | p in b ensures |p| > 0 && IsFile(t, p) {
      assert p in multiset(b);
      assert p in a;
    }
  }

  /** The entries depend on the listed files as a multiset only, not on their order. */
  lemma {:induction false} FileEntriesPermutation(t: Tree, a: seq<Path>, b: seq<Path>)
    requires OnlyFiles(a, t) && multiset(a) == multiset(b)
    ensures OnlyFiles(b, t)
    ensures multiset(FileEntries(t, a)) == multiset(FileEntries(t, b))
    decreases |a|
  {
    OnlyFilesPermuted(t, a, b);
    if a == [] {
      assert b == [] by {
        assert |b| == |multiset(b)|;
      }
    } else {
      var n := |a| - 1;
      var x, front := a[n], a[..n];
      assert a == front + [x];
      var k := PickIndex(b, x);
      var rest := b[..k] + b[k + 1..];
      RemoveMatching(a, b, k);
      assert OnlyFiles(front, t) && OnlyFiles([x], t) by {
        assert forall p :: p in front ==> p in a;
      }
      FileEntriesPermutation(t, front, rest);
      FileEntriesAppend(t, front, [x]);
      FileEntriesRemoveAt(t, b, k);
      var ea, ex := FileEntries(t, front), FileEntries(t, [x]);
      calc {
        multiset(FileEntries(t, a));
        multiset(ea + ex);
        multiset(ea) + multiset(ex);
        multiset(FileEntries(t, rest)) + multiset(ex);
        multiset(FileEntries(t, b));
      }
    }
  }

  /** Taking the last element out of `a` and the same element out of `b` keeps them rearrangements. */
  lemma RemoveMatching<T>(a: seq<T>, b: seq<T>, k: nat)
    requires multiset(a) == multiset(b) && |a| > 0 && k < |b| && b[k] == a[|a| - 1]
    ensures multiset(a[..|a| - 1]) == multiset(b[..k] + b[k + 1..])
  {
    var x, front, rest := a[|a| - 1], a[..|a| - 1], b[..k] + b[k + 1..];
    assert a == front + [x];
    RemoveAt(b, k);
    assert multiset(a) == multiset(front) + multiset{x};
    forall y ensures multiset(front)[y] == multiset(rest)[y] {
      assert (multiset(front) + multiset{x})[y] == (multiset(rest) + multiset{x})[y];
    }
  }

  /** An index at which an element of a rearranged sequence occurs. */
  lemma PickIndex<T>(b: seq<T>, x: T) returns (k: nat)
    requires x in multiset(b)
    ensures k < |b| && b[k] == x
  {
    assert x in b;
    k :| 0 <= k < |b| && b[k] == x;
  }

  /** In a sequence without repetitions every element occurs once. */
  lemma {:induction false} DistinctMultiplicity<T>(s: seq<T>)
    requires Distinct(s)
    ensures forall x :: multiset(s)[x] == if x in s then 1 else 0
    decreases |s|
  {
    if s != [] {
      var n := |s| - 1;
      assert s == s[..n] + [s[n]];
      assert Distinct(s[..n]);
      DistinctMultiplicity(s[..n]);
    }
  }

  /** Every entry after the first is the deflated entry of a staged file not named `mimetype`. */
  lemma ArchiveEntriesAreStagedFiles(t: Tree, walk: seq<WalkStep>)
    requires ValidTree(t) && [MimetypeName] in t && ListsFiles(walk, t)
    ensures var a := ArchiveSpec(t, walk);
      forall i :: 1 <= i < |a| ==>
        && a[i].compression == Deflated
        && a[i].name != MimetypeName
        && exists p :: Archived(t, p) && a[i] == FileEntry(t, p)
  {
    FlattenOnlyFiles(walk, t);
    var es := FileEntries(t, Flatten(walk));
    var a := ArchiveSpec(t, walk);
    FileEntriesSound(t, Flatten(walk));
    FileEntriesNeverMimetype(t, Flatten(walk));
    forall i | 1 <= i < |a| ensures a[i].name != MimetypeName {
      assert a[i] == es[i - 1] && es[i - 1] in es;
    }
  }

  /** Every staged file whose base name is not `mimetype` has its entry, with its own content. */
  lemma ArchiveHasEveryStagedFile(t: Tree, walk: seq<WalkStep>)
    requires [MimetypeName] in t && IsWalkOf(walk, t)
    ensures var a := ArchiveSpec(t, walk);
      forall p :: Archived(t, p) ==> exists i :: 1 <= i < |a| && a[i] == FileEntry(t, p)
  {
    FlattenOnlyFiles(walk, t);
    var a := ArchiveSpec(t, walk);
    forall p | Archived(t, p) ensures exists i :: 1 <= i < |a| && a[i] == FileEntry(t, p) {
      FileEntriesComplete(t, Flatten(walk), p);
      var k :| 0 <= k < |FileEntries(t, Flatten(walk))| && FileEntries(t, Flatten(walk))[k] == FileEntry(t, p);
      assert a[k + 1] == FileEntry(t, p);
    }
  }

  /**
   Entry names are unique: no two entries after the first share a name, and
   with a top-level `mimetype` file exactly one entry carries that name.
   */
  lemma ArchiveNamesUnique(t: Tree, walk: seq<WalkStep>)
    requires ValidTree(t) && [MimetypeName] in t && IsWalkOf(walk, t)
    ensures var a := ArchiveSpec(t, walk);
      && (forall i, j :: 1 <= i < j < |a| ==> a[i].name != a[j].name)
      && (IsFile(t, [MimetypeName]) ==> forall i :: 0 <= i < |a| ==> (a[i].name == MimetypeName <==> i == 0))
  {
    FlattenOnlyFiles(walk, t);
    var es := FileEntries(t, Flatten(walk));
    var a := ArchiveSpec(t, walk);
    ArchiveEntriesAreStagedFiles(t, walk);
    FileEntriesNamesDistinct(t, Flatten(walk));
    forall i, j | 1 <= i < j < |a| ensures a[i].name != a[j].name {
      assert a[i] == es[i - 1] && a[j] == es[j - 1];
      assert 0 <= i - 1 < j - 1 < |es|;
      assert es[i - 1].name != es[j - 1].name;
    }
  }

  /**
   The walk order does not matter: two walks of the same staging area give
   the same first entry and the same entries after it, each as often.
   */
  lemma ArchiveOrderIrrelevant(t: Tree, w1: seq<WalkStep>, w2: seq<WalkStep>)
    requires [MimetypeName] in t && IsWalkOf(w1, t) && IsWalkOf(w2, t)
    ensures ArchiveSpec(t, w1)[0] == ArchiveSpec(t, w2)[0]
    ensures multiset(ArchiveSpec(t, w1)) == multiset(ArchiveSpec(t, w2))
  {
    var f1, f2 := Flatten(w1), Flatten(w2);
    FlattenOnlyFiles(w1, t);
    FlattenOnlyFiles(w2, t);
    DistinctMultiplicity(f1);
    DistinctMultiplicity(f2);
    forall x ensures multiset(f1)[x] == multiset(f2)[x] {
      assert x in f1 <==> x in f2;
    }
    assert multiset(f1) == multiset(f2);
    FileEntriesPermutation(t, f1, f2);
    var first := [FirstEntry(t)];
    assert multiset(ArchiveSpec(t, w1)) == multiset(first) + multiset(FileEntries(t, f1));
    assert multiset(ArchiveSpec(t, w2)) == multiset(first) + multiset(FileEntries(t, f2));
  }
}
