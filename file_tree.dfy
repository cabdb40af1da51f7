/**
 The file system as plain data: a directory is a finite map from relative
 paths to the items stored there. A directory appears both as an explicit
 `Dir` item and as the common prefix of the paths below it, so "the path
 exists" (Python's `Path.exists()`, true of files and directories alike) is
 map membership.
 */
module FileTree {
  import opened Paths

  newtype byte = b: int | 0 <= b < 256

  type Bytes = seq<byte>

  datatype Item = File(content: Bytes) | Dir

  type Tree = map<Path, Item>

  /**
   What a real directory tree satisfies: every path is made of valid names
   and every proper prefix of a stored path is a directory in the tree.
   */
  predicate ValidTree(t: Tree) {
    && (forall p :: p in t ==> ValidPath(p))
    && (forall p, k :: p in t && 0 < k < |p| ==> p[..k] in t && t[p[..k]].Dir?)
  }

  predicate IsFile(t: Tree, p: Path) {
    p in t && t[p].File?
  }

  predicate IsFolder(t: Tree, name: Name) {
    [name] in t && t[[name]].Dir?
  }

  /** The contents of the directory `name` at the top of `t`, relative to that directory. */
  function Subtree(t: Tree, name: Name): (r: Tree)
    ensures forall p :: p in r <==> |p| > 0 && [name] + p in t
    ensures forall p :: p in r ==> r[p] == t[[name] + p]
  {
    assert forall q: Path | |q| > 0 :: q == [q[0]] + q[1..];
    var r := map q | q in t && |q| > 1 && q[0] == name :: q[1..] := t[q];
    assert forall p :: |p| > 0 && [name] + p in t ==> p in r by {
      forall p | |p| > 0 && [name] + p in t ensures p in r {
        var q := [name] + p;
        assert q[1..] == p;
      }
    }
    assert forall p :: p in r ==> [name] + p in t && r[p] == t[[name] + p] by {
      forall p | p in r ensures [name] + p in t && r[p] == t[[name] + p] {
        var q :| q in t && |q| > 1 && q[0] == name && q[1..] == p;
        assert q == [name] + p;
      }
    }
    r
  }

  /** The contents of a directory of a real tree form a real tree themselves. */
  lemma SubtreeValid(t: Tree, name: Name)
    requires ValidTree(t)
    ensures ValidTree(Subtree(t, name))
  {
    var s := Subtree(t, name);
    forall p | p in s ensures ValidPath(p) {
      var q := [name] + p;
      assert ValidPath(q);
      forall i | 0 <= i < |p| ensures ValidName(p[i]) {
        assert p[i] == q[i + 1];
      }
    }
    forall p, k | p in s && 0 < k < |p| ensures p[..k] in s && s[p[..k]].Dir? {
      var q := [name] + p;
      assert q[..k + 1] == [name] + p[..k];
      assert q[..k + 1] in t && t[q[..k + 1]].Dir?;
    }
  }

  /** Whatever lies below the top level sits inside a top-level directory. */
  lemma TopSegmentIsDir(t: Tree, p: Path)
    requires ValidTree(t) && p in t && |p| > 1
    ensures [p[0]] in t && t[[p[0]]].Dir?
  {
    assert p[..1] == [p[0]];
  }
}
