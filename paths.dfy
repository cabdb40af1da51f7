/**
 Relative paths as sequences of name segments, and their rendering as archive
 entry names (segments joined by forward slashes, as `os.path.relpath` gives
 them and as ZIP entry names are written).
 */
module Paths {

  /** One path segment: the name of a file or directory. */
  type Name = string

  /** A path relative to some directory, segment by segment. */
  type Path = seq<Name>

  /** A name the file system can hold: non-empty and free of the separator. */
  predicate ValidName(n: Name) {
    |n| > 0 && '/' !in n
  }

  predicate ValidPath(p: Path) {
    |p| > 0 && forall i :: 0 <= i < |p| ==> ValidName(p[i])
  }

  /** The last segment of a path: the name `os.walk` reports a file under. */
  function Base(p: Path): Name
    requires |p| > 0
  {
    p[|p| - 1]
  }

  /** The entry name of a relative path: its segments joined with '/'. */
  function Join(p: Path): string
    requires |p| > 0
  {
    if |p| == 1 then p[0] else p[0] + "/" + Join(p[1..])
  }

  /** Where the first separator of a joined path of two or more segments sits. */
  lemma JoinFirstSeparator(p: Path)
    requires |p| > 1
    ensures |p[0]| < |Join(p)| && Join(p)[|p[0]|] == '/'
    ensures Join(p)[..|p[0]|] == p[0]
    ensures Join(p)[|p[0]| + 1..] == Join(p[1..])
  {
    assert Join(p) == p[0] + "/" + Join(p[1..]);
  }

  /**
   Joining is injective on valid paths: two distinct staged files never get
   the same entry name.
   */
  lemma {:induction false} JoinInjective(p: Path, q: Path)
    requires ValidPath(p) && ValidPath(q)
    requires Join(p) == Join(q)
    ensures p == q
    decreases |p|
  {
    if |p| == 1 || |q| == 1 {
      if |p| != |q| {
        if |p| == 1 { JoinFirstSeparator(q); } else { JoinFirstSeparator(p); }
      }
    } else {
      JoinFirstSeparator(p);
      JoinFirstSeparator(q);
      assert p[0] == q[0];
      assert ValidPath(p[1..]) by {
        forall i | 0 <= i < |p[1..]| ensures ValidName(p[1..][i]) {
          assert p[1..][i] == p[i + 1];
        }
      }
      assert ValidPath(q[1..]) by {
        forall i | 0 <= i < |q[1..]| ensures ValidName(q[1..][i]) {
          assert q[1..][i] == q[i + 1];
        }
      }
      JoinInjective(p[1..], q[1..]);
      assert p == [p[0]] + p[1..];
      assert q == [q[0]] + q[1..];
    }
  }

  /** The only valid path whose entry name is the single segment `n` is `[n]`. */
  lemma JoinIsName(p: Path, n: Name)
    requires ValidPath(p) && ValidName(n)
    requires Join(p) == n
    ensures p == [n]
  {
    assert Join([n]) == n;
    JoinInjective(p, [n]);
  }
}
