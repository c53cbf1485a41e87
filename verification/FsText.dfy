/** The text of a path: how the names on the way to a directory make up its string, and how long that
    string gets. */
module FsText {
  import opened FsModel
  import opened FsTree

  lemma ShiftText(a: string, b: string, c: string)
    ensures a + (b + c) == a + b + c
  {
  }

  lemma {:induction false} JoinSlashed(names: seq<string>)
    requires names != []
    ensures "/" + Join(names) == Slashed(names)
    decreases |names|
  {
    var init, last := names[..|names| - 1], names[|names| - 1];
    if |names| > 1 {
      JoinSlashed(init);
      ShiftText("/", Join(init), "/" + last);
    }
  }

  /** The names that a climb of at most 32 steps collects. */
  function LastNames(p: Path): Path
  {
    if |p| <= MAX_DEPTH then p else p[|p| - MAX_DEPTH..]
  }

  /** The names collected on the way up are the last ones of the path, at most fuel of them. */
  lemma {:induction false} NamesOfPath(files: seq<Entry>, i: nat, p: Path, fuel: nat)
    requires IsPath(files, i, p)
    ensures Names(files, i, fuel) == if |p| <= fuel then p else p[|p| - fuel..]
    decreases fuel
  {
    if p != [] && fuel > 0 {
      NamesOfPath(files, files[i].parent, Up(p), fuel - 1);
      LastOfUp(p, fuel);
    }
  }

  lemma LastOfUp(p: Path, fuel: nat)
    requires p != [] && fuel > 0
    ensures (if |p| - 1 <= fuel - 1 then Up(p) else Up(p)[|p| - 1 - (fuel - 1)..]) + [Base(p)]
            == if |p| <= fuel then p else p[|p| - fuel..]
  {
  }

  /** The length of a path as text: every name and the "/" before it. */
  function PathLength(p: Path): nat
  {
    if p == [] then 0 else PathLength(Up(p)) + 1 + |Base(p)|
  }

  lemma PathLengthSnoc(p: Path, x: string)
    ensures PathLength(p + [x]) == PathLength(p) + 1 + |x|
  {
    assert Up(p + [x]) == p;
  }

  lemma {:induction false} SlashedLength(p: Path)
    ensures |Slashed(p)| == PathLength(p)
    decreases |p|
  {
    if p != [] { SlashedLength(Up(p)); }
  }

  /** A stretch of a path is no longer than the path. */
  lemma {:induction false} PathLengthGrows(p: Path, n: nat)
    requires n <= |p|
    ensures PathLength(p[..n]) <= PathLength(p)
    decreases |p|
  {
    if n == |p| {
      assert p[..n] == p;
    } else {
      assert Up(p)[..n] == p[..n];
      PathLengthGrows(Up(p), n);
    }
  }

  /** The cached path of a directory is as long as the last 32 names on its path make it. */
  lemma CachedPathLength(files: seq<Entry>, dir: nat, p: Path)
    requires IsPath(files, dir, p)
    ensures PathFits(files, dir) <==> PathLength(LastNames(p)) < MAX_PATH
  {
    NamesOfPath(files, dir, p, MAX_DEPTH);
    SlashedLength(LastNames(p));
    if p != [] { JoinSlashed(LastNames(p)); }
  }

  // ----- going up -----

  ghost predicate PrefixFits(p: Path, n: nat)
    requires n <= |p|
  {
    PathLength(LastNames(p[..n])) < MAX_PATH
  }

  /** The cached path fits in the directory at p and in all directories above it. */
  ghost predicate WayFits(p: Path)
  {
    forall n | 0 <= n <= |p| :: PrefixFits(p, n)
  }

  lemma WayUp(p: Path)
    requires p != [] && WayFits(p)
    ensures WayFits(Up(p))
  {
    forall n | 0 <= n <= |Up(p)| ensures PrefixFits(Up(p), n) {
      assert Up(p)[..n] == p[..n];
      assert PrefixFits(p, n);
    }
  }

  lemma WayDown(p: Path, x: string)
    requires WayFits(p) && PathLength(LastNames(p + [x])) < MAX_PATH
    ensures WayFits(p + [x])
  {
    var q := p + [x];
    forall n | 0 <= n <= |q| ensures PrefixFits(q, n) {
      if n <= |p| {
        assert q[..n] == p[..n];
        assert PrefixFits(p, n);
      } else {
        assert q[..n] == q;
      }
    }
  }

  lemma WayHere(p: Path)
    requires WayFits(p)
    ensures PathLength(LastNames(p)) < MAX_PATH
  {
    assert PrefixFits(p, |p|) && p[..|p|] == p;
  }

  lemma WayFromRoot()
    ensures WayFits([])
  {
    var root: Path := [];
    assert root[..0] == root;
  }
}
