/** The directory tree behind the entry table.

    A path is the sequence of names from the root to an entry.  `IsPath` walks it upwards through
    the parent indices; that every entry has one says that all parent walks end at the root. */
module FsTree {
  import opened Options
  import opened FsModel

  type Path = seq<string>

  function Up(p: Path): Path
    requires p != []
  {
    p[..|p| - 1]
  }

  function Base(p: Path): string
    requires p != []
  {
    p[|p| - 1]
  }

  /** p leads from the root to entry i. */
  predicate IsPath(files: seq<Entry>, i: nat, p: Path)
    decreases |p|
  {
    && i < |files|
    && if p == [] then i == 0
       else i != 0 && files[i].name == Base(p) && IsPath(files, files[i].parent, Up(p))
  }

  ghost predicate Rooted(files: seq<Entry>, i: nat)
  {
    exists p :: IsPath(files, i, p)
  }

  predicate Parented(files: seq<Entry>, i: nat)
    requires i < |files|
  {
    files[i].parent < |files| && files[files[i].parent].ftype == Directory
  }

  predicate NotTwins(files: seq<Entry>, i: nat, j: nat)
    requires i < |files| && j < |files|
  {
    files[i].parent == files[j].parent ==> files[i].name != files[j].name
  }

  /** The table is a tree of directories with unique sibling names, rooted at entry 0. */
  ghost predicate Tree(files: seq<Entry>)
  {
    && files != [] && files[0].ftype == Directory && files[0].parent == 0 && files[0].name == "/"
    && (forall i | 0 <= i < |files| :: Parented(files, i))
    && (forall i, j | 0 <= i < j < |files| :: NotTwins(files, i, j))
    && (forall i | 0 <= i < |files| :: Rooted(files, i))
  }

  // ----- an entry and its path determine each other -----

  lemma {:induction false} PathUnique(files: seq<Entry>, i: nat, p: Path, q: Path)
    requires IsPath(files, i, p) && IsPath(files, i, q)
    ensures p == q
    decreases |p|
  {
    if p != [] {
      PathUnique(files, files[i].parent, Up(p), Up(q));
      assert p == Up(p) + [Base(p)] && q == Up(q) + [Base(q)];
    }
  }

  lemma {:induction false} EntryUnique(files: seq<Entry>, i: nat, j: nat, p: Path)
    requires Tree(files) && IsPath(files, i, p) && IsPath(files, j, p)
    ensures i == j
    decreases |p|
  {
    if p != [] {
      EntryUnique(files, files[i].parent, files[j].parent, Up(p));
      assert i < j ==> NotTwins(files, i, j);
      assert j < i ==> NotTwins(files, j, i);
    }
  }

  lemma PathStep(files: seq<Entry>, i: nat, q: Path)
    requires 0 < i < |files| && IsPath(files, files[i].parent, q)
    ensures IsPath(files, i, q + [files[i].name])
  {
    var p := q + [files[i].name];
    assert Up(p) == q && Base(p) == files[i].name;
  }

  ghost function PathOf(files: seq<Entry>, i: nat): (p: Path)
    requires Rooted(files, i)
    ensures IsPath(files, i, p)
  {
    var p :| IsPath(files, i, p); p
  }

  lemma PathOfIs(files: seq<Entry>, i: nat, p: Path)
    requires IsPath(files, i, p)
    ensures Rooted(files, i) && PathOf(files, i) == p
  {
    PathUnique(files, i, p, PathOf(files, i));
  }

  lemma FindIs(files: seq<Entry>, i: nat, dir: nat, name: string)
    requires Tree(files) && i < |files| && Matches(files, i, dir, name)
    ensures Find(files, dir, name) == Some(i)
  {
    var r := Find(files, dir, name);
    assert r.Some?;
    var j := r.value;
    assert i < j ==> NotTwins(files, i, j);
    assert j < i ==> NotTwins(files, j, i);
  }

  // ----- changing what is not part of the tree -----

  /** The tables agree on names, types and parents. */
  ghost predicate SameShape(a: seq<Entry>, b: seq<Entry>)
  {
    |a| == |b| && forall i | 0 <= i < |a| ::
      a[i].name == b[i].name && a[i].ftype == b[i].ftype && a[i].parent == b[i].parent
  }

  lemma {:induction false} SameShapePath(a: seq<Entry>, b: seq<Entry>, i: nat, p: Path)
    requires SameShape(a, b)
    ensures IsPath(a, i, p) == IsPath(b, i, p)
    decreases |p|
  {
    if p != [] && i < |a| {
      SameShapePath(a, b, a[i].parent, Up(p));
    }
  }

  lemma SameShapeTree(a: seq<Entry>, b: seq<Entry>)
    requires SameShape(a, b) && Tree(a)
    ensures Tree(b)
  {
    forall i | 0 <= i < |b| ensures Parented(b, i) && Rooted(b, i) {
      assert Parented(a, i);
      SameShapePath(a, b, i, PathOf(a, i));
    }
    forall i, j | 0 <= i < j < |b| ensures NotTwins(b, i, j) {
      assert NotTwins(a, i, j);
    }
  }

  lemma {:induction false} SameShapeNames(a: seq<Entry>, b: seq<Entry>, i: nat, fuel: nat)
    requires SameShape(a, b)
    ensures Names(a, i, fuel) == Names(b, i, fuel)
    decreases fuel
  {
    if i < |a| && fuel > 0 {
      SameShapeNames(a, b, a[i].parent, fuel - 1);
    }
  }

  // ----- a new entry at the end of the table -----

  lemma {:induction false} GrowPath(files: seq<Entry>, e: Entry, i: nat, p: Path)
    requires Tree(files) && i < |files|
    ensures IsPath(files + [e], i, p) == IsPath(files, i, p)
    decreases |p|
  {
    if p != [] {
      assert Parented(files, i);
      GrowPath(files, e, files[i].parent, Up(p));
    }
  }

  lemma GrowPathNew(files: seq<Entry>, e: Entry, q: Path)
    requires Tree(files) && IsPath(files, e.parent, q)
    ensures IsPath(files + [e], |files|, q + [e.name])
  {
    GrowPath(files, e, e.parent, q);
    PathStep(files + [e], |files|, q);
  }

  lemma GrowTree(files: seq<Entry>, e: Entry)
    requires Tree(files) && e.parent < |files| && files[e.parent].ftype == Directory
    requires Find(files, e.parent, e.name) == None
    ensures Tree(files + [e])
  {
    var g := files + [e];
    assert Rooted(files, e.parent);
    forall i | 0 <= i < |g| ensures Parented(g, i) && Rooted(g, i) {
      if i < |files| {
        assert Parented(files, i) && Rooted(files, i);
        GrowPath(files, e, i, PathOf(files, i));
      } else {
        GrowPathNew(files, e, PathOf(files, e.parent));
      }
    }
    forall i, j | 0 <= i < j < |g| ensures NotTwins(g, i, j) {
      if j < |files| { assert NotTwins(files, i, j); } else { assert !Matches(files, i, e.parent, e.name); }
    }
  }

  lemma {:induction false} GrowNames(files: seq<Entry>, e: Entry, i: nat, fuel: nat)
    requires Tree(files) && i < |files|
    ensures Names(files + [e], i, fuel) == Names(files, i, fuel)
    decreases fuel
  {
    if fuel > 0 {
      assert Parented(files, i);
      GrowNames(files, e, files[i].parent, fuel - 1);
    }
  }

  // ----- swap-delete of a childless entry is a pure renumbering -----

  lemma ParentSurvives(files: seq<Entry>, t: nat, j: nat)
    requires Tree(files) && t < |files| && !HasChild(files, t) && j < |files| - 1
    ensures t != 0
    ensures var g, i := Removed(files, t), OldIndex(|files|, t, j);
            && g[j].parent < |files| - 1
            && OldIndex(|files|, t, g[j].parent) == files[i].parent
            && (j == 0 <==> i == 0)
  {
    var i := OldIndex(|files|, t, j);
    assert Parented(files, i);
    assert files[i].parent != t && files[0].parent != t;
  }

  lemma {:induction false} RemovedPath(files: seq<Entry>, t: nat, j: nat, p: Path)
    requires Tree(files) && t < |files| && !HasChild(files, t) && j < |files| - 1
    ensures IsPath(Removed(files, t), j, p) == IsPath(files, OldIndex(|files|, t, j), p)
    decreases |p|
  {
    ParentSurvives(files, t, j);
    if p != [] {
      RemovedPath(files, t, Removed(files, t)[j].parent, Up(p));
    }
  }

  lemma {:induction false} RemovedNames(files: seq<Entry>, t: nat, j: nat, fuel: nat)
    requires Tree(files) && t < |files| && !HasChild(files, t) && j < |files| - 1
    ensures Names(Removed(files, t), j, fuel) == Names(files, OldIndex(|files|, t, j), fuel)
    decreases fuel
  {
    ParentSurvives(files, t, j);
    if fuel > 0 {
      RemovedNames(files, t, Removed(files, t)[j].parent, fuel - 1);
    }
  }

  lemma RemovedTree(files: seq<Entry>, t: nat)
    requires Tree(files) && t < |files| && !HasChild(files, t)
    ensures Tree(Removed(files, t))
  {
    var g, n := Removed(files, t), |files|;
    assert files[0].parent != t;
    ParentSurvives(files, t, 0);
    forall j | 0 <= j < |g| ensures Parented(g, j) && Rooted(g, j) {
      var i := OldIndex(n, t, j);
      ParentSurvives(files, t, j);
      assert Parented(files, i) && Rooted(files, i);
      RemovedPath(files, t, j, PathOf(files, i));
    }
    forall j, k | 0 <= j < k < |g| ensures NotTwins(g, j, k) {
      var i, l := OldIndex(n, t, j), OldIndex(n, t, k);
      ParentSurvives(files, t, j);
      ParentSurvives(files, t, k);
      assert if i < l then NotTwins(files, i, l) else NotTwins(files, l, i);
    }
  }
}
