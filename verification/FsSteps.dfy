/** The four ways the filesystem state changes, each with its invariant and its effect on the view:
    a new entry, new bytes for a file, the removal of a childless entry, a new working directory. */
module FsSteps {
  import opened Options
  import opened FsModel
  import opened FsTree
  import opened FsText
  import opened FsView

  // ----- a new entry -----

  function EmptyNode(ftype: FileType): Node
  {
    match ftype
    case Directory => Dir
    case Device => Dev
    case Regular => File([])
  }

  predicate Fresh(fs: Fs, e: Entry)
  {
    && e.parent == fs.cwd && FindHere(fs, e.name) == None && |fs.files| < MAX_FILES
    && |e.name| < MAX_FILENAME
    && e.size == 0 && (e.ftype == Regular ==> e.offset <= fs.usage)
  }

  /** fs' is fs with entry e at the end of the table; next_file_id may have moved. */
  predicate Appended(fs: Fs, fs': Fs, e: Entry)
  {
    fs' == fs.(files := fs.files + [e], nextId := fs'.nextId)
  }

  lemma AppendInv(fs: Fs, fs': Fs, e: Entry)
    requires Inv(fs) && Fresh(fs, e) && Appended(fs, fs', e)
    ensures Inv(fs')
  {
    GrowTree(fs.files, e);
    GrowNames(fs.files, e, fs.cwd, MAX_DEPTH);
    forall p | IsPath(fs'.files, fs'.cwd, p) ensures WayFits(p) {
      GrowPath(fs.files, e, fs.cwd, p);
    }
    forall i | 0 <= i < |fs'.files| ensures EntryFits(fs'.files, fs'.usage, i) {
      if i < |fs.files| { assert EntryFits(fs.files, fs.usage, i); }
    }
  }

  lemma AppendAbs(fs: Fs, fs': Fs, e: Entry)
    requires Inv(fs) && Fresh(fs, e) && Appended(fs, fs', e)
    ensures Inv(fs') && Abs(fs') == VPut(Abs(fs), e.name, EmptyNode(e.ftype))
  {
    hide AbsTree, Rebuilt;
    AppendInv(fs, fs', e);
    FindTarget(fs, e.name);
    var c, n := CwdPath(fs), |fs.files|;
    var t := c + [e.name];
    var m := AbsTree(fs)[t := EmptyNode(e.ftype)];
    GrowPathNew(fs.files, e, c);
    forall i | 0 <= i < |fs'.files| ensures Shown(fs', m, i) {
      assert EntryFits(fs'.files, fs'.usage, i);
      if i < n {
        assert Rooted(fs.files, i);
        var p := PathOf(fs.files, i);
        GrowPath(fs.files, e, i, p);
        AbsAt(fs, i, p);
        assert p != t;
      } else {
        assert m[t] == NodeAt(fs', n);
      }
    }
    forall p | p in m ensures Hits(fs'.files, p) {
      if p != t {
        var i := AbsFrom(fs, p);
        GrowPath(fs.files, e, i, p);
      }
    }
    AbsIs(fs', m);
    GrowPath(fs.files, e, fs.cwd, c);
    CwdIs(fs', c);
  }

  lemma AppendExclusive(fs: Fs, fs': Fs, e: Entry)
    requires Exclusive(fs) && e.size == 0 && Appended(fs, fs', e)
    ensures Exclusive(fs')
  {
    forall i, j | 0 <= i < |fs'.files| && 0 <= j < |fs'.files| && i != j
      ensures Apart(fs'.files, i, j)
    {
      if i < |fs.files| && j < |fs.files| { assert Apart(fs.files, i, j); }
    }
  }

  // ----- new bytes -----

  /** Writing n bytes at the start of file i touches no other file's data. */
  predicate ClearOf(files: seq<Entry>, i: nat, n: nat, j: nat)
    requires i < |files| && j < |files|
  {
    files[j].ftype == Regular ==>
      || n == 0 || files[j].size == 0
      || files[j].End() <= files[i].offset || files[i].offset + n <= files[j].offset
  }

  predicate Clear(files: seq<Entry>, i: nat, n: nat)
    requires i < |files|
  {
    forall j | 0 <= j < |files| && j != i :: ClearOf(files, i, n, j)
  }

  predicate Storable(fs: Fs, i: nat, bytes: seq<char>)
  {
    && i < |fs.files| && fs.files[i].ftype == Regular && |bytes| <= MAX_FILE_SIZE
    && fs.files[i].offset + |bytes| <= |fs.data|
  }

  lemma OverlayWithin(data: seq<char>, at: nat, bytes: seq<char>)
    requires at + |bytes| <= |data|
    ensures Overlay(data, at, bytes)[at..at + |bytes|] == bytes
  {
  }

  lemma OverlayAt(data: seq<char>, at: nat, bytes: seq<char>)
    requires at + |bytes| <= |data|
    ensures forall j | 0 <= j < |data| ::
      Overlay(data, at, bytes)[j] == if at <= j < at + |bytes| then bytes[j - at] else data[j]
  {
    var r := Overlay(data, at, bytes);
    forall j | 0 <= j < |data| ensures r[j] == if at <= j < at + |bytes| then bytes[j - at] else data[j] {
      if at + |bytes| <= j { assert data[at + |bytes|..][j - at - |bytes|] == data[j]; }
    }
  }

  lemma OverlayOutside(data: seq<char>, at: nat, bytes: seq<char>, lo: nat, hi: nat)
    requires at + |bytes| <= |data| && lo <= hi <= |data|
    requires bytes == [] || lo == hi || hi <= at || at + |bytes| <= lo
    ensures Overlay(data, at, bytes)[lo..hi] == data[lo..hi]
  {
    var r := Overlay(data, at, bytes);
    forall k | lo <= k < hi ensures r[k] == data[k] {
      if at + |bytes| <= k { assert data[at + |bytes|..][k - at - |bytes|] == data[k]; }
    }
  }

  lemma StoreInv(fs: Fs, i: nat, bytes: seq<char>)
    requires Inv(fs) && Storable(fs, i, bytes)
    ensures Inv(Store(fs, i, bytes))
  {
    var fs' := Store(fs, i, bytes);
    SameShapeTree(fs.files, fs'.files);
    SameShapeNames(fs.files, fs'.files, fs.cwd, MAX_DEPTH);
    forall p | IsPath(fs'.files, fs'.cwd, p) ensures WayFits(p) {
      SameShapePath(fs.files, fs'.files, fs.cwd, p);
    }
    forall j | 0 <= j < |fs'.files| ensures EntryFits(fs'.files, fs'.usage, j) {
      assert EntryFits(fs.files, fs.usage, j);
    }
  }

  lemma StoreNode(fs: Fs, i: nat, bytes: seq<char>, j: nat)
    requires Inv(fs) && Storable(fs, i, bytes) && j < |fs.files|
    requires j != i ==> ClearOf(fs.files, i, |bytes|, j)
    ensures var fs' := Store(fs, i, bytes);
            && EntryFits(fs.files, fs.usage, j) && EntryFits(fs'.files, fs'.usage, j)
            && fs'.usage <= |fs'.data| && fs.usage <= |fs.data|
            && NodeAt(fs', j) == if j == i then File(bytes) else NodeAt(fs, j)
  {
    StoreInv(fs, i, bytes);
    assert EntryFits(fs.files, fs.usage, j) && EntryFits(Store(fs, i, bytes).files, Store(fs, i, bytes).usage, j);
    var at := fs.files[i].offset;
    if j == i {
      OverlayWithin(fs.data, at, bytes);
    } else if fs.files[j].ftype == Regular {
      OverlayOutside(fs.data, at, bytes, fs.files[j].offset, fs.files[j].End());
    }
  }

  lemma StoreShown(fs: Fs, i: nat, bytes: seq<char>, t: Path, j: nat)
    requires Inv(fs) && Storable(fs, i, bytes) && Clear(fs.files, i, |bytes|) && IsPath(fs.files, i, t)
    requires j < |fs.files|
    ensures Inv(Store(fs, i, bytes)) && Shown(Store(fs, i, bytes), AbsTree(fs)[t := File(bytes)], j)
  {
    hide AbsTree;
    var fs' := Store(fs, i, bytes);
    assert Rooted(fs.files, j);
    var p := PathOf(fs.files, j);
    StoreInv(fs, i, bytes);
    AbsAt(fs, j, p);
    SameShapePath(fs.files, fs'.files, j, p);
    assert j != i ==> ClearOf(fs.files, i, |bytes|, j);
    StoreNode(fs, i, bytes, j);
    SamePlace(fs.files, i, t, j, p);
  }

  lemma SamePlace(files: seq<Entry>, i: nat, t: Path, j: nat, p: Path)
    requires Tree(files) && IsPath(files, i, t) && IsPath(files, j, p)
    ensures i == j <==> t == p
  {
    if p == t { EntryUnique(files, i, j, p); }
    if j == i { PathUnique(files, i, p, t); }
  }

  lemma StoreAbs(fs: Fs, i: nat, bytes: seq<char>, t: Path)
    requires Inv(fs) && Storable(fs, i, bytes) && Clear(fs.files, i, |bytes|) && IsPath(fs.files, i, t)
    ensures var fs' := Store(fs, i, bytes);
            Inv(fs') && Abs(fs') == Abs(fs).(tree := AbsTree(fs)[t := File(bytes)])
  {
    hide Rebuilt, Inv, AbsTree;
    var fs' := Store(fs, i, bytes);
    StoreInv(fs, i, bytes);
    var m := AbsTree(fs)[t := File(bytes)];
    forall j | 0 <= j < |fs'.files| ensures Shown(fs', m, j) {
      StoreShown(fs, i, bytes, t, j);
    }
    forall p | p in m ensures Hits(fs'.files, p) {
      var j := i;
      if p != t { j := AbsFrom(fs, p); }
      SameShapePath(fs.files, fs'.files, j, p);
    }
    AbsIs(fs', m);
    SameShapePath(fs.files, fs'.files, fs.cwd, CwdPath(fs));
    CwdIs(fs', CwdPath(fs));
  }

  lemma StoreExclusive(fs: Fs, i: nat, bytes: seq<char>)
    requires Exclusive(fs) && Storable(fs, i, bytes) && Clear(fs.files, i, |bytes|)
    ensures Exclusive(Store(fs, i, bytes))
  {
    var g := Store(fs, i, bytes).files;
    forall j, k | 0 <= j < |g| && 0 <= k < |g| && j != k ensures Apart(g, j, k) {
      assert Apart(fs.files, j, k);
      assert k != i ==> ClearOf(fs.files, i, |bytes|, k);
      assert j != i ==> ClearOf(fs.files, i, |bytes|, j);
    }
  }

  /** What a caller can check before a write: it does not enlarge the file, or the file's data is
      the last in use. */
  predicate NoRegrow(fs: Fs, i: nat, n: nat)
    requires i < |fs.files|
  {
    n <= fs.files[i].size || fs.files[i].End() == fs.usage
  }

  lemma NoRegrowIsClear(fs: Fs, i: nat, n: nat)
    requires Inv(fs) && Exclusive(fs) && i < |fs.files| && fs.files[i].ftype == Regular && NoRegrow(fs, i, n)
    ensures Clear(fs.files, i, n)
  {
    forall j | 0 <= j < |fs.files| && j != i ensures ClearOf(fs.files, i, n, j) {
      assert Apart(fs.files, i, j);
      assert EntryFits(fs.files, fs.usage, i) && EntryFits(fs.files, fs.usage, j);
    }
  }

  // ----- removal of a childless entry -----

  /** The working directory may be renumbered, but it is the same entry with the same path. */
  lemma RemoveCwd(fs: Fs, t: nat)
    requires Inv(fs) && t < |fs.files| && !HasChild(fs.files, t) && t != fs.cwd
    ensures var fs' := Remove(fs, t);
            && fs'.cwd < |fs'.files| && OldIndex(|fs.files|, t, fs'.cwd) == fs.cwd
            && fs'.files[fs'.cwd].ftype == Directory
            && Rebuilt(fs'.files, fs'.cwd) == Rebuilt(fs.files, fs.cwd)
  {
    var j := Remove(fs, t).cwd;
    ParentSurvives(fs.files, t, j);
    RemovedNames(fs.files, t, j, MAX_DEPTH);
  }

  lemma RemoveRoomy(files: seq<Entry>, t: nat, j: nat)
    requires Tree(files) && t < |files| && !HasChild(files, t) && j < |files| - 1
    requires Roomy(files, OldIndex(|files|, t, j))
    ensures Roomy(Removed(files, t), j)
  {
    forall p | IsPath(Removed(files, t), j, p) ensures WayFits(p) {
      RemovedPath(files, t, j, p);
    }
  }

  lemma RemoveArea(fs: Fs, t: nat)
    requires Inv(fs) && t < |fs.files|
    ensures var fs' := Remove(fs, t);
            forall j | 0 <= j < |fs'.files| :: EntryFits(fs'.files, fs'.usage, j)
  {
    var fs' := Remove(fs, t);
    forall j | 0 <= j < |fs'.files| ensures EntryFits(fs'.files, fs'.usage, j) {
      assert EntryFits(fs.files, fs.usage, OldIndex(|fs.files|, t, j));
    }
  }

  lemma RemoveInv(fs: Fs, t: nat)
    requires Inv(fs) && t < |fs.files| && !HasChild(fs.files, t) && t != fs.cwd
    ensures Inv(Remove(fs, t))
  {
    RemovedTree(fs.files, t);
    RemoveCwd(fs, t);
    RemoveRoomy(fs.files, t, Remove(fs, t).cwd);
    RemoveArea(fs, t);
  }

  lemma RemoveNode(fs: Fs, t: nat, j: nat)
    requires Inv(fs) && t < |fs.files| && Inv(Remove(fs, t)) && j < |fs.files| - 1
    ensures var fs', i := Remove(fs, t), OldIndex(|fs.files|, t, j);
            && EntryFits(fs.files, fs.usage, i) && EntryFits(fs'.files, fs'.usage, j)
            && NodeAt(fs', j) == NodeAt(fs, i)
  {
    hide Rebuilt;
    assert EntryFits(fs.files, fs.usage, OldIndex(|fs.files|, t, j));
    assert EntryFits(Remove(fs, t).files, Remove(fs, t).usage, j);
  }

  lemma RemoveShown(fs: Fs, t: nat, p: Path, j: nat)
    requires Inv(fs) && IsPath(fs.files, t, p) && !HasChild(fs.files, t) && Inv(Remove(fs, t))
    requires j < |fs.files| - 1
    ensures Shown(Remove(fs, t), AbsTree(fs) - {p}, j)
  {
    hide AbsTree, Rebuilt;
    var fs' := Remove(fs, t);
    var i := OldIndex(|fs.files|, t, j);
    assert Rooted(fs.files, i);
    var q := PathOf(fs.files, i);
    AbsAt(fs, i, q);
    RemovedPath(fs.files, t, j, q);
    if q == p { EntryUnique(fs.files, i, t, p); }
    RemoveNode(fs, t, j);
  }

  lemma RemoveHits(fs: Fs, t: nat, p: Path, q: Path)
    requires Inv(fs) && !HasChild(fs.files, t) && IsPath(fs.files, t, p) && q in AbsTree(fs) && q != p
    ensures Hits(Removed(fs.files, t), q)
  {
    hide AbsTree, Rebuilt;
    var i := AbsFrom(fs, q);
    if i == t { PathUnique(fs.files, t, p, q); }
    RemovedPath(fs.files, t, if i == |fs.files| - 1 then t else i, q);
  }

  /** Swap-delete is a pure renumbering: the view loses the deleted path and nothing else, and the
      working directory keeps its path. */
  lemma RemoveAbs(fs: Fs, t: nat, p: Path)
    requires Inv(fs) && !HasChild(fs.files, t) && t != fs.cwd && IsPath(fs.files, t, p)
    ensures Inv(Remove(fs, t)) && Abs(Remove(fs, t)) == VDrop(Abs(fs), p)
  {
    var fs' := Remove(fs, t);
    RemoveInv(fs, t);
    var m := AbsTree(fs) - {p};
    forall j | 0 <= j < |fs'.files| ensures Shown(fs', m, j) {
      RemoveShown(fs, t, p, j);
    }
    forall q | q in m ensures Hits(fs'.files, q) {
      RemoveHits(fs, t, p, q);
    }
    AbsIs(fs', m);
    RemoveCwd(fs, t);
    RemovedPath(fs.files, t, fs'.cwd, CwdPath(fs));
    CwdIs(fs', CwdPath(fs));
  }

  lemma RemoveExclusive(fs: Fs, t: nat)
    requires Exclusive(fs) && t < |fs.files|
    ensures Exclusive(Remove(fs, t))
  {
    var g, n := Removed(fs.files, t), |fs.files|;
    forall i, j | 0 <= i < |g| && 0 <= j < |g| && i != j ensures Apart(g, i, j) {
      assert Apart(fs.files, OldIndex(n, t, i), OldIndex(n, t, j));
    }
  }

  /** The working directory is found in itself only when it is the root, which has a child. */
  lemma FoundIsNotCwd(fs: Fs, t: nat)
    requires t < |fs.files| && !HasChild(fs.files, t) && fs.files[t].parent == fs.cwd
    ensures t != fs.cwd
  {
    assert fs.files[t].parent != t;
  }

  // ----- a new working directory -----

  lemma EnterAbs(fs: Fs, dir: nat, p: Path)
    requires Inv(fs) && IsPath(fs.files, dir, p) && fs.files[dir].ftype == Directory
    requires WayFits(p)
    ensures Inv(Enter(fs, dir)) && Abs(Enter(fs, dir)) == Abs(fs).(cwd := p)
  {
    var fs' := Enter(fs, dir);
    RoomyAt(fs.files, dir, p);
    forall i | 0 <= i < |fs'.files| ensures Shown(fs', AbsTree(fs), i) {
      assert Rooted(fs.files, i);
      AbsAt(fs, i, PathOf(fs.files, i));
      assert NodeAt(fs', i) == NodeAt(fs, i);
    }
    forall q | q in AbsTree(fs) ensures Hits(fs'.files, q) {
      var i := AbsFrom(fs, q);
    }
    AbsIs(fs', AbsTree(fs));
    CwdIs(fs', p);
  }
}
