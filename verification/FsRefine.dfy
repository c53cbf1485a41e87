/** Every filesystem operation refines its counterpart on the view. */
module FsRefine {
  import opened Options
  import opened FsModel
  import opened FsTree
  import opened FsText
  import opened FsView
  import opened FsSteps

  predicate Full(fs: Fs)
  {
    |fs.files| == MAX_FILES || fs.nextId >= MAX_FILES
  }

  /** The operation keeps the invariant and does on the view what its counterpart does.  The view
      has no capacity: for lack of space an operation may instead fail and change nothing. */
  ghost predicate Refines(fs: Fs, r: (Fs, Status), a: (View, Status))
  {
    && Inv(r.0)
    && if r.1 == NoSpace then Full(fs) && r.0 == fs
       else r.1 == a.1 && Abs(r.0) == a.0
  }

  lemma CreateRefines(fs: Fs, name: string, ftype: FileType)
    requires Inv(fs) && NameFits(fs, name)
    ensures Refines(fs, Create(fs, name, ftype), VCreate(Abs(fs), name, EmptyNode(ftype)))
    ensures Exclusive(fs) ==> Exclusive(Create(fs, name, ftype).0)
  {
    FindTarget(fs, name);
    var (fs', status) := Create(fs, name, ftype);
    if status == Success {
      var e := Entry(name, ftype, 0, fs.cwd, fs.usage);
      AppendAbs(fs, fs', e);
      if Exclusive(fs) { AppendExclusive(fs, fs', e); }
    } else if status == AlreadyExists {
      AbsAt(fs, FindHere(fs, name).value, Target(Abs(fs), name));
    }
  }

  lemma MkdirRefines(fs: Fs, name: string)
    requires Inv(fs)
    ensures Refines(fs, Mkdir(fs, name), VMkdir(Abs(fs), name))
    ensures Exclusive(fs) ==> Exclusive(Mkdir(fs, name).0)
  {
    FindTarget(fs, name);
    var (fs', status) := Mkdir(fs, name);
    if status == Success {
      var e := Entry(name, Directory, 0, fs.cwd, 0);
      AppendAbs(fs, fs', e);
      if Exclusive(fs) { AppendExclusive(fs, fs', e); }
    } else if status == AlreadyExists {
      AbsAt(fs, FindHere(fs, name).value, Target(Abs(fs), name));
    }
  }

  /** The caller's side of a write: an existing file is not enlarged away from the end of the data. */
  predicate WriteQuiet(fs: Fs, name: string, bytes: seq<char>)
  {
    match FindHere(fs, name)
    case None => true
    case Some(i) => fs.files[i].ftype == Regular ==> NoRegrow(fs, i, |Clip(bytes)|)
  }

  lemma StoreQuiet(fs: Fs, i: nat, bytes: seq<char>, t: Path)
    requires Inv(fs) && Exclusive(fs) && Storable(fs, i, bytes) && NoRegrow(fs, i, |bytes|)
    requires IsPath(fs.files, i, t)
    ensures var fs' := Store(fs, i, bytes);
            Inv(fs') && Exclusive(fs') && Abs(fs') == Abs(fs).(tree := AbsTree(fs)[t := File(bytes)])
  {
    NoRegrowIsClear(fs, i, |bytes|);
    StoreAbs(fs, i, bytes, t);
    StoreExclusive(fs, i, bytes);
  }

  lemma CreateNew(fs: Fs, name: string)
    requires Inv(fs) && Exclusive(fs) && FindHere(fs, name) == None && |fs.files| < MAX_FILES
    requires NameFits(fs, name)
    ensures var fs1, n, t := Create(fs, name, Regular).0, |fs.files|, CwdPath(fs) + [name];
            && Inv(fs1) && Exclusive(fs1) && |fs1.files| == n + 1 && IsPath(fs1.files, n, t)
            && fs1.files[n] == Entry(name, Regular, 0, fs.cwd, fs.usage)
            && fs1.usage == fs.usage && fs1.data == fs.data
            && Abs(fs1) == VPut(Abs(fs), name, File([])) && Target(Abs(fs), name) == t
  {
    CreateRefines(fs, name, Regular);
    FindTarget(fs, name);
    GrowPathNew(fs.files, Entry(name, Regular, 0, fs.cwd, fs.usage), CwdPath(fs));
  }

  /** A new file filled at once: nothing else in the view changes, whatever the bytes. */
  lemma CreateStore(fs: Fs, name: string, bytes: seq<char>)
    requires Inv(fs) && Exclusive(fs) && FindHere(fs, name) == None && |fs.files| < MAX_FILES
    requires NameFits(fs, name) && |bytes| <= MAX_FILE_SIZE && fs.usage + |bytes| <= |fs.data|
    ensures var fs1, n := Create(fs, name, Regular).0, |fs.files|;
            && Storable(fs1, n, bytes)
            && var fs2 := Store(fs1, n, bytes);
               Inv(fs2) && Exclusive(fs2) && Abs(fs2) == VPut(Abs(fs), name, File(bytes))
  {
    hide AbsTree, Tree;
    CreateNew(fs, name);
    StoreQuiet(Create(fs, name, Regular).0, |fs.files|, bytes, CwdPath(fs) + [name]);
  }

  lemma WriteRefines(fs: Fs, name: string, bytes: seq<char>)
    requires Inv(fs) && Exclusive(fs) && WriteFits(fs, name, bytes) && WriteQuiet(fs, name, bytes)
    ensures Refines(fs, Write(fs, name, bytes), VWrite(Abs(fs), name, bytes))
    ensures Exclusive(Write(fs, name, bytes).0)
  {
    hide AbsTree, Rebuilt;
    FindTarget(fs, name);
    match FindHere(fs, name)
    case Some(i) =>
      AbsAt(fs, i, Target(Abs(fs), name));
      if fs.files[i].ftype == Regular {
        StoreQuiet(fs, i, Clip(bytes), Target(Abs(fs), name));
      }
    case None =>
      if |fs.files| < MAX_FILES {
        CreateStore(fs, name, Clip(bytes));
      }
  }

  lemma ReadRefines(fs: Fs, name: string, limit: nat)
    requires Inv(fs)
    ensures ReadFits(fs, name) && Read(fs, name, limit) == VRead(Abs(fs), name, limit)
  {
    hide AbsTree;
    FindTarget(fs, name);
    if FindHere(fs, name).Some? {
      AbsAt(fs, FindHere(fs, name).value, Target(Abs(fs), name));
    }
  }

  lemma WayInto(fs: Fs, path: string, i: nat, t: Path)
    requires Inv(fs) && IsPath(fs.files, i, t) && PathFits(fs.files, i) && t == Target(Abs(fs), path)
    ensures WayFits(t)
  {
    CachedPathLength(fs.files, i, t);
    if t == [] { WayFromRoot(); } else { WayDown(CwdPath(fs), path); }
  }

  lemma CdRefines(fs: Fs, path: string)
    requires Inv(fs) && CdFits(fs, path)
    ensures Refines(fs, Cd(fs, path), VCd(Abs(fs), path))
  {
    var c := CwdPath(fs);
    if path == ".." {
      assert Parented(fs.files, fs.cwd);
      if c != [] { WayUp(c); }
      EnterAbs(fs, fs.files[fs.cwd].parent, if c == [] then [] else Up(c));
    } else if path != "" && path != "." {
      FindTarget(fs, path);
      if FindHere(fs, path).Some? {
        var i, t := FindHere(fs, path).value, Target(Abs(fs), path);
        AbsAt(fs, i, t);
        if fs.files[i].ftype == Directory {
          WayInto(fs, path, i, t);
          EnterAbs(fs, i, t);
        }
      }
    }
  }

  /** The caller's side of fs_delete_file: nothing lies below the entry. */
  predicate DeleteQuiet(fs: Fs, name: string)
  {
    match FindHere(fs, name)
    case None => true
    case Some(t) => !HasChild(fs.files, t)
  }

  lemma RemoveRefines(fs: Fs, name: string)
    requires Inv(fs) && FindHere(fs, name).Some? && DeleteQuiet(fs, name)
    ensures var fs', p := Remove(fs, FindHere(fs, name).value), Target(Abs(fs), name);
            && p in AbsTree(fs) && Inv(fs') && Abs(fs') == VDrop(Abs(fs), p)
            && (Exclusive(fs) ==> Exclusive(fs'))
  {
    var t, p := FindHere(fs, name).value, Target(Abs(fs), name);
    FindTarget(fs, name);
    AbsAt(fs, t, p);
    FoundIsNotCwd(fs, t);
    RemoveAbs(fs, t, p);
    if Exclusive(fs) { RemoveExclusive(fs, t); }
  }

  lemma DeleteRefines(fs: Fs, name: string)
    requires Inv(fs) && DeleteQuiet(fs, name)
    ensures Refines(fs, Delete(fs, name), VDelete(Abs(fs), name))
    ensures Exclusive(fs) ==> Exclusive(Delete(fs, name).0)
  {
    FindTarget(fs, name);
    if FindHere(fs, name).Some? {
      RemoveRefines(fs, name);
    }
  }

  lemma ChildIsOccupied(fs: Fs, t: nat, p: Path)
    requires Inv(fs) && IsPath(fs.files, t, p)
    ensures HasChild(fs.files, t) <==> Occupied(Abs(fs), p)
  {
    if p == [] {
      assert fs.files[0].parent == 0;
    } else {
      if j :| 0 <= j < |fs.files| && fs.files[j].parent == t {
        PathStep(fs.files, j, p);
        var q := p + [fs.files[j].name];
        AbsAt(fs, j, q);
        assert Up(q) == p;
      }
      if q :| q in AbsTree(fs) && q != [] && Up(q) == p {
        var i := AbsFrom(fs, q);
        EntryUnique(fs.files, fs.files[i].parent, t, p);
      }
    }
  }

  /** rmdir needs no side condition: it looks for children itself, and the root has one. */
  lemma RmdirRefines(fs: Fs, name: string)
    requires Inv(fs)
    ensures Refines(fs, Rmdir(fs, name), VRmdir(Abs(fs), name))
    ensures Exclusive(fs) ==> Exclusive(Rmdir(fs, name).0)
  {
    hide Inv, AbsTree, IsPath;
    FindTarget(fs, name);
    if FindHere(fs, name).Some? {
      var t, p := FindHere(fs, name).value, Target(Abs(fs), name);
      AbsAt(fs, t, p);
      ChildIsOccupied(fs, t, p);
      if !HasChild(fs.files, t) { RemoveRefines(fs, name); }
    }
  }

  predicate CopyQuiet(fs: Fs, src: string, dest: string)
    requires ReadFits(fs, src)
  {
    var r := Read(fs, src, MAX_FILE_SIZE);
    r.Some? ==> WriteQuiet(fs, dest, r.value)
  }

  lemma CopyRefines(fs: Fs, src: string, dest: string)
    requires Inv(fs) && Exclusive(fs) && CopyFits(fs, src, dest) && CopyQuiet(fs, src, dest)
    ensures Refines(fs, Copy(fs, src, dest), VCopy(Abs(fs), src, dest))
    ensures Exclusive(Copy(fs, src, dest).0)
  {
    ReadRefines(fs, src, MAX_FILE_SIZE);
    var r := Read(fs, src, MAX_FILE_SIZE);
    if r.Some? { WriteRefines(fs, dest, r.value); }
  }

  lemma RemoveLast(fs: Fs, fs1: Fs, e: Entry)
    requires Appended(fs, fs1, e) && fs.cwd < |fs.files|
    ensures Remove(fs1, |fs.files|) == fs.(nextId := fs1.nextId)
  {
    assert Removed(fs1.files, |fs.files|) == fs.files;
  }

  lemma RegularIsChildless(files: seq<Entry>, t: nat)
    requires Tree(files) && t < |files| && files[t].ftype != Directory
    ensures !HasChild(files, t)
  {
    forall j | 0 <= j < |files| ensures files[j].parent != t {
      assert Parented(files, j);
    }
  }

  /** The destination has the source's bytes; the source is then removed from the larger table. */
  lemma MoveRegular(fs: Fs, src: string, dest: string)
    requires Inv(fs) && Exclusive(fs) && MoveFits(fs, src, dest)
    requires FindHere(fs, src).Some? && FindHere(fs, dest) == None && |fs.files| < MAX_FILES
    requires fs.files[FindHere(fs, src).value].ftype == Regular
    ensures Refines(fs, Move(fs, src, dest), VMove(Abs(fs), src, dest))
    ensures Exclusive(Move(fs, src, dest).0)
  {
    hide AbsTree, IsPath, Rebuilt;
    var s, n, ps := FindHere(fs, src).value, |fs.files|, Target(Abs(fs), src);
    FindTarget(fs, src);
    FindTarget(fs, dest);
    AbsAt(fs, s, ps);
    var bytes := Contents(fs, s);
    CreateStore(fs, dest, bytes);
    var fs1 := Create(fs, dest, Regular).0;
    var fs2 := Store(fs1, n, bytes);
    GrowPath(fs.files, fs1.files[n], s, ps);
    SameShapePath(fs1.files, fs2.files, s, ps);
    RegularIsChildless(fs2.files, s);
    RemoveAbs(fs2, s, ps);
    RemoveExclusive(fs2, s);
  }

  lemma MoveRefines(fs: Fs, src: string, dest: string)
    requires Inv(fs) && Exclusive(fs) && MoveFits(fs, src, dest)
    ensures Refines(fs, Move(fs, src, dest), VMove(Abs(fs), src, dest))
    ensures Exclusive(Move(fs, src, dest).0)
  {
    FindTarget(fs, src);
    FindTarget(fs, dest);
    if FindHere(fs, src).Some? {
      var s := FindHere(fs, src).value;
      AbsAt(fs, s, Target(Abs(fs), src));
      if FindHere(fs, dest).Some? {
        AbsAt(fs, FindHere(fs, dest).value, Target(Abs(fs), dest));
      } else if |fs.files| < MAX_FILES {
        if fs.files[s].ftype == Regular {
          MoveRegular(fs, src, dest);
        } else {
          var e := Entry(dest, fs.files[s].ftype, 0, fs.cwd, fs.usage);
          RemoveLast(fs, Create(fs, dest, fs.files[s].ftype).0, e);
        }
      }
    }
  }

  lemma TouchRefines(fs: Fs, name: string)
    requires Inv(fs) && NameFits(fs, name)
    ensures Refines(fs, Touch(fs, name), VTouch(Abs(fs), name))
    ensures Exclusive(fs) ==> Exclusive(Touch(fs, name).0)
  {
    FindTarget(fs, name);
    if FindHere(fs, name).Some? {
      AbsAt(fs, FindHere(fs, name).value, Target(Abs(fs), name));
    } else {
      CreateRefines(fs, name, Regular);
    }
  }
}
