/** What every filesystem call does, said about what can be seen: statuses, the map from paths to
    nodes, where data lies, and how many directories can ever be made. */
module FsLaws {
  import opened Options
  import opened FsModel
  import opened FsTree
  import opened FsView
  import opened FsRefine
  import opened FsRuns
  import opened FsLimits

  // ----- statuses and the map -----

  /** The map has gained or changed the node at t and nothing else; the working directory stays. */
  ghost predicate Puts(v: View, v': View, t: Path, node: Node)
  {
    && v'.cwd == v.cwd && t in v'.tree && v'.tree[t] == node
    && (forall p | p in v.tree :: p in v'.tree && (p != t ==> v'.tree[p] == v.tree[p]))
    && (forall p | p in v'.tree :: p == t || p in v.tree)
  }

  /** The map has lost the path t and nothing else. */
  ghost predicate Drops(v: View, v': View, t: Path)
  {
    && v'.cwd == v.cwd && t in v.tree && t !in v'.tree
    && (forall p | p in v.tree && p != t :: p in v'.tree && v'.tree[p] == v.tree[p])
    && (forall p | p in v'.tree :: p in v.tree)
  }

  lemma KnownName(fs: Fs, name: string)
    requires Inv(fs)
    ensures FindHere(fs, name).Some? <==> Target(Abs(fs), name) in AbsTree(fs)
  {
    hide AbsTree, Inv;
    FindTarget(fs, name);
    if FindHere(fs, name).Some? { AbsAt(fs, FindHere(fs, name).value, Target(Abs(fs), name)); }
  }

  /** fs_create_file fails on a full table before it looks for the name. */
  lemma CreateMeans(fs: Fs, name: string, ftype: FileType)
    requires Inv(fs) && NameFits(fs, name)
    ensures var (fs', status), v, t := Create(fs, name, ftype), Abs(fs), Target(Abs(fs), name);
            && Inv(fs')
            && status == (if |fs.files| == 256 then NoSpace else if t in v.tree then AlreadyExists else Success)
            && if status == Success then
                 Puts(v, Abs(fs'), t, if ftype == Regular then File([]) else if ftype == Directory then Dir else Dev)
               else fs' == fs
  {
    hide AbsTree, Rebuilt, Tree;
    KnownName(fs, name);
    CreateRefines(fs, name, ftype);
  }

  function FirstBytes(bytes: seq<char>, n: nat): seq<char>
  {
    if |bytes| <= n then bytes else bytes[..n]
  }

  /** fs_write_file stores the first 4096 bytes under the name, new or not. */
  lemma WriteMeans(fs: Fs, name: string, bytes: seq<char>)
    requires Inv(fs) && Exclusive(fs) && WriteFits(fs, name, bytes) && WriteQuiet(fs, name, bytes)
    ensures var (fs', status), v, t := Write(fs, name, bytes), Abs(fs), Target(Abs(fs), name);
            && Inv(fs') && Exclusive(fs')
            && status == (if t in v.tree then (if v.tree[t].File? then Success else InvalidPath)
                          else if |fs.files| == 256 then NoSpace else Success)
            && if status == Success then Puts(v, Abs(fs'), t, File(FirstBytes(bytes, 4096))) else fs' == fs
  {
    hide AbsTree, Rebuilt, Tree;
    KnownName(fs, name);
    WriteRefines(fs, name, bytes);
  }

  lemma TargetsDiffer(v: View, a: string, b: string)
    requires a != b
    ensures Target(v, a) != Target(v, b)
  {
    assert (v.cwd + [a])[|v.cwd|] == a && (v.cwd + [b])[|v.cwd|] == b;
  }

  /** What was written reads back, and every other name of the directory reads as before. */
  lemma WriteThenRead(fs: Fs, name: string, bytes: seq<char>, other: string, limit: nat)
    requires Inv(fs) && Exclusive(fs) && WriteFits(fs, name, bytes) && WriteQuiet(fs, name, bytes)
    requires Write(fs, name, bytes).1 == Success
    ensures var fs' := Write(fs, name, bytes).0;
            && ReadFits(fs, other) && ReadFits(fs', other) && ReadFits(fs', name)
            && Read(fs', name, limit) == Some(FirstBytes(FirstBytes(bytes, 4096), limit))
            && (other != name ==> Read(fs', other, limit) == Read(fs, other, limit))
  {
    hide AbsTree, Inv, Exclusive, Write, Read, WriteFits, WriteQuiet;
    WriteMeans(fs, name, bytes);
    var fs' := Write(fs, name, bytes).0;
    ReadRefines(fs, other, limit);
    ReadRefines(fs', other, limit);
    ReadRefines(fs', name, limit);
    if other != name { TargetsDiffer(Abs(fs), name, other); }
  }

  /** fs_read_file gives the first bytes of a regular file, at most as many as the caller has room for. */
  lemma ReadMeans(fs: Fs, name: string, limit: nat)
    requires Inv(fs)
    ensures var v, t := Abs(fs), Target(Abs(fs), name);
            && ReadFits(fs, name)
            && (Read(fs, name, limit).Some? <==> t in v.tree && v.tree[t].File?)
            && (Read(fs, name, limit).Some? ==> Read(fs, name, limit).value == FirstBytes(v.tree[t].bytes, limit))
  {
    hide AbsTree, Inv, Read;
    ReadRefines(fs, name, limit);
  }

  lemma TouchMeans(fs: Fs, name: string)
    requires Inv(fs) && NameFits(fs, name)
    ensures var (fs', status), v, t := Touch(fs, name), Abs(fs), Target(Abs(fs), name);
            && Inv(fs')
            && status == (if t !in v.tree && |fs.files| == 256 then NoSpace else Success)
            && if status == Success && t !in v.tree then Puts(v, Abs(fs'), t, File([])) else fs' == fs
  {
    hide AbsTree, Rebuilt, Tree;
    KnownName(fs, name);
    TouchRefines(fs, name);
  }

  /** fs_make_directory: 1 to 63 characters, not there yet, and room in the table and for an id. */
  lemma MkdirMeans(fs: Fs, name: string)
    requires Inv(fs)
    ensures var (fs', status), v, t := Mkdir(fs, name), Abs(fs), Target(Abs(fs), name);
            && Inv(fs')
            && status == (if name == "" || |name| > 63 then InvalidName
                          else if t in v.tree then AlreadyExists
                          else if |fs.files| == 256 || fs.nextId >= 256 then NoSpace else Success)
            && if status == Success then Puts(v, Abs(fs'), t, Dir) else fs' == fs
  {
    hide AbsTree, Rebuilt, Tree;
    KnownName(fs, name);
    MkdirRefines(fs, name);
  }

  /** fs_copy_file gives the destination the source's bytes. */
  lemma CopyMeans(fs: Fs, src: string, dest: string)
    requires Inv(fs) && Exclusive(fs) && CopyFits(fs, src, dest) && CopyQuiet(fs, src, dest)
    ensures var (fs', status), v := Copy(fs, src, dest), Abs(fs);
            var s, d := Target(v, src), Target(v, dest);
            && Inv(fs') && Exclusive(fs')
            && status == (if s !in v.tree || !v.tree[s].File? then InvalidPath
                          else if d in v.tree then (if v.tree[d].File? then Success else InvalidPath)
                          else if |fs.files| == 256 then NoSpace else Success)
            && if status == Success then Puts(v, Abs(fs'), d, v.tree[s]) else fs' == fs
  {
    hide AbsTree, Exclusive, Write, Puts, WriteFits, WriteQuiet;
    ReadMeans(fs, src, 4096);
    var r := Read(fs, src, 4096);
    if r.Some? {
      SourceFits(fs, src);
      WriteMeans(fs, dest, r.value);
    }
  }

  lemma SourceFits(fs: Fs, src: string)
    requires Inv(fs) && Target(Abs(fs), src) in AbsTree(fs) && AbsTree(fs)[Target(Abs(fs), src)].File?
    ensures |AbsTree(fs)[Target(Abs(fs), src)].bytes| <= 4096
  {
    hide AbsTree, Tree, Rebuilt, Roomy;
    var i := AbsFrom(fs, Target(Abs(fs), src));
  }

  /** When fs_move_file fails, and that nothing has happened then; MoveMeans (FsLimits) says what success is. */
  lemma MoveFails(fs: Fs, src: string, dest: string)
    requires Inv(fs) && Exclusive(fs) && MoveFits(fs, src, dest)
    ensures var (fs', status), v := Move(fs, src, dest), Abs(fs);
            var s, d := Target(v, src), Target(v, dest);
            && status == (if s !in v.tree then NotFound
                          else if d in v.tree then AlreadyExists
                          else if |fs.files| == 256 then NoSpace
                          else if v.tree[s].File? then Success else PermissionDenied)
            && (status != Success ==> fs' == fs)
  {
    hide AbsTree, Rebuilt, Tree, Roomy;
    KnownName(fs, src);
    KnownName(fs, dest);
    MoveRefines(fs, src, dest);
    if FindHere(fs, src).Some? && FindHere(fs, dest).None? && |fs.files| < MAX_FILES {
      var e := Entry(dest, fs.files[FindHere(fs, src).value].ftype, 0, fs.cwd, fs.usage);
      RemoveLast(fs, Create(fs, dest, e.ftype).0, e);
    }
  }

  /** fs_delete_file of an entry without children, and the type does not matter. */
  lemma DeleteMeans(fs: Fs, name: string)
    requires Inv(fs) && DeleteQuiet(fs, name)
    ensures var (fs', status), v, t := Delete(fs, name), Abs(fs), Target(Abs(fs), name);
            && Inv(fs') && status == (if t in v.tree then Success else NotFound)
            && if status == Success then Drops(v, Abs(fs'), t) else fs' == fs
  {
    hide AbsTree, Rebuilt, Tree;
    KnownName(fs, name);
    DeleteRefines(fs, name);
  }

  /** fs_remove_directory takes directories that have nothing in them; the root never is one. */
  lemma RmdirMeans(fs: Fs, name: string)
    requires Inv(fs)
    ensures var (fs', status), v, t := Rmdir(fs, name), Abs(fs), Target(Abs(fs), name);
            && Inv(fs')
            && status == (if t !in v.tree then NotFound
                          else if !v.tree[t].Dir? then NotDirectory
                          else if t == [] || (exists x :: t + [x] in v.tree) then NotEmpty else Success)
            && if status == Success then Drops(v, Abs(fs'), t) else fs' == fs
  {
    hide AbsTree, Rebuilt, Tree;
    RmdirRefines(fs, name);
    KnownName(fs, name);
    ChildrenBelow(Abs(fs), Target(Abs(fs), name));
  }

  lemma ChildrenBelow(v: View, t: Path)
    ensures Occupied(v, t) <==> t == [] || exists x :: t + [x] in v.tree
  {
    if q :| q in v.tree && q != [] && Up(q) == t {
      assert q == t + [q[|q| - 1]];
    }
    if x :| t + [x] in v.tree {
      assert Up(t + [x]) == t;
    }
  }

  /** fs_change_directory moves one level; the map stays. */
  lemma CdMeans(fs: Fs, path: string)
    requires Inv(fs) && CdFits(fs, path)
    ensures var (fs', status), v := Cd(fs, path), Abs(fs);
            var t := Target(v, path);
            Inv(fs') && var v' := Abs(fs');
            && v'.tree == v.tree
            && status == (if path == "" then InvalidPath
                          else if path == "." || path == ".." then Success
                          else if t !in v.tree then NotFound
                          else if v.tree[t].Dir? then Success else NotDirectory)
            && (status == Success && path != "." && path != ".." ==> v'.cwd == t)
            && (path == ".." && v.cwd != [] ==> exists x :: v.cwd == v'.cwd + [x])
            && (status != Success || path == "." || (path == ".." && v.cwd == []) ==> v'.cwd == v.cwd)
  {
    hide AbsTree, Rebuilt, Tree;
    KnownName(fs, path);
    CdRefines(fs, path);
    var c := CwdPath(fs);
    if path == ".." && c != [] { assert c == Up(c) + [c[|c| - 1]]; }
  }

  // ----- what the map does not show: ids -----

  /** Directory ids are only ever taken, one by each directory made, and never given back. */
  lemma StepIds(fs: Fs, op: Op)
    requires Fits(fs, op)
    ensures Step(fs, op).0.nextId == fs.nextId + if op.OpMkdir? && Step(fs, op).1 == Success then 1 else 0
  {
  }

  /** The state after a run whose calls all fit, whatever their statuses. */
  ghost predicate RunsTo(fs: Fs, ops: seq<Op>, fs': Fs)
    decreases |ops|
  {
    if ops == [] then fs' == fs
    else Fits(fs, ops[0]) && RunsTo(Step(fs, ops[0]).0, ops[1..], fs')
  }

  /** How many of the run's fs_make_directory calls succeed. */
  ghost function DirectoriesMade(fs: Fs, ops: seq<Op>, fs': Fs): nat
    requires RunsTo(fs, ops, fs')
    decreases |ops|
  {
    if ops == [] then 0
    else (if ops[0].OpMkdir? && Step(fs, ops[0]).1 == Success then 1 else 0)
         + DirectoriesMade(Step(fs, ops[0]).0, ops[1..], fs')
  }

  lemma {:induction false} RunIds(fs: Fs, ops: seq<Op>, fs': Fs)
    requires RunsTo(fs, ops, fs')
    ensures fs'.nextId == fs.nextId + DirectoriesMade(fs, ops, fs')
    decreases |ops|
  {
    hide Step, Fits;
    if ops != [] {
      StepIds(fs, ops[0]);
      RunIds(Step(fs, ops[0]).0, ops[1..], fs');
    }
  }

  lemma StepEntries(fs: Fs, op: Op)
    requires Fits(fs, op) && |fs.files| <= 256
    ensures |Step(fs, op).0.files| <= 256
  {
    hide FindHere;
  }

  lemma {:induction false} RunEntries(fs: Fs, ops: seq<Op>, fs': Fs)
    requires RunsTo(fs, ops, fs') && |fs.files| <= 256
    ensures |fs'.files| <= 256
    decreases |ops|
  {
    hide Step, Fits;
    if ops != [] {
      StepEntries(fs, ops[0]);
      RunEntries(Step(fs, ops[0]).0, ops[1..], fs');
    }
  }

  /** After any run from fs_init, a directory that could be made is refused for lack of space if and
      only if the table is full or 252 directories have been made, however many of them were removed. */
  lemma CapacityExact(data: seq<char>, ops: seq<Op>, fs: Fs, name: string)
    requires |data| == DATA_SIZE && RunsTo(Formatted(data), ops, fs)
    requires 0 < |name| < 64 && FindHere(fs, name) == None
    ensures Mkdir(fs, name).1 == NoSpace
            <==> |fs.files| == 256 || DirectoriesMade(Formatted(data), ops, fs) >= 252
  {
    hide Formatted, RunsTo;
    FormattedState(data);
    RunIds(Formatted(data), ops, fs);
    RunEntries(Formatted(data), ops, fs);
  }

  /** One round of making and removing a directory changes nothing but the next id. */
  lemma MakeAndRemove(fs: Fs, name: string)
    requires Inv(fs) && 0 < |name| < 64 && FindHere(fs, name) == None && |fs.files| < 256 && fs.nextId < 256
    ensures Mkdir(fs, name).1 == Success && Rmdir(Mkdir(fs, name).0, name).1 == Success
    ensures Rmdir(Mkdir(fs, name).0, name).0 == fs.(nextId := fs.nextId + 1)
    ensures Inv(fs.(nextId := fs.nextId + 1))
  {
    hide Rebuilt, Roomy, Abs, Remove;
    var fs1, n := Mkdir(fs, name).0, |fs.files|;
    var e := Entry(name, Directory, 0, fs.cwd, 0);
    MkdirRefines(fs, name);
    FindIs(fs1.files, n, fs.cwd, name);
    forall j | 0 <= j < |fs1.files| ensures fs1.files[j].parent != n {
      if j < n { assert Parented(fs.files, j); }
    }
    RemoveLast(fs, fs1, e);
  }

  /** n rounds of making and removing a directory of that name. */
  function Rounds(name: string, n: nat): seq<Op>
  {
    if n == 0 then [] else [OpMkdir(name), OpRmdir(name)] + Rounds(name, n - 1)
  }

  lemma {:induction false} RoundsReach(fs: Fs, name: string, n: nat)
    requires Inv(fs) && 0 < |name| < 64 && FindHere(fs, name) == None && |fs.files| < 256 && fs.nextId + n <= 256
    ensures Reaches(fs, Rounds(name, n), fs.(nextId := fs.nextId + n))
    decreases n
  {
    hide Inv, FindHere, Mkdir, Rmdir;
    if n > 0 {
      MakeAndRemove(fs, name);
      var fs1 := Mkdir(fs, name).0;
      var fs2 := fs.(nextId := fs.nextId + 1);
      SameHere(fs, fs2, name);
      RoundsReach(fs2, name, n - 1);
      ReachesOne(fs, OpMkdir(name));
      ReachesOne(fs1, OpRmdir(name));
      ReachesThen(fs, [OpMkdir(name)], fs1, [OpRmdir(name)], fs2);
      assert [OpMkdir(name)] + [OpRmdir(name)] == [OpMkdir(name), OpRmdir(name)];
      ReachesThen(fs, [OpMkdir(name), OpRmdir(name)], fs2, Rounds(name, n - 1), fs.(nextId := fs.nextId + n));
    }
  }

  lemma SameHere(fs: Fs, fs': Fs, name: string)
    requires fs'.files == fs.files && fs'.cwd == fs.cwd
    ensures FindHere(fs', name) == FindHere(fs, name)
  {
  }

  /** From fs_init, 252 rounds of making and removing one directory use up all ids: the table has its
      four entries again, and no directory can be made any more. */
  lemma IdsRunOut(data: seq<char>, name: string, other: string)
    requires |data| == DATA_SIZE && |name| == 1 && name != "/"
    requires 0 < |other| < 64 && FindHere(Formatted(data), other) == None
    ensures var fs := Formatted(data);
            var fs' := fs.(nextId := 256);
            && |fs.files| == 4 && Reaches(fs, Rounds(name, 252), fs')
            && Mkdir(fs', other) == (fs', NoSpace)
  {
    hide Formatted, Reaches, FindHere, Rounds;
    FreeName(data, name);
    RoundsReach(Formatted(data), name, 252);
    SameHere(Formatted(data), Formatted(data).(nextId := 256), other);
  }

  // ----- what the map does not show: places in the data area -----

  function Max(a: nat, b: nat): nat { if a < b then b else a }

  /** A written file keeps its start, a new one starts where the used area ends, and that area then
      ends behind the file if it did not before. */
  lemma WritePlace(fs: Fs, name: string, bytes: seq<char>)
    requires Inv(fs) && WriteFits(fs, name, bytes) && Write(fs, name, bytes).1 == Success
    ensures var fs', was := Write(fs, name, bytes).0, FindHere(fs, name);
            && FindHere(fs', name).Some?
            && var e := fs'.files[FindHere(fs', name).value];
               && e.offset == (if was == None then fs.usage else fs.files[was.value].offset)
               && e.size == |FirstBytes(bytes, 4096)|
               && fs'.usage == Max(fs.usage, e.offset + e.size)
  {
    hide Rebuilt, Roomy;
    WriteInv(fs, name, bytes);
    var fs' := Write(fs, name, bytes).0;
    FindIs(fs'.files, if FindHere(fs, name).Some? then FindHere(fs, name).value else |fs.files|, fs.cwd, name);
  }

  /** A moved file is a new one: it starts where the used area ended. */
  lemma MovePlace(fs: Fs, src: string, dest: string)
    requires Inv(fs) && MoveFits(fs, src, dest) && Move(fs, src, dest).1 == Success
    ensures FindHere(fs, src).Some?
    ensures var fs', size := Move(fs, src, dest).0, fs.files[FindHere(fs, src).value].size;
            && FindHere(fs', dest).Some? && fs'.files[FindHere(fs', dest).value].offset == fs.usage
            && fs'.files[FindHere(fs', dest).value].size == size && fs'.usage == fs.usage + size
  {
    hide Rebuilt, Roomy;
    MoveInv(fs, src, dest);
    assert EntryFits(fs.files, fs.usage, FindHere(fs, src).value);
    var fs' := Move(fs, src, dest).0;
    FindIs(fs'.files, FindHere(fs, src).value, fs.cwd, dest);
  }

  /** No other call moves the end of the used area; an empty file starts there. */
  lemma OtherPlaces(fs: Fs, op: Op)
    requires Inv(fs) && Fits(fs, op) && Childless(fs, op)
    requires Step(fs, op).1 == Success ==> !op.OpWrite? && !op.OpCopy? && !op.OpMove?
    ensures var fs' := Step(fs, op).0;
            && fs'.usage == fs.usage && fs'.data == fs.data
            && ((op.OpCreate? || op.OpTouch?) && FindHere(fs, op.name) == None && Step(fs, op).1 == Success ==>
                  FindHere(fs', op.name).Some? && fs'.files[FindHere(fs', op.name).value].offset == fs.usage)
  {
    hide Inv, Find, FindHere;
    if (op.OpCreate? || op.OpTouch?) && FindHere(fs, op.name) == None && |fs.files| < MAX_FILES {
      AfterCreate(fs, op.name, if op.OpCreate? then op.ftype else Regular);
    }
  }

  /** An entry that keeps its path keeps its type and the start of its data. */
  ghost predicate Stays(a: seq<Entry>, b: seq<Entry>)
  {
    forall i: nat, j: nat, p | IsPath(a, i, p) && IsPath(b, j, p) ::
      a[i].ftype == b[j].ftype && a[i].offset == b[j].offset
  }

  lemma SameStays(a: seq<Entry>)
    requires Tree(a)
    ensures Stays(a, a)
  {
    forall i: nat, j: nat, p | IsPath(a, i, p) && IsPath(a, j, p)
      ensures a[i].ftype == a[j].ftype && a[i].offset == a[j].offset
    {
      EntryUnique(a, i, j, p);
    }
  }

  lemma AppendStays(a: seq<Entry>, e: Entry)
    requires Tree(a) && Tree(a + [e])
    ensures Stays(a, a + [e])
  {
    var b := a + [e];
    forall i: nat, j: nat, p | IsPath(a, i, p) && IsPath(b, j, p)
      ensures a[i].ftype == b[j].ftype && a[i].offset == b[j].offset
    {
      GrowPath(a, e, i, p);
      EntryUnique(b, i, j, p);
    }
  }

  lemma ShapeStays(a: seq<Entry>, b: seq<Entry>, c: seq<Entry>)
    requires Stays(a, b) && SameShape(b, c) && forall j | 0 <= j < |b| :: c[j].offset == b[j].offset
    ensures Stays(a, c)
  {
    forall i: nat, j: nat, p | IsPath(a, i, p) && IsPath(c, j, p)
      ensures a[i].ftype == c[j].ftype && a[i].offset == c[j].offset
    {
      SameShapePath(b, c, j, p);
    }
  }

  lemma RemoveStays(a: seq<Entry>, b: seq<Entry>, t: nat)
    requires Stays(a, b) && Tree(b) && t < |b| && !HasChild(b, t)
    ensures Stays(a, Removed(b, t))
  {
    var c := Removed(b, t);
    forall i: nat, j: nat, p | IsPath(a, i, p) && IsPath(c, j, p)
      ensures a[i].ftype == c[j].ftype && a[i].offset == c[j].offset
    {
      RemovedPath(b, t, j, p);
    }
  }

  lemma CreateStays(fs: Fs, name: string, ftype: FileType)
    requires Inv(fs) && NameFits(fs, name)
    ensures Stays(fs.files, Create(fs, name, ftype).0.files)
  {
    hide Stays, Rebuilt, Roomy;
    CreateInv(fs, name, ftype);
    SameStays(fs.files);
    if Create(fs, name, ftype).1 == Success { AppendStays(fs.files, Entry(name, ftype, 0, fs.cwd, fs.usage)); }
  }

  lemma WriteStays(fs: Fs, name: string, bytes: seq<char>)
    requires Inv(fs) && WriteFits(fs, name, bytes)
    ensures Stays(fs.files, Write(fs, name, bytes).0.files)
  {
    hide Stays, Rebuilt, Roomy;
    var fs' := Write(fs, name, bytes).0;
    SameStays(fs.files);
    if FindHere(fs, name).Some? {
      ShapeStays(fs.files, fs.files, fs'.files);
    } else {
      CreateStays(fs, name, Regular);
      ShapeStays(fs.files, Create(fs, name, Regular).0.files, fs'.files);
    }
  }

  lemma MoveStays(fs: Fs, src: string, dest: string)
    requires Inv(fs) && MoveFits(fs, src, dest)
    ensures Stays(fs.files, Move(fs, src, dest).0.files)
  {
    hide Stays, Rebuilt, Roomy;
    SameStays(fs.files);
    if FindHere(fs, src).Some? && FindHere(fs, dest).None? && |fs.files| < MAX_FILES {
      var s := FindHere(fs, src).value;
      var fs1 := Create(fs, dest, fs.files[s].ftype).0;
      CreateInv(fs, dest, fs.files[s].ftype);
      CreateStays(fs, dest, fs.files[s].ftype);
      if fs.files[s].ftype == Regular {
        var fs2 := Store(fs1, |fs.files|, Clip(Contents(fs, s)));
        ShapeStays(fs.files, fs1.files, fs2.files);
        SameShapeTree(fs1.files, fs2.files);
        RegularIsChildless(fs2.files, s);
        RemoveStays(fs.files, fs2.files, s);
      } else {
        RemoveLast(fs, fs1, Entry(dest, fs.files[s].ftype, 0, fs.cwd, fs.usage));
      }
    }
  }

  lemma GoneStays(fs: Fs, name: string)
    requires Inv(fs) && FindHere(fs, name).Some? && !HasChild(fs.files, FindHere(fs, name).value)
    ensures Stays(fs.files, Remove(fs, FindHere(fs, name).value).files)
  {
    hide Stays, Rebuilt, Roomy;
    SameStays(fs.files);
    RemoveStays(fs.files, fs.files, FindHere(fs, name).value);
  }

  /** No call moves the data of a file that keeps its path, although removals move table entries. */
  lemma StepStays(fs: Fs, op: Op)
    requires Inv(fs) && Fits(fs, op) && Childless(fs, op)
    ensures Stays(fs.files, Step(fs, op).0.files)
  {
    hide Stays, Inv, Write, Move;
    assert Tree(fs.files) by { TreeOf(fs); }
    SameStays(fs.files);
    match op
    case OpCreate(name, ftype) => CreateStays(fs, name, ftype);
    case OpWrite(name, bytes) => WriteStays(fs, name, bytes);
    case OpMkdir(name) => MkdirStays(fs, name);
    case OpCd(path) =>
    case OpRmdir(name) => if Rmdir(fs, name).1 == Success { GoneStays(fs, name); }
    case OpDelete(name) => if FindHere(fs, name).Some? { GoneStays(fs, name); }
    case OpCopy(src, dest) =>
      var r := Read(fs, src, MAX_FILE_SIZE);
      if r.Some? { WriteStays(fs, dest, r.value); }
    case OpMove(src, dest) => MoveStays(fs, src, dest);
    case OpTouch(name) => CreateStays(fs, name, Regular);
  }

  lemma TreeOf(fs: Fs)
    requires Inv(fs)
    ensures Tree(fs.files)
  {
  }

  lemma MkdirStays(fs: Fs, name: string)
    requires Inv(fs)
    ensures Stays(fs.files, Mkdir(fs, name).0.files)
  {
    hide Stays, Rebuilt, Roomy;
    MkdirInv(fs, name);
    SameStays(fs.files);
    if Mkdir(fs, name).1 == Success { AppendStays(fs.files, Entry(name, Directory, 0, fs.cwd, 0)); }
  }
}
