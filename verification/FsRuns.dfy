/** Whole runs of the filesystem: the table invariant, the refinement of the view, and the bound on
    the data area. */
module FsRuns {
  import opened Options
  import opened FsModel
  import opened FsTree
  import opened FsText
  import opened FsView
  import opened FsSteps
  import opened FsRefine

  datatype Op =
    | OpCreate(name: string, ftype: FileType)
    | OpWrite(name: string, bytes: seq<char>)
    | OpMkdir(name: string)
    | OpCd(path: string)
    | OpRmdir(name: string)
    | OpDelete(name: string)
    | OpCopy(src: string, dest: string)
    | OpMove(src: string, dest: string)
    | OpTouch(name: string)

  /** The names and paths that the operation stores fit their buffers: at most 62 characters for a
      created file, at most 255 for the cached path. */
  predicate BuffersFit(fs: Fs, op: Op)
  {
    match op
    case OpCreate(name, _) => NameFits(fs, name)
    case OpWrite(name, _) => NameFits(fs, name)
    case OpTouch(name) => NameFits(fs, name)
    case OpCopy(src, dest) => ReadFits(fs, src) && Read(fs, src, MAX_FILE_SIZE).Some? ==> NameFits(fs, dest)
    case OpMove(src, dest) => FindHere(fs, src).Some? ==> NameFits(fs, dest)
    case OpCd(path) => CdFits(fs, path)
    case _ => true
  }

  /** Everything the operation writes stays in its buffer, the data area included. */
  predicate Fits(fs: Fs, op: Op)
  {
    && BuffersFit(fs, op)
    && match op
       case OpWrite(name, bytes) => WriteFits(fs, name, bytes)
       case OpCopy(src, dest) => CopyFits(fs, src, dest)
       case OpMove(src, dest) => MoveFits(fs, src, dest)
       case _ => true
  }

  function Step(fs: Fs, op: Op): (Fs, Status)
    requires Fits(fs, op)
  {
    match op
    case OpCreate(name, ftype) => Create(fs, name, ftype)
    case OpWrite(name, bytes) => Write(fs, name, bytes)
    case OpMkdir(name) => Mkdir(fs, name)
    case OpCd(path) => Cd(fs, path)
    case OpRmdir(name) => Rmdir(fs, name)
    case OpDelete(name) => Delete(fs, name)
    case OpCopy(src, dest) => Copy(fs, src, dest)
    case OpMove(src, dest) => Move(fs, src, dest)
    case OpTouch(name) => Touch(fs, name)
  }

  function VStep(v: View, op: Op): (View, Status)
  {
    match op
    case OpCreate(name, ftype) => VCreate(v, name, EmptyNode(ftype))
    case OpWrite(name, bytes) => VWrite(v, name, bytes)
    case OpMkdir(name) => VMkdir(v, name)
    case OpCd(path) => VCd(v, path)
    case OpRmdir(name) => VRmdir(v, name)
    case OpDelete(name) => VDelete(v, name)
    case OpCopy(src, dest) => VCopy(v, src, dest)
    case OpMove(src, dest) => VMove(v, src, dest)
    case OpTouch(name) => VTouch(v, name)
  }

  /** Nothing is deleted from under its children. */
  predicate Childless(fs: Fs, op: Op)
  {
    op.OpDelete? ==> DeleteQuiet(fs, op.name)
  }

  /** The caller's obligations under which the view is refined. */
  predicate Quiet(fs: Fs, op: Op)
  {
    && Fits(fs, op) && Childless(fs, op)
    && match op
       case OpWrite(name, bytes) => WriteQuiet(fs, name, bytes)
       case OpCopy(src, dest) => CopyQuiet(fs, src, dest)
       case _ => true
  }

  lemma MakingRefines(fs: Fs, op: Op)
    requires Inv(fs) && Exclusive(fs) && Quiet(fs, op) && (op.OpCreate? || op.OpMkdir? || op.OpTouch?)
    ensures Refines(fs, Step(fs, op), VStep(Abs(fs), op)) && Exclusive(Step(fs, op).0)
  {
    match op
    case OpCreate(name, ftype) => CreateRefines(fs, name, ftype);
    case OpMkdir(name) => MkdirRefines(fs, name);
    case OpTouch(name) => TouchRefines(fs, name);
  }

  lemma GoingRefines(fs: Fs, op: Op)
    requires Inv(fs) && Exclusive(fs) && Quiet(fs, op) && (op.OpCd? || op.OpRmdir? || op.OpDelete?)
    ensures Refines(fs, Step(fs, op), VStep(Abs(fs), op)) && Exclusive(Step(fs, op).0)
  {
    hide Inv, Tree, Refines;
    match op
    case OpCd(path) => CdRefines(fs, path);
    case OpRmdir(name) => RmdirRefines(fs, name);
    case OpDelete(name) => DeleteRefines(fs, name);
  }

  lemma StepRefines(fs: Fs, op: Op)
    requires Inv(fs) && Exclusive(fs) && Quiet(fs, op)
    ensures Refines(fs, Step(fs, op), VStep(Abs(fs), op)) && Exclusive(Step(fs, op).0)
  {
    match op
    case OpWrite(name, bytes) => WriteRefines(fs, name, bytes);
    case OpCopy(src, dest) => CopyRefines(fs, src, dest);
    case OpMove(src, dest) => MoveRefines(fs, src, dest);
    case _ =>
      if op.OpCreate? || op.OpMkdir? || op.OpTouch? {
        MakingRefines(fs, op);
      } else {
        GoingRefines(fs, op);
      }
  }

  // ----- the table invariant needs no caution about writes -----

  lemma CreateInv(fs: Fs, name: string, ftype: FileType)
    requires Inv(fs) && NameFits(fs, name)
    ensures Inv(Create(fs, name, ftype).0)
  {
    CreateRefines(fs, name, ftype);
  }

  lemma MkdirInv(fs: Fs, name: string)
    requires Inv(fs)
    ensures Inv(Mkdir(fs, name).0)
  {
    MkdirRefines(fs, name);
  }

  lemma CdInv(fs: Fs, path: string)
    requires Inv(fs) && CdFits(fs, path)
    ensures Inv(Cd(fs, path).0)
  {
    CdRefines(fs, path);
  }

  lemma RmdirInv(fs: Fs, name: string)
    requires Inv(fs)
    ensures Inv(Rmdir(fs, name).0)
  {
    RmdirRefines(fs, name);
  }

  lemma DeleteInv(fs: Fs, name: string)
    requires Inv(fs) && DeleteQuiet(fs, name)
    ensures Inv(Delete(fs, name).0)
  {
    DeleteRefines(fs, name);
  }

  lemma WriteInv(fs: Fs, name: string, bytes: seq<char>)
    requires Inv(fs) && WriteFits(fs, name, bytes)
    ensures Inv(Write(fs, name, bytes).0)
  {
    match FindHere(fs, name)
    case Some(i) =>
      if fs.files[i].ftype == Regular { StoreInv(fs, i, Clip(bytes)); }
    case None =>
      CreateRefines(fs, name, Regular);
      if |fs.files| < MAX_FILES { StoreInv(Create(fs, name, Regular).0, |fs.files|, Clip(bytes)); }
  }

  lemma MoveInv(fs: Fs, src: string, dest: string)
    requires Inv(fs) && MoveFits(fs, src, dest)
    ensures Inv(Move(fs, src, dest).0)
  {
    hide Inv;
    if FindHere(fs, src).Some? && FindHere(fs, dest).None? && |fs.files| < MAX_FILES {
      var s, n := FindHere(fs, src).value, |fs.files|;
      var e := Entry(dest, fs.files[s].ftype, 0, fs.cwd, fs.usage);
      var fs1 := Create(fs, dest, e.ftype).0;
      CreateRefines(fs, dest, e.ftype);
      if e.ftype == Regular {
        var bytes := Clip(Contents(fs, s));
        StoreInv(fs1, n, bytes);
        RegularIsChildless(Store(fs1, n, bytes).files, s);
        RemoveInv(Store(fs1, n, bytes), s);
      } else {
        RemoveLast(fs, fs1, e);
      }
    }
  }

  lemma StepInv(fs: Fs, op: Op)
    requires Inv(fs) && Fits(fs, op) && Childless(fs, op)
    ensures Inv(Step(fs, op).0)
  {
    match op
    case OpCreate(name, ftype) => CreateInv(fs, name, ftype);
    case OpWrite(name, bytes) => WriteInv(fs, name, bytes);
    case OpMkdir(name) => MkdirInv(fs, name);
    case OpCd(path) => CdInv(fs, path);
    case OpRmdir(name) => RmdirInv(fs, name);
    case OpDelete(name) => DeleteInv(fs, name);
    case OpCopy(src, dest) =>
      var r := Read(fs, src, MAX_FILE_SIZE);
      if r.Some? { WriteInv(fs, dest, r.value); }
    case OpMove(src, dest) => MoveInv(fs, src, dest);
    case OpTouch(name) => CreateInv(fs, name, Regular);
  }

  lemma ReadInBounds(fs: Fs, name: string)
    requires Inv(fs)
    ensures ReadFits(fs, name)
  {
    ReadRefines(fs, name, 0);
  }

  /** After a successful creation the name is found at the end of the table. */
  lemma AfterCreate(fs: Fs, name: string, ftype: FileType)
    requires Inv(fs) && FindHere(fs, name) == None && |fs.files| < MAX_FILES && NameFits(fs, name)
    ensures FindHere(Create(fs, name, ftype).0, name) == Some(|fs.files|)
  {
    var fs' := Create(fs, name, ftype).0;
    CreateInv(fs, name, ftype);
    FindIs(fs'.files, |fs.files|, fs.cwd, name);
  }

  // ----- the steps of fs_move_file and fs_touch_file -----

  lemma AfterCreateBoth(fs: Fs, src: string, dest: string, ftype: FileType)
    requires Inv(fs) && FindHere(fs, src).Some? && FindHere(fs, dest) == None && |fs.files| < MAX_FILES
    requires NameFits(fs, dest)
    ensures var fs1 := Create(fs, dest, ftype).0;
            && Inv(fs1) && FindHere(fs1, src) == FindHere(fs, src) && FindHere(fs1, dest) == Some(|fs.files|)
  {
    CreateInv(fs, dest, ftype);
    AfterCreate(fs, dest, ftype);
    FindIs(Create(fs, dest, ftype).0.files, FindHere(fs, src).value, fs.cwd, src);
  }

  /** The source, created file and all, as fs_move_file has it in hand. */
  predicate Moving(fs: Fs, fs1: Fs, src: string, dest: string)
  {
    && FindHere(fs, src).Some? && FindHere(fs, dest) == None && |fs.files| < MAX_FILES && NameFits(fs, dest)
    && fs1 == Create(fs, dest, fs.files[FindHere(fs, src).value].ftype).0
    && FindHere(fs1, src) == FindHere(fs, src) && FindHere(fs1, dest) == Some(|fs.files|)
  }

  lemma MoveReads(fs: Fs, fs1: Fs, src: string, dest: string)
    requires Inv(fs) && Inv(fs1) && Moving(fs, fs1, src, dest) && MoveFits(fs, src, dest)
    ensures var s := FindHere(fs, src).value;
            && ReadFits(fs1, src)
            && Read(fs1, src, fs.files[s].size)
               == (if fs.files[s].ftype == Regular then Some(Contents(fs, s)) else None)
            && (fs.files[s].ftype == Regular ==>
                  |Contents(fs, s)| == fs.files[s].size && WriteFits(fs1, dest, Contents(fs, s)))
  {
    ReadInBounds(fs1, src);
  }

  lemma MoveBack(fs: Fs, fs1: Fs, src: string, dest: string)
    requires Inv(fs) && Inv(fs1) && Moving(fs, fs1, src, dest) && MoveFits(fs, src, dest)
    requires fs.files[FindHere(fs, src).value].ftype != Regular
    ensures DeleteQuiet(fs1, dest) && Delete(fs1, dest).0 == Move(fs, src, dest).0
    ensures Move(fs, src, dest).1 == PermissionDenied
  {
    forall j | 0 <= j < |fs1.files| ensures fs1.files[j].parent != |fs.files| {
      if j < |fs.files| { assert Parented(fs.files, j); }
    }
  }

  lemma MoveForward(fs: Fs, fs1: Fs, fs2: Fs, src: string, dest: string)
    requires Inv(fs) && Inv(fs1) && Inv(fs2) && Moving(fs, fs1, src, dest) && MoveFits(fs, src, dest)
    requires fs.files[FindHere(fs, src).value].ftype == Regular
    requires var bytes := Contents(fs, FindHere(fs, src).value);
             WriteFits(fs1, dest, bytes) && fs2 == Write(fs1, dest, bytes).0
    ensures DeleteQuiet(fs2, src) && Delete(fs2, src) == Move(fs, src, dest)
  {
    var s := FindHere(fs, src).value;
    FindIs(fs2.files, s, fs.cwd, src);
    RegularIsChildless(fs2.files, s);
  }

  lemma StoreNothing(fs: Fs, i: nat)
    requires i < |fs.files| && fs.files[i].size == 0 && fs.files[i].offset == fs.usage <= |fs.data|
    ensures Store(fs, i, "") == fs
  {
    assert fs.data[..fs.usage] + ("" + fs.data[fs.usage..]) == fs.data;
    assert fs.files[i := fs.files[i]] == fs.files;
  }

  // ----- the data area -----

  /** How many fs_create_file calls succeed during the operation. */
  function Creates(fs: Fs, op: Op): nat
  {
    var room := |fs.files| < MAX_FILES;
    match op
    case OpCreate(name, _) => if room && FindHere(fs, name).None? then 1 else 0
    case OpTouch(name) => if room && FindHere(fs, name).None? then 1 else 0
    case OpWrite(name, _) => if room && FindHere(fs, name).None? then 1 else 0
    case OpCopy(src, dest) =>
      if ReadFits(fs, src) && Read(fs, src, MAX_FILE_SIZE).Some? && room && FindHere(fs, dest).None? then 1
      else 0
    case OpMove(src, dest) =>
      if FindHere(fs, src).Some? && FindHere(fs, dest).None? && room then 1 else 0
    case _ => 0
  }

  predicate Below(files: seq<Entry>, bound: nat, i: nat)
    requires i < |files|
  {
    files[i].ftype == Regular ==> files[i].offset + MAX_FILE_SIZE <= bound
  }

  /** After c creations every file's data starts, and the used area ends, within c blocks of 4096. */
  ghost predicate Bounded(fs: Fs, c: nat)
  {
    && fs.usage <= MAX_FILE_SIZE * c
    && forall i | 0 <= i < |fs.files| :: Below(fs.files, MAX_FILE_SIZE * c, i)
  }

  /** While at most 256 files have been created, every write stays inside the data area. */
  lemma BoundedFits(fs: Fs, op: Op, c: nat)
    requires Inv(fs) && Bounded(fs, c) && c + Creates(fs, op) <= MAX_FILES && BuffersFit(fs, op)
    ensures Fits(fs, op)
  {
    forall i | 0 <= i < |fs.files| && fs.files[i].ftype == Regular
      ensures fs.files[i].End() <= DATA_SIZE && fs.files[i].offset + MAX_FILE_SIZE <= DATA_SIZE
    {
      assert EntryFits(fs.files, fs.usage, i) && Below(fs.files, MAX_FILE_SIZE * c, i);
    }
  }

  lemma StoreBounded(fs: Fs, i: nat, bytes: seq<char>, c: nat)
    requires Bounded(fs, c) && Storable(fs, i, bytes)
    ensures Bounded(Store(fs, i, bytes), c)
  {
    assert Below(fs.files, MAX_FILE_SIZE * c, i);
    forall j | 0 <= j < |fs.files| ensures Below(Store(fs, i, bytes).files, MAX_FILE_SIZE * c, j) {
      assert Below(fs.files, MAX_FILE_SIZE * c, j);
    }
  }

  lemma AppendBounded(fs: Fs, fs': Fs, e: Entry, c: nat)
    requires Bounded(fs, c) && Appended(fs, fs', e) && e.offset <= fs.usage
    ensures Bounded(fs', c + 1)
    ensures e.ftype != Regular ==> Bounded(fs', c)
  {
    forall i, d | 0 <= i < |fs'.files| && (d == c + 1 || (d == c && e.ftype != Regular))
      ensures Below(fs'.files, MAX_FILE_SIZE * d, i)
    {
      if i < |fs.files| { assert Below(fs.files, MAX_FILE_SIZE * c, i); }
    }
  }

  lemma RemoveBounded(fs: Fs, t: nat, c: nat)
    requires Bounded(fs, c) && t < |fs.files|
    ensures Bounded(Remove(fs, t), c)
  {
    forall j | 0 <= j < |fs.files| - 1 ensures Below(Removed(fs.files, t), MAX_FILE_SIZE * c, j) {
      assert Below(fs.files, MAX_FILE_SIZE * c, OldIndex(|fs.files|, t, j));
    }
  }

  lemma EnterBounded(fs: Fs, dir: nat, c: nat)
    requires Bounded(fs, c)
    ensures Bounded(Enter(fs, dir), c)
  {
    forall i | 0 <= i < |fs.files| ensures Below(Enter(fs, dir).files, MAX_FILE_SIZE * c, i) {
      assert Below(fs.files, MAX_FILE_SIZE * c, i);
    }
  }

  lemma WriteBounded(fs: Fs, name: string, bytes: seq<char>, c: nat)
    requires Bounded(fs, c) && WriteFits(fs, name, bytes)
    ensures Bounded(Write(fs, name, bytes).0, c + Creates(fs, OpWrite(name, bytes)))
  {
    match FindHere(fs, name)
    case Some(i) =>
      if fs.files[i].ftype == Regular { StoreBounded(fs, i, Clip(bytes), c); }
    case None =>
      if |fs.files| < MAX_FILES {
        var fs1 := Create(fs, name, Regular).0;
        AppendBounded(fs, fs1, Entry(name, Regular, 0, fs.cwd, fs.usage), c);
        StoreBounded(fs1, |fs.files|, Clip(bytes), c + 1);
      }
  }

  lemma MoveBounded(fs: Fs, src: string, dest: string, c: nat)
    requires Bounded(fs, c) && MoveFits(fs, src, dest)
    ensures Bounded(Move(fs, src, dest).0, c + Creates(fs, OpMove(src, dest)))
  {
    if FindHere(fs, src).Some? && FindHere(fs, dest).None? && |fs.files| < MAX_FILES {
      var s, n := FindHere(fs, src).value, |fs.files|;
      var e := Entry(dest, fs.files[s].ftype, 0, fs.cwd, fs.usage);
      var fs1 := Create(fs, dest, e.ftype).0;
      AppendBounded(fs, fs1, e, c);
      if e.ftype == Regular {
        var bytes := Clip(Contents(fs, s));
        StoreBounded(fs1, n, bytes, c + 1);
        RemoveBounded(Store(fs1, n, bytes), s, c + 1);
      } else {
        RemoveBounded(fs1, n, c + 1);
      }
    }
  }

  lemma CopyBounded(fs: Fs, src: string, dest: string, c: nat)
    requires Bounded(fs, c) && CopyFits(fs, src, dest)
    ensures Bounded(Copy(fs, src, dest).0, c + Creates(fs, OpCopy(src, dest)))
  {
    var r := Read(fs, src, MAX_FILE_SIZE);
    if r.Some? { WriteBounded(fs, dest, r.value, c); }
  }

  lemma MakingBounded(fs: Fs, op: Op, c: nat)
    requires Inv(fs) && Bounded(fs, c) && Fits(fs, op) && (op.OpCreate? || op.OpMkdir? || op.OpTouch?)
    ensures Bounded(Step(fs, op).0, c + Creates(fs, op))
  {
    hide Inv;
    match op
    case OpCreate(name, ftype) =>
      if Creates(fs, op) == 1 {
        AppendBounded(fs, Create(fs, name, ftype).0, Entry(name, ftype, 0, fs.cwd, fs.usage), c);
      }
    case OpTouch(name) =>
      if Creates(fs, op) == 1 {
        AppendBounded(fs, Create(fs, name, Regular).0, Entry(name, Regular, 0, fs.cwd, fs.usage), c);
      }
    case OpMkdir(name) =>
      if Mkdir(fs, name).1 == Success {
        AppendBounded(fs, Mkdir(fs, name).0, Entry(name, Directory, 0, fs.cwd, 0), c);
      }
  }

  lemma GoingBounded(fs: Fs, op: Op, c: nat)
    requires Inv(fs) && Bounded(fs, c) && Fits(fs, op) && (op.OpCd? || op.OpRmdir? || op.OpDelete?)
    ensures Bounded(Step(fs, op).0, c + Creates(fs, op))
  {
    hide Inv, Bounded;
    match op
    case OpCd(path) =>
      if path == ".." {
        EnterBounded(fs, fs.files[fs.cwd].parent, c);
      } else if Cd(fs, path).1 == Success && path != "." {
        EnterBounded(fs, FindHere(fs, path).value, c);
      }
    case OpRmdir(name) =>
      if Rmdir(fs, name).1 == Success { RemoveBounded(fs, FindHere(fs, name).value, c); }
    case OpDelete(name) =>
      if Delete(fs, name).1 == Success { RemoveBounded(fs, FindHere(fs, name).value, c); }
  }

  lemma StepBounded(fs: Fs, op: Op, c: nat)
    requires Inv(fs) && Bounded(fs, c) && Fits(fs, op)
    ensures Bounded(Step(fs, op).0, c + Creates(fs, op))
  {
    hide Rebuilt, Write, Bounded;
    match op
    case OpWrite(name, bytes) => WriteBounded(fs, name, bytes, c);
    case OpCopy(src, dest) => CopyBounded(fs, src, dest, c);
    case OpMove(src, dest) => MoveBounded(fs, src, dest, c);
    case _ =>
      if op.OpCreate? || op.OpMkdir? || op.OpTouch? {
        MakingBounded(fs, op, c);
      } else {
        GoingBounded(fs, op, c);
      }
  }

  // ----- runs -----

  /** From fs, where c files have been created, as long as deletions are childless, names and paths
      fit their buffers and no more than 256 files get created: every write fits and every state on
      the way keeps the invariant. */
  ghost predicate SafeRun(fs: Fs, ops: seq<Op>, c: nat)
    decreases |ops|
  {
    && Inv(fs) && Bounded(fs, c)
    && (ops != [] && Childless(fs, ops[0]) && BuffersFit(fs, ops[0]) && c + Creates(fs, ops[0]) <= MAX_FILES ==>
          Fits(fs, ops[0]) && SafeRun(Step(fs, ops[0]).0, ops[1..], c + Creates(fs, ops[0])))
  }

  lemma {:induction false} RunsAreSafe(fs: Fs, ops: seq<Op>, c: nat)
    requires Inv(fs) && Bounded(fs, c)
    ensures SafeRun(fs, ops, c)
    decreases |ops|
  {
    hide Rebuilt, Inv;
    if ops != [] && Childless(fs, ops[0]) && BuffersFit(fs, ops[0]) && c + Creates(fs, ops[0]) <= MAX_FILES {
      BoundedFits(fs, ops[0], c);
      StepInv(fs, ops[0]);
      StepBounded(fs, ops[0], c);
      RunsAreSafe(Step(fs, ops[0]).0, ops[1..], c + Creates(fs, ops[0]));
    }
  }

  /** The table and the view run side by side: while the caller's obligations are met they return
      the same status and stay related, except that the table may run out of space, unchanged. */
  ghost predicate InStep(fs: Fs, v: View, ops: seq<Op>)
    decreases |ops|
  {
    && Inv(fs) && Exclusive(fs) && Abs(fs) == v
    && (ops != [] && Quiet(fs, ops[0]) ==>
          var r, a := Step(fs, ops[0]), VStep(v, ops[0]);
          if r.1 == NoSpace then Full(fs) && r.0 == fs && InStep(fs, v, ops[1..])
          else r.1 == a.1 && InStep(r.0, a.0, ops[1..]))
  }

  lemma {:induction false} RunsRefine(fs: Fs, ops: seq<Op>)
    requires Inv(fs) && Exclusive(fs)
    ensures InStep(fs, Abs(fs), ops)
    decreases |ops|
  {
    if ops != [] && Quiet(fs, ops[0]) {
      StepRefines(fs, ops[0]);
      RunsRefine(Step(fs, ops[0]).0, ops[1..]);
    }
  }

  lemma BareState(data: seq<char>)
    requires |data| == DATA_SIZE
    ensures var fs := Bare(data);
            Inv(fs) && Exclusive(fs) && Bounded(fs, 0) && Abs(fs) == View(map[[] := Dir], [])
  {
    var fs := Bare(data);
    assert IsPath(fs.files, 0, []);
    WayFromRoot();
    RoomyAt(fs.files, 0, []);
    CwdIs(fs, []);
    AbsIs(fs, map[[] := Dir]);
  }

  /** A young filesystem: k entries, no data, and the given view. */
  ghost predicate Young(fs: Fs, k: nat, v: View)
  {
    && Inv(fs) && Exclusive(fs) && Bounded(fs, 0)
    && |fs.files| == k && fs.nextId == k && Abs(fs) == v
  }

  lemma BootDirectory(fs: Fs, k: nat, v: View, name: string)
    requires Young(fs, k, v) && k < MAX_FILES
    requires 0 < |name| < MAX_FILENAME && Target(v, name) !in v.tree
    ensures Young(Mkdir(fs, name).0, k + 1, VPut(v, name, Dir))
  {
    FindTarget(fs, name);
    if FindHere(fs, name).Some? { AbsAt(fs, FindHere(fs, name).value, Target(v, name)); }
    assert Mkdir(fs, name).1 == Success;
    MkdirRefines(fs, name);
    AppendBounded(fs, Mkdir(fs, name).0, Entry(name, Directory, 0, fs.cwd, 0), 0);
  }

  lemma BootTwo(fs: Fs, k: nat, v: View, a: string, b: string)
    requires Young(fs, k, v) && k + 1 < MAX_FILES
    requires 0 < |a| < MAX_FILENAME && Target(v, a) !in v.tree
    requires 0 < |b| < MAX_FILENAME && Target(v, b) !in v.tree && Target(v, a) != Target(v, b)
    ensures Young(Mkdir(Mkdir(fs, a).0, b).0, k + 2, VPut(VPut(v, a, Dir), b, Dir))
  {
    BootDirectory(fs, k, v, a);
    BootDirectory(Mkdir(fs, a).0, k + 1, VPut(v, a, Dir), b);
  }

  lemma BootThree(fs: Fs, v: View, a: string, b: string, c: string)
    requires Young(fs, 1, v) && v == View(map[[] := Dir], [])
    requires 0 < |a| < MAX_FILENAME && 0 < |b| < MAX_FILENAME && 0 < |c| < MAX_FILENAME
    requires a != b && a != c && b != c && a != "/" && b != "/" && c != "/"
    ensures Young(MkdirThree(fs, a, b, c), 4, VPut(VPut(VPut(v, a, Dir), b, Dir), c, Dir))
  {
    hide Young;
    assert Target(v, a) == [a] && Target(v, b) == [b] && Target(v, c) == [c];
    BootTwo(fs, 1, v, a, b);
    BootDirectory(Mkdir(Mkdir(fs, a).0, b).0, 3, VPut(VPut(v, a, Dir), b, Dir), c);
  }

  /** fs_init leaves an empty root with the three system directories. */
  lemma FormattedState(data: seq<char>)
    requires |data| == DATA_SIZE
    ensures var v := View(map[[] := Dir], []);
            Young(Formatted(data), 4, VPut(VPut(VPut(v, "home", Dir), "bin", Dir), "etc", Dir))
  {
    BareState(data);
    assert "bin"[0] == 'b' && "home"[0] == 'h' && "etc"[0] == 'e' && "/"[0] == '/';
    BootThree(Bare(data), View(map[[] := Dir], []), "home", "bin", "etc");
  }

  /** Every run from a formatted filesystem. */
  lemma EveryRun(data: seq<char>, ops: seq<Op>)
    requires |data| == DATA_SIZE
    ensures SafeRun(Formatted(data), ops, 0)
    ensures InStep(Formatted(data), Abs(Formatted(data)), ops)
  {
    FormattedState(data);
    RunsAreSafe(Formatted(data), ops, 0);
    RunsRefine(Formatted(data), ops);
  }
}
