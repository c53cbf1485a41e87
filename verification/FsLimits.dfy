/** Where the filesystem's operations stop being what their callers expect, and the exact
    conditions under which they are. */
module FsLimits {
  import opened Options
  import opened FsModel
  import opened FsTree
  import opened FsView
  import opened FsSteps
  import opened FsRefine
  import opened FsRuns

  // ----- fs_delete_file does not look for children -----

  /** Every other entry keeps its path, type and bytes, the deleted path is gone, and the working
      directory keeps its path. */
  ghost predicate PureRemoval(fs: Fs, fs': Fs, p: Path)
  {
    && !Hits(fs'.files, p)
    && IsPath(fs'.files, fs'.cwd, CwdPathOf(fs))
    && forall i, q | IsPath(fs.files, i, q) && q != p :: Kept(fs, fs', i, q)
  }

  ghost function CwdPathOf(fs: Fs): Path
  {
    if Rooted(fs.files, fs.cwd) then PathOf(fs.files, fs.cwd) else []
  }

  ghost predicate Kept(fs: Fs, fs': Fs, i: nat, q: Path)
    requires i < |fs.files|
  {
    exists j: nat :: IsPath(fs'.files, j, q) && fs'.files[j] == fs.files[i].(parent := fs'.files[j].parent)
  }

  lemma RemovalKeeps(fs: Fs, t: nat, p: Path, i: nat, q: Path)
    requires Inv(fs) && !HasChild(fs.files, t) && IsPath(fs.files, t, p) && IsPath(fs.files, i, q) && q != p
    ensures Kept(fs, Remove(fs, t), i, q)
  {
    hide Rebuilt;
    if i == t { PathUnique(fs.files, t, p, q); }
    RemovedPath(fs.files, t, if i == |fs.files| - 1 then t else i, q);
  }

  lemma PathAbove(files: seq<Entry>, p: Path, x: string)
    requires Hits(files, p + [x])
    ensures Hits(files, p)
  {
    var j := IdOf(files, p + [x]);
    assert Up(p + [x]) == p;
    assert IsPath(files, files[j].parent, p);
  }

  /** Deletion is a pure removal exactly when the entry has no children; the root, found as "/" in
      itself, always has one. */
  lemma DeleteExact(fs: Fs, name: string)
    requires Inv(fs) && FindHere(fs, name).Some?
    ensures PureRemoval(fs, Delete(fs, name).0, Target(Abs(fs), name))
            <==> !HasChild(fs.files, FindHere(fs, name).value)
  {
    hide Rebuilt, Rooted, Base;
    var t, p := FindHere(fs, name).value, Target(Abs(fs), name);
    var fs' := Remove(fs, t);
    FindTarget(fs, name);
    assert Rooted(fs.files, fs.cwd);
    if HasChild(fs.files, t) {
      if PureRemoval(fs, fs', p) {
        var j :| 0 <= j < |fs.files| && fs.files[j].parent == t;
        if t != 0 {
          PathStep(fs.files, j, p);
          var q := p + [fs.files[j].name];
          assert Kept(fs, fs', j, q);
          PathAbove(fs'.files, p, fs.files[j].name);
        }
        assert false;
      }
    } else {
      FoundIsNotCwd(fs, t);
      RemoveAbs(fs, t, p);
      RemoveCwd(fs, t);
      RemovedPath(fs.files, t, fs'.cwd, CwdPath(fs));
      forall i, q | IsPath(fs.files, i, q) && q != p ensures Kept(fs, fs', i, q) {
        RemovalKeeps(fs, t, p, i, q);
      }
      if Hits(fs'.files, p) { AbsAt(fs', IdOf(fs'.files, p), p); }
    }
  }

  /** The operations all fit and succeed, and the run ends in fs'. */
  predicate Reaches(fs: Fs, ops: seq<Op>, fs': Fs)
    decreases |ops|
  {
    if ops == [] then fs == fs'
    else Fits(fs, ops[0]) && Step(fs, ops[0]).1 == Success && Reaches(Step(fs, ops[0]).0, ops[1..], fs')
  }

  lemma ReachesOne(fs: Fs, op: Op)
    requires Fits(fs, op) && Step(fs, op).1 == Success
    ensures Reaches(fs, [op], Step(fs, op).0)
  {
    assert [op][1..] == [];
  }

  lemma {:induction false} ReachesThen(fs: Fs, ops: seq<Op>, mid: Fs, more: seq<Op>, fs': Fs)
    requires Reaches(fs, ops, mid) && Reaches(mid, more, fs')
    ensures Reaches(fs, ops + more, fs')
    decreases |ops|
  {
    if ops == [] {
      assert ops + more == more;
    } else {
      assert (ops + more)[1..] == ops[1..] + more;
      ReachesThen(Step(fs, ops[0]).0, ops[1..], mid, more, fs');
    }
  }

  function DirEntry(fs: Fs, name: string): Entry { Entry(name, Directory, 0, fs.cwd, 0) }

  lemma MakeOne(fs: Fs, a: string) returns (fs': Fs)
    requires Inv(fs) && FindHere(fs, a) == None && |fs.files| < MAX_FILES && fs.nextId < MAX_FILES
    requires 0 < |a| < MAX_FILENAME
    ensures Reaches(fs, [OpMkdir(a)], fs') && Inv(fs')
    ensures fs' == fs.(files := fs.files + [DirEntry(fs, a)], nextId := fs.nextId + 1)
  {
    MkdirInv(fs, a);
    ReachesOne(fs, OpMkdir(a));
    fs' := Step(fs, OpMkdir(a)).0;
  }

  lemma MakeAndEnter(fs: Fs, a: string) returns (fs': Fs)
    requires Inv(fs) && FindHere(fs, a) == None && |fs.files| < MAX_FILES && fs.nextId < MAX_FILES
    requires 0 < |a| < MAX_FILENAME && a != "." && a != ".."
    requires PathFits(fs.files + [DirEntry(fs, a)], |fs.files|)
    ensures Reaches(fs, [OpMkdir(a), OpCd(a)], fs') && Inv(fs')
    ensures fs' == Enter(fs.(files := fs.files + [DirEntry(fs, a)], nextId := fs.nextId + 1), |fs.files|)
  {
    var fs1 := MakeOne(fs, a);
    FindIs(fs1.files, |fs.files|, fs.cwd, a);
    CdInv(fs1, a);
    ReachesOne(fs1, OpCd(a));
    fs' := Step(fs1, OpCd(a)).0;
    ReachesThen(fs, [OpMkdir(a)], fs1, [OpCd(a)], fs');
  }

  /** Making directory a with file f in it: the working directory is what it was. */
  lemma MakeNested(fs: Fs, a: string, f: string) returns (fs': Fs)
    requires Inv(fs) && FindHere(fs, a) == None && |fs.files| + 1 < MAX_FILES && fs.nextId < MAX_FILES
    requires 0 < |a| < MAX_FILENAME && a != "." && a != ".." && |f| < MAX_FILENAME - 1
    requires PathFits(fs.files + [DirEntry(fs, a)], |fs.files|)
    ensures Reaches(fs, [OpMkdir(a), OpCd(a), OpCreate(f, Regular), OpCd("..")], fs') && Inv(fs')
    ensures fs' == fs.(files := fs.files + [DirEntry(fs, a), Entry(f, Regular, 0, |fs.files|, fs.usage)],
                       nextId := fs.nextId + 1)
  {
    hide Names, Join, Find, Mkdir, Fits, FindHere;
    var n := |fs.files|;
    var fs2 := MakeAndEnter(fs, a);
    forall j | 0 <= j < |fs2.files| ensures !Matches(fs2.files, j, n, f) {
      if j < n { assert Parented(fs.files, j); }
    }
    CreateInv(fs2, f, Regular);
    ReachesOne(fs2, OpCreate(f, Regular));
    var fs3 := Step(fs2, OpCreate(f, Regular)).0;
    assert fs3.files == fs.files + [DirEntry(fs, a), Entry(f, Regular, 0, n, fs.usage)];
    CdInv(fs3, "..");
    ReachesOne(fs3, OpCd(".."));
    fs' := Step(fs3, OpCd("..")).0;
    GrowNames(fs.files, DirEntry(fs, a), fs.cwd, MAX_DEPTH);
    GrowNames(fs2.files, Entry(f, Regular, 0, n, fs.usage), fs.cwd, MAX_DEPTH);
    ReachesThen(fs2, [OpCreate(f, Regular)], fs3, [OpCd("..")], fs');
    ReachesThen(fs, [OpMkdir(a), OpCd(a)], fs2, [OpCreate(f, Regular), OpCd("..")], fs');
  }

  /** Both directories: b ends up last in the table. */
  lemma MakeBoth(fs: Fs, a: string, f: string, b: string) returns (fs': Fs)
    requires Inv(fs) && FindHere(fs, a) == None && FindHere(fs, b) == None && a != b
    requires |fs.files| + 2 < MAX_FILES && fs.nextId + 1 < MAX_FILES
    requires 0 < |a| < MAX_FILENAME && a != "." && a != ".." && |f| < MAX_FILENAME - 1 && 0 < |b| < MAX_FILENAME
    requires PathFits(fs.files + [DirEntry(fs, a)], |fs.files|)
    ensures Reaches(fs, [OpMkdir(a), OpCd(a), OpCreate(f, Regular), OpCd(".."), OpMkdir(b)], fs') && Inv(fs')
    ensures fs'.cwd == fs.cwd && fs'.files
            == fs.files + [DirEntry(fs, a), Entry(f, Regular, 0, |fs.files|, fs.usage)] + [DirEntry(fs, b)]
  {
    hide Rebuilt, PathFits, Reaches;
    var mid := MakeNested(fs, a, f);
    forall j | 0 <= j < |mid.files| ensures !Matches(mid.files, j, mid.cwd, b) {
      if j < |fs.files| { assert !Matches(fs.files, j, fs.cwd, b); }
    }
    fs' := MakeOne(mid, b);
    var ops := [OpMkdir(a), OpCd(a), OpCreate(f, Regular), OpCd("..")];
    ReachesThen(fs, ops, mid, [OpMkdir(b)], fs');
    assert ops + [OpMkdir(b)] == [OpMkdir(a), OpCd(a), OpCreate(f, Regular), OpCd(".."), OpMkdir(b)];
  }

  /** From any state with room: make directory a with a file f in it, then directory b, and delete a.
      Directory b, last in the table, takes over a's slot and with it the orphan: a/f is now b/f. */
  lemma DeleteAdopts(fs: Fs, a: string, f: string, b: string) returns (before: Fs, after: Fs)
    requires Inv(fs) && FindHere(fs, a) == None && FindHere(fs, b) == None && a != b
    requires |fs.files| + 2 < MAX_FILES && fs.nextId + 1 < MAX_FILES
    requires 0 < |a| < MAX_FILENAME && a != "." && a != ".." && |f| < MAX_FILENAME - 1 && 0 < |b| < MAX_FILENAME
    requires PathFits(fs.files + [DirEntry(fs, a)], |fs.files|)
    ensures Reaches(fs, [OpMkdir(a), OpCd(a), OpCreate(f, Regular), OpCd(".."), OpMkdir(b)], before)
    ensures Reaches(before, [OpDelete(a)], after)
    ensures IsPath(before.files, |fs.files| + 1, CwdPath(fs) + [a] + [f])
    ensures IsPath(after.files, |fs.files| + 1, CwdPath(fs) + [b] + [f])
  {
    hide Reaches, Find, PathOf, Rebuilt, Removed, IsPath;
    before := MakeBoth(fs, a, f, b);
    FindIs(before.files, |fs.files|, fs.cwd, a);
    ReachesOne(before, OpDelete(a));
    after := Step(before, OpDelete(a)).0;
    AdoptedPaths(fs.files, DirEntry(fs, a), Entry(f, Regular, 0, |fs.files|, fs.usage), DirEntry(fs, b), CwdPath(fs));
  }

  /** After fs_init a one-letter name is free, and there is room for it. */
  lemma FreeName(data: seq<char>, name: string)
    requires |data| == DATA_SIZE && |name| == 1 && name != "/"
    ensures var fs := Formatted(data);
            && Inv(fs) && Exclusive(fs) && CwdPath(fs) == [] && fs.cwd == 0 && fs.usage == 0
            && |fs.files| == 4 && fs.nextId == 4 && FindHere(fs, name) == None
  {
    hide AbsTree;
    var fs := Formatted(data);
    FormattedState(data);
    FindTarget(fs, name);
    RootHere(fs.files, fs.cwd, CwdPath(fs));
    if FindHere(fs, name).Some? { AbsAt(fs, FindHere(fs, name).value, [name]); }
  }

  /** The adoption from a freshly initialised filesystem. */
  lemma DeleteAdoptsFromInit(data: seq<char>) returns (before: Fs, after: Fs)
    requires |data| == DATA_SIZE
    ensures Reaches(Formatted(data), [OpMkdir("a"), OpCd("a"), OpCreate("f", Regular), OpCd(".."), OpMkdir("b")],
                    before)
    ensures Reaches(before, [OpDelete("a")], after)
    ensures IsPath(before.files, 5, ["a", "f"]) && IsPath(after.files, 5, ["b", "f"])
  {
    assert "a"[0] == 'a' && "b"[0] == 'b' && "/"[0] == '/';
    FreeName(data, "a");
    FreeName(data, "b");
    before, after := AdoptsInRoot(Formatted(data));
  }

  lemma RootChildFits(files: seq<Entry>, e: Entry)
    requires files != [] && e.parent == 0 && |e.name| < MAX_FILENAME
    ensures PathFits(files + [e], |files|)
  {
    var g := files + [e];
    assert g[|files|] == e && Names(g, 0, MAX_DEPTH - 1) == [];
    assert Names(g, |files|, MAX_DEPTH) == [e.name];
    assert Join([e.name]) == e.name;
  }

  lemma AdoptsInRoot(fs: Fs) returns (before: Fs, after: Fs)
    requires Inv(fs) && CwdPath(fs) == [] && fs.cwd == 0 && |fs.files| == 4 && fs.nextId == 4
    requires FindHere(fs, "a") == None && FindHere(fs, "b") == None
    ensures Reaches(fs, [OpMkdir("a"), OpCd("a"), OpCreate("f", Regular), OpCd(".."), OpMkdir("b")], before)
    ensures Reaches(before, [OpDelete("a")], after)
    ensures IsPath(before.files, 5, ["a", "f"]) && IsPath(after.files, 5, ["b", "f"])
  {
    hide Reaches;
    assert "a"[0] == 'a' && "b"[0] == 'b' && "."[0] == '.';
    RootChildFits(fs.files, DirEntry(fs, "a"));
    before, after := DeleteAdopts(fs, "a", "f", "b");
    assert [] + ["a"] + ["f"] == ["a", "f"] && [] + ["b"] + ["f"] == ["b", "f"];
  }

  lemma AdoptedPaths(files: seq<Entry>, dirA: Entry, e: Entry, dirB: Entry, c: Path)
    requires Tree(files) && IsPath(files, dirA.parent, c) && files[dirA.parent].ftype == Directory
    requires dirA.parent == dirB.parent && dirA.ftype == dirB.ftype == Directory && e.parent == |files|
    requires Find(files, dirA.parent, dirA.name) == None && Find(files, dirA.parent, dirB.name) == None
    requires dirA.name != dirB.name
    ensures IsPath(files + [dirA, e] + [dirB], |files| + 1, c + [dirA.name] + [e.name])
    ensures IsPath(Removed(files + [dirA, e] + [dirB], |files|), |files| + 1, c + [dirB.name] + [e.name])
  {
    GrowTwice(files, dirA, e, c);
    GrowTree(files, dirA);
    forall j | 0 <= j <= |files| ensures !Matches(files + [dirA], j, |files|, e.name) {
      if j < |files| { assert Parented(files, j); }
    }
    GrowTree(files + [dirA], e);
    assert files + [dirA] + [e] == files + [dirA, e];
    GrowPath(files + [dirA, e], dirB, |files| + 1, c + [dirA.name] + [e.name]);
    GrowTwice(files, dirB, e, c);
    AfterSwap(files, dirA, e, dirB);
  }

  lemma GrowTwice(files: seq<Entry>, dir: Entry, e: Entry, c: Path)
    requires Tree(files) && IsPath(files, dir.parent, c) && files[dir.parent].ftype == Directory
    requires Find(files, dir.parent, dir.name) == None && dir.ftype == Directory && e.parent == |files|
    ensures IsPath(files + [dir, e], |files| + 1, c + [dir.name] + [e.name])
  {
    GrowTree(files, dir);
    GrowPathNew(files, dir, c);
    GrowPathNew(files + [dir], e, c + [dir.name]);
    assert files + [dir] + [e] == files + [dir, e];
  }

  lemma AfterSwap(files: seq<Entry>, dirA: Entry, file: Entry, dirB: Entry)
    requires Tree(files) && dirB.parent < |files| && file.parent == |files|
    ensures Removed(files + [dirA, file] + [dirB], |files|) == files + [dirB, file]
  {
    var r := Removed(files + [dirA, file] + [dirB], |files|);
    forall j | 0 <= j < |r| ensures r[j] == (files + [dirB, file])[j] {
      if j < |files| { assert Parented(files, j); }
    }
  }

  // ----- fs_write_file does not move a file that grows -----

  /** Whatever bytes of that length are stored in file i, no other file's contents change. */
  ghost predicate HarmlessStore(fs: Fs, i: nat, n: nat)
    requires Inv(fs) && i < |fs.files| && fs.files[i].offset + n <= |fs.data|
  {
    forall bytes: seq<char>, j | |bytes| == n && 0 <= j < |fs.files| && j != i && fs.files[j].ftype == Regular ::
      KeepsBytes(fs, i, bytes, j)
  }

  ghost predicate KeepsBytes(fs: Fs, i: nat, bytes: seq<char>, j: nat)
    requires i < |fs.files| && fs.files[i].offset + |bytes| <= |fs.data|
    requires j < |fs.files| && j != i
  {
    fs.files[j].End() <= |fs.data| ==> Contents(Store(fs, i, bytes), j) == Contents(fs, j)
  }

  function Other(c: char): char { if c == 'x' then 'y' else 'x' }

  lemma StoreClobbers(fs: Fs, i: nat, n: nat, j: nat) returns (bytes: seq<char>)
    requires Inv(fs) && i < |fs.files| && fs.files[i].offset + n <= |fs.data|
    requires j < |fs.files| && j != i && !ClearOf(fs.files, i, n, j)
    ensures |bytes| == n && !KeepsBytes(fs, i, bytes, j)
  {
    hide Tree, Rebuilt, Roomy;
    var at := fs.files[i].offset;
    var lo, hi := fs.files[j].offset, fs.files[j].End();
    assert EntryFits(fs.files, fs.usage, j);
    bytes := seq(n, k requires 0 <= k < n => Other(fs.data[at + k]));
    var x := if at < lo then lo else at;
    var r := Overlay(fs.data, at, bytes);
    assert r[x] == bytes[x - at] == Other(fs.data[x]);
    assert r[lo..hi][x - lo] == r[x] && fs.data[lo..hi][x - lo] == fs.data[x];
  }

  /** Storing n bytes in a file is harmless exactly when the n bytes from its start meet no byte of
      another live file; in particular when the file does not grow or lies last (NoRegrowIsClear). */
  lemma StoreExact(fs: Fs, i: nat, n: nat)
    requires Inv(fs) && i < |fs.files| && fs.files[i].ftype == Regular
    requires n <= MAX_FILE_SIZE && fs.files[i].offset + n <= |fs.data|
    ensures HarmlessStore(fs, i, n) <==> Clear(fs.files, i, n)
  {
    if Clear(fs.files, i, n) {
      forall bytes: seq<char>, j | |bytes| == n && 0 <= j < |fs.files| && j != i && fs.files[j].ftype == Regular
        ensures KeepsBytes(fs, i, bytes, j)
      {
        assert ClearOf(fs.files, i, n, j);
        StoreNode(fs, i, bytes, j);
      }
    } else {
      var j :| 0 <= j < |fs.files| && j != i && !ClearOf(fs.files, i, n, j);
      var bytes := StoreClobbers(fs, i, n, j);
    }
  }

  /** Creating and filling a one-byte file. */
  lemma WriteByte(fs: Fs, name: string, x: char) returns (fs': Fs)
    requires Inv(fs) && FindHere(fs, name) == None && |name| < MAX_FILENAME - 1
    requires |fs.files| < MAX_FILES && fs.usage < |fs.data|
    ensures Reaches(fs, [OpWrite(name, [x])], fs') && Inv(fs')
    ensures fs'.files == fs.files + [Entry(name, Regular, 1, fs.cwd, fs.usage)] && fs'.cwd == fs.cwd
    ensures fs'.usage == fs.usage + 1 && |fs'.data| == |fs.data| && fs'.data[fs.usage] == x
    ensures fs.usage > 0 ==> fs'.data[fs.usage - 1] == fs.data[fs.usage - 1]
  {
    hide Inv;
    WriteInv(fs, name, [x]);
    ReachesOne(fs, OpWrite(name, [x]));
    fs' := Step(fs, OpWrite(name, [x])).0;
    OverlayAt(fs.data, fs.usage, [x]);
  }

  /** From any state with room: create a and b with one byte each, then enlarge a by a byte.  That
      byte is now the content of b. */
  lemma GrowingClobbers(fs: Fs, a: string, b: string, x: char, y: char, z: char) returns (before: Fs, after: Fs)
    requires Inv(fs) && FindHere(fs, a) == None && FindHere(fs, b) == None && a != b
    requires |a| < MAX_FILENAME - 1 && |b| < MAX_FILENAME - 1
    requires |fs.files| + 1 < MAX_FILES && fs.usage + 1 < |fs.data|
    ensures Reaches(fs, [OpWrite(a, [x]), OpWrite(b, [y])], before) && Inv(before)
    ensures FindHere(before, a) == Some(|fs.files|) && before.files[|fs.files|].offset == fs.usage
    ensures before.files[|fs.files|].ftype == Regular && |before.data| == |fs.data|
    ensures WriteFits(before, a, [x, z]) && Write(before, a, [x, z]) == (after, Success) && Inv(after)
    ensures ReadFits(before, a) && Read(before, a, 4095) == Some([x])
    ensures ReadFits(before, b) && Read(before, b, 1) == Some([y])
    ensures ReadFits(after, b) && Read(after, b, 1) == Some([z])
  {
    hide Names, Create, Tree, Inv, Step;
    var mid := WriteByte(fs, a, x);
    forall j | 0 <= j < |mid.files| ensures !Matches(mid.files, j, mid.cwd, b) {
      if j < |fs.files| { assert !Matches(fs.files, j, fs.cwd, b); }
    }
    before := WriteByte(mid, b, y);
    ReachesThen(fs, [OpWrite(a, [x])], mid, [OpWrite(b, [y])], before);
    ReadsByte(before, |fs.files|, a, 4095);
    after := EnlargeOver(before, |fs.files|, a, b, x, z);
  }

  /** The overwriting from a freshly initialised filesystem. */
  lemma GrowingClobbersFromInit(data: seq<char>) returns (before: Fs, after: Fs)
    requires |data| == DATA_SIZE
    ensures Reaches(Formatted(data), [OpWrite("a", ['1']), OpWrite("b", ['2'])], before)
    ensures WriteFits(before, "a", ['1', '3']) && Write(before, "a", ['1', '3']) == (after, Success)
    ensures ReadFits(before, "b") && Read(before, "b", 1) == Some(['2'])
    ensures ReadFits(after, "b") && Read(after, "b", 1) == Some(['3'])
  {
    assert "a"[0] == 'a' && "b"[0] == 'b' && "/"[0] == '/';
    FreeName(data, "a");
    FreeName(data, "b");
    before, after := GrowingClobbers(Formatted(data), "a", "b", '1', '2', '3');
  }

  lemma SecondByte(data: seq<char>, at: nat, x: char, z: char)
    requires at + 2 <= |data|
    ensures Overlay(data, at, [x, z])[at + 1] == z
  {
    OverlayAt(data, at, [x, z]);
  }

  lemma ReadsByte(fs: Fs, i: nat, b: string, limit: nat)
    requires Inv(fs) && 1 <= limit && i < |fs.files| && fs.files[i].End() <= |fs.data|
    requires fs.files[i] == Entry(b, Regular, 1, fs.cwd, fs.files[i].offset)
    ensures ReadFits(fs, b) && Read(fs, b, limit) == Some([fs.data[fs.files[i].offset]])
  {
    FindIs(fs.files, i, fs.cwd, b);
    assert Contents(fs, i) == [fs.data[fs.files[i].offset]];
  }

  lemma EnlargeOver(fs: Fs, i: nat, a: string, b: string, x: char, z: char) returns (fs': Fs)
    requires Inv(fs) && i + 1 < |fs.files| && fs.usage >= 2
    requires fs.files[i] == Entry(a, Regular, 1, fs.cwd, fs.usage - 2)
    requires fs.files[i + 1] == Entry(b, Regular, 1, fs.cwd, fs.usage - 1)
    ensures FindHere(fs, a) == Some(i) && WriteFits(fs, a, [x, z])
    ensures Write(fs, a, [x, z]) == (fs', Success) && Inv(fs')
    ensures ReadFits(fs, b) && Read(fs, b, 1) == Some([fs.data[fs.usage - 1]])
    ensures ReadFits(fs', b) && Read(fs', b, 1) == Some([z])
  {
    hide Tree, Rebuilt, Roomy;
    FindIs(fs.files, i, fs.cwd, a);
    WriteInv(fs, a, [x, z]);
    fs' := Store(fs, i, [x, z]);
    ReadsByte(fs, i + 1, b, 1);
    SecondByte(fs.data, fs.usage - 2, x, z);
    ReadsByte(fs', i + 1, b, 1);
  }

  // ----- fs_move_file -----

  /** A source that is not a regular file: an error, and the state is exactly what it was. */
  lemma MoveOfDirectory(fs: Fs, src: string, dest: string)
    requires Inv(fs) && MoveFits(fs, src, dest)
    requires FindHere(fs, src).Some? && fs.files[FindHere(fs, src).value].ftype != Regular
    ensures Move(fs, src, dest).0 == fs && Move(fs, src, dest).1 != Success
  {
    if FindHere(fs, dest).None? && |fs.files| < MAX_FILES {
      var s := FindHere(fs, src).value;
      var e := Entry(dest, fs.files[s].ftype, 0, fs.cwd, fs.usage);
      RemoveLast(fs, Create(fs, dest, fs.files[s].ftype).0, e);
    }
  }

  /** A successful move: the destination holds the source's bytes, the source is gone, and every
      other path has what it had. */
  lemma MoveMeans(fs: Fs, src: string, dest: string, p: Path)
    requires Inv(fs) && Exclusive(fs) && MoveFits(fs, src, dest) && Move(fs, src, dest).1 == Success
    ensures var fs', s, d := Move(fs, src, dest).0, Target(Abs(fs), src), Target(Abs(fs), dest);
            && Inv(fs') && Exclusive(fs') && CwdPath(fs') == CwdPath(fs)
            && s in AbsTree(fs) && AbsTree(fs)[s].File? && d !in AbsTree(fs) && s != d
            && s !in AbsTree(fs') && d in AbsTree(fs') && AbsTree(fs')[d] == AbsTree(fs)[s]
            && (p != s && p != d ==> (p in AbsTree(fs') <==> p in AbsTree(fs)))
            && (p != s && p != d && p in AbsTree(fs) ==> AbsTree(fs')[p] == AbsTree(fs)[p])
  {
    hide Inv, Exclusive, Move, AbsTree, MoveFits;
    MoveRefines(fs, src, dest);
  }
}
