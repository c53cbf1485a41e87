/** The filesystem seen from outside: a map from paths to nodes and a working directory.  The
    operations on this view are the simple specification that the entry table refines. */
module FsView {
  import opened Options
  import opened FsModel
  import opened FsTree
  import opened FsText

  datatype Node = Dir | Dev | File(bytes: seq<char>)

  datatype View = View(tree: map<Path, Node>, cwd: Path)

  // ----- the invariant of the concrete state -----

  /** The entry's name fits its field, and its data lies in the used part of the data area. */
  predicate EntryFits(files: seq<Entry>, usage: nat, i: nat)
    requires i < |files|
  {
    && |files[i].name| < MAX_FILENAME && files[i].size <= MAX_FILE_SIZE
    && (files[i].ftype == Regular ==> files[i].End() <= usage)
  }

  /** The cached path has room for the working directory and every directory above it. */
  ghost predicate Roomy(files: seq<Entry>, cwd: nat)
  {
    forall p | IsPath(files, cwd, p) :: WayFits(p)
  }

  lemma RoomyAt(files: seq<Entry>, cwd: nat, p: Path)
    requires IsPath(files, cwd, p) && WayFits(p)
    ensures Roomy(files, cwd) && PathFits(files, cwd)
  {
    forall q | IsPath(files, cwd, q) ensures WayFits(q) {
      PathUnique(files, cwd, p, q);
    }
    WayHere(p);
    CachedPathLength(files, cwd, p);
  }

  ghost predicate Inv(fs: Fs)
  {
    && Tree(fs.files) && |fs.files| <= MAX_FILES
    && fs.cwd < |fs.files| && fs.files[fs.cwd].ftype == Directory
    && fs.path == Rebuilt(fs.files, fs.cwd) && |fs.path| < MAX_PATH
    && Roomy(fs.files, fs.cwd)
    && fs.usage <= |fs.data| == DATA_SIZE
    && forall i | 0 <= i < |fs.files| :: EntryFits(fs.files, fs.usage, i)
  }

  /** The data of files i and j does not overlap. */
  predicate Apart(files: seq<Entry>, i: nat, j: nat)
    requires i < |files| && j < |files|
  {
    files[i].ftype == Regular && files[j].ftype == Regular ==>
      || files[i].size == 0 || files[j].size == 0
      || files[i].End() <= files[j].offset || files[j].End() <= files[i].offset
  }

  ghost predicate Exclusive(fs: Fs)
  {
    forall i, j | 0 <= i < |fs.files| && 0 <= j < |fs.files| && i != j :: Apart(fs.files, i, j)
  }

  // ----- the abstraction -----

  function NodeAt(fs: Fs, i: nat): Node
    requires i < |fs.files| && (fs.files[i].ftype == Regular ==> fs.files[i].End() <= |fs.data|)
  {
    match fs.files[i].ftype
    case Directory => Dir
    case Device => Dev
    case Regular => File(Contents(fs, i))
  }

  ghost predicate Hits(files: seq<Entry>, p: Path)
  {
    exists i: nat :: IsPath(files, i, p)
  }

  ghost function IdOf(files: seq<Entry>, p: Path): (i: nat)
    requires Hits(files, p)
    ensures IsPath(files, i, p)
  {
    var i: nat :| IsPath(files, i, p); i
  }

  ghost function Paths(files: seq<Entry>): set<Path>
  {
    set i | 0 <= i < |files| && Rooted(files, i) :: PathOf(files, i)
  }

  lemma PathsHit(files: seq<Entry>, p: Path)
    ensures p in Paths(files) <==> Hits(files, p)
  {
    if Hits(files, p) {
      var i := IdOf(files, p);
      PathOfIs(files, i, p);
    }
    if p in Paths(files) {
      var i :| 0 <= i < |files| && Rooted(files, i) && PathOf(files, i) == p;
      assert IsPath(files, i, p);
    }
  }

  ghost function NodeOf(fs: Fs, p: Path): Node
    requires Inv(fs) && Hits(fs.files, p)
  {
    var i := IdOf(fs.files, p);
    assert EntryFits(fs.files, fs.usage, i);
    NodeAt(fs, i)
  }

  ghost function AbsTree(fs: Fs): map<Path, Node>
    requires Inv(fs)
  {
    map p | p in Paths(fs.files) && Hits(fs.files, p) :: NodeOf(fs, p)
  }

  ghost function CwdPath(fs: Fs): (p: Path)
    requires Inv(fs)
    ensures IsPath(fs.files, fs.cwd, p)
  {
    assert Rooted(fs.files, fs.cwd);
    PathOf(fs.files, fs.cwd)
  }

  ghost function Abs(fs: Fs): View
    requires Inv(fs)
  {
    View(AbsTree(fs), CwdPath(fs))
  }

  lemma AbsAt(fs: Fs, i: nat, p: Path)
    requires Inv(fs) && IsPath(fs.files, i, p)
    ensures EntryFits(fs.files, fs.usage, i)
    ensures p in AbsTree(fs) && AbsTree(fs)[p] == NodeAt(fs, i)
  {
    assert EntryFits(fs.files, fs.usage, i);
    assert Hits(fs.files, p);
    PathsHit(fs.files, p);
    EntryUnique(fs.files, i, IdOf(fs.files, p), p);
  }

  lemma AbsFrom(fs: Fs, p: Path) returns (i: nat)
    requires Inv(fs) && p in AbsTree(fs)
    ensures IsPath(fs.files, i, p) && EntryFits(fs.files, fs.usage, i) && AbsTree(fs)[p] == NodeAt(fs, i)
  {
    i := IdOf(fs.files, p);
    AbsAt(fs, i, p);
  }

  /** Entry i shows up in the map with the right node. */
  ghost predicate Shown(fs: Fs, m: map<Path, Node>, i: nat)
    requires i < |fs.files| && Inv(fs)
  {
    assert EntryFits(fs.files, fs.usage, i);
    exists p :: IsPath(fs.files, i, p) && p in m && m[p] == NodeAt(fs, i)
  }

  lemma AbsIs(fs: Fs, m: map<Path, Node>)
    requires Inv(fs)
    requires forall i | 0 <= i < |fs.files| :: Shown(fs, m, i)
    requires forall p | p in m :: Hits(fs.files, p)
    ensures AbsTree(fs) == m
  {
    forall p | p in AbsTree(fs) ensures p in m && m[p] == AbsTree(fs)[p] {
      var i := AbsFrom(fs, p);
      assert Shown(fs, m, i);
      var q :| IsPath(fs.files, i, q) && q in m && m[q] == NodeAt(fs, i);
      PathUnique(fs.files, i, p, q);
    }
    forall p | p in m ensures p in AbsTree(fs) {
      AbsAt(fs, IdOf(fs.files, p), p);
    }
  }

  lemma CwdIs(fs: Fs, p: Path)
    requires Inv(fs) && IsPath(fs.files, fs.cwd, p)
    ensures CwdPath(fs) == p
  {
    PathUnique(fs.files, fs.cwd, p, CwdPath(fs));
  }

  // ----- the operations on the view -----

  /** What a name means in the working directory.  In the root, "/" names the root itself. */
  function Target(v: View, name: string): Path
  {
    if v.cwd == [] && name == "/" then [] else v.cwd + [name]
  }

  /** The root counts as its own child. */
  predicate Occupied(v: View, t: Path)
  {
    t == [] || exists q | q in v.tree :: q != [] && Up(q) == t
  }

  function VPut(v: View, name: string, node: Node): View
  {
    v.(tree := v.tree[Target(v, name) := node])
  }

  function VDrop(v: View, t: Path): View
  {
    v.(tree := v.tree - {t})
  }

  function VCreate(v: View, name: string, node: Node): (View, Status)
  {
    if Target(v, name) in v.tree then (v, AlreadyExists) else (VPut(v, name, node), Success)
  }

  function VWrite(v: View, name: string, bytes: seq<char>): (View, Status)
  {
    var t := Target(v, name);
    if t in v.tree && !v.tree[t].File? then (v, InvalidPath)
    else (VPut(v, name, File(Clip(bytes))), Success)
  }

  function VRead(v: View, name: string, limit: nat): Option<seq<char>>
  {
    var t := Target(v, name);
    if t !in v.tree || !v.tree[t].File? then None
    else if limit < |v.tree[t].bytes| then Some(v.tree[t].bytes[..limit])
    else Some(v.tree[t].bytes)
  }

  function VMkdir(v: View, name: string): (View, Status)
  {
    if |name| == 0 || |name| >= MAX_FILENAME then (v, InvalidName) else VCreate(v, name, Dir)
  }

  function VCd(v: View, path: string): (View, Status)
  {
    if path == "" then (v, InvalidPath)
    else if path == "." then (v, Success)
    else if path == ".." then (v.(cwd := if v.cwd == [] then [] else Up(v.cwd)), Success)
    else
      var t := Target(v, path);
      if t !in v.tree then (v, NotFound)
      else if !v.tree[t].Dir? then (v, NotDirectory)
      else (v.(cwd := t), Success)
  }

  function VDelete(v: View, name: string): (View, Status)
  {
    var t := Target(v, name);
    if t !in v.tree then (v, NotFound) else (VDrop(v, t), Success)
  }

  function VRmdir(v: View, name: string): (View, Status)
  {
    var t := Target(v, name);
    if t !in v.tree then (v, NotFound)
    else if !v.tree[t].Dir? then (v, NotDirectory)
    else if Occupied(v, t) then (v, NotEmpty)
    else (VDrop(v, t), Success)
  }

  function VCopy(v: View, src: string, dest: string): (View, Status)
  {
    match VRead(v, src, MAX_FILE_SIZE)
    case None => (v, InvalidPath)
    case Some(bytes) => VWrite(v, dest, bytes)
  }

  function VMove(v: View, src: string, dest: string): (View, Status)
  {
    var s := Target(v, src);
    if s !in v.tree then (v, NotFound)
    else if Target(v, dest) in v.tree then (v, AlreadyExists)
    else if !v.tree[s].File? then (v, PermissionDenied)
    else (VDrop(VPut(v, dest, v.tree[s]), s), Success)
  }

  function VTouch(v: View, name: string): (View, Status)
  {
    if Target(v, name) in v.tree then (v, Success) else (VPut(v, name, File([])), Success)
  }

  // ----- names and targets -----

  lemma RootHere(files: seq<Entry>, cwd: nat, c: Path)
    requires Tree(files) && IsPath(files, cwd, c)
    ensures c == [] <==> cwd == 0
    ensures cwd == 0 ==> Find(files, 0, "/") == Some(0)
  {
    if cwd == 0 {
      FindIs(files, 0, 0, "/");
    }
  }

  lemma FoundPath(files: seq<Entry>, cwd: nat, c: Path, name: string)
    requires Tree(files) && IsPath(files, cwd, c) && Find(files, cwd, name).Some?
    ensures IsPath(files, Find(files, cwd, name).value, if c == [] && name == "/" then [] else c + [name])
  {
    var i := Find(files, cwd, name).value;
    RootHere(files, cwd, c);
    if i != 0 { PathStep(files, i, c); }
  }

  lemma NotFoundPath(files: seq<Entry>, cwd: nat, c: Path, name: string)
    requires Tree(files) && IsPath(files, cwd, c) && Find(files, cwd, name).None?
    ensures !(c == [] && name == "/") && !Hits(files, c + [name])
  {
    RootHere(files, cwd, c);
    if Hits(files, c + [name]) {
      var i := IdOf(files, c + [name]);
      assert Up(c + [name]) == c;
      EntryUnique(files, files[i].parent, cwd, c);
      assert Matches(files, i, cwd, name);
    }
  }

  lemma FindTarget(fs: Fs, name: string)
    requires Inv(fs)
    ensures match FindHere(fs, name)
            case Some(i) => IsPath(fs.files, i, Target(Abs(fs), name))
            case None => Target(Abs(fs), name) !in AbsTree(fs)
                         && Target(Abs(fs), name) == CwdPath(fs) + [name]
  {
    if FindHere(fs, name).Some? {
      FoundPath(fs.files, fs.cwd, CwdPath(fs), name);
    } else {
      NotFoundPath(fs.files, fs.cwd, CwdPath(fs), name);
      PathsHit(fs.files, CwdPath(fs) + [name]);
    }
  }
}
