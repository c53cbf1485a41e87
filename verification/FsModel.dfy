/** The filesystem as a value: the live part of the entry table, the working directory, its cached
    path and the data area, with every operation as a function from state to state. */
module FsModel {
  import opened Options

  const MAX_FILES: nat := 256
  const MAX_FILENAME: nat := 64
  const MAX_FILE_SIZE: nat := 4096
  const MAX_PATH: nat := 256
  const MAX_DEPTH: nat := 32
  const DATA_SIZE: nat := MAX_FILES * MAX_FILE_SIZE

  datatype FileType = Regular | Directory | Device

  datatype Entry = Entry(name: string, ftype: FileType, size: nat, parent: nat, offset: nat) {
    function End(): nat { offset + size }
  }

  /** files is the table up to file_count.  Entry 0 is the root and its own parent. */
  datatype Fs = Fs(files: seq<Entry>, cwd: nat, path: string, data: seq<char>, usage: nat, nextId: nat)

  datatype Status = Success | NotFound | InvalidName | NoSpace | AlreadyExists | InvalidPath
                  | NotDirectory | NotEmpty | PermissionDenied

  // ----- lookup -----

  predicate Matches(files: seq<Entry>, i: nat, dir: nat, name: string)
    requires i < |files|
  {
    files[i].parent == dir && files[i].name == name
  }

  function FindFrom(files: seq<Entry>, i: nat, dir: nat, name: string): (r: Option<nat>)
    requires i <= |files|
    ensures r.Some? ==> i <= r.value < |files| && Matches(files, r.value, dir, name)
    ensures r.None? ==> forall j | i <= j < |files| :: !Matches(files, j, dir, name)
    decreases |files| - i
  {
    if i == |files| then None
    else if Matches(files, i, dir, name) then Some(i)
    else FindFrom(files, i + 1, dir, name)
  }

  /** find_file_in_dir: the first entry of that name in the directory. */
  function Find(files: seq<Entry>, dir: nat, name: string): (r: Option<nat>)
    ensures r.Some? ==> r.value < |files| && Matches(files, r.value, dir, name)
    ensures r.None? ==> forall j | 0 <= j < |files| :: !Matches(files, j, dir, name)
  {
    FindFrom(files, 0, dir, name)
  }

  function FindHere(fs: Fs, name: string): (r: Option<nat>)
    ensures r.Some? ==> r.value < |fs.files| && Matches(fs.files, r.value, fs.cwd, name)
    ensures r.None? ==> forall j | 0 <= j < |fs.files| :: !Matches(fs.files, j, fs.cwd, name)
  {
    Find(fs.files, fs.cwd, name)
  }

  /** Some entry names i as its parent.  The root always has a child: itself. */
  predicate HasChild(files: seq<Entry>, i: nat)
  {
    exists j | 0 <= j < |files| :: files[j].parent == i
  }

  // ----- path strings -----

  /** The names from entry i towards the root, at most fuel of them, outermost first. */
  function Names(files: seq<Entry>, i: nat, fuel: nat): seq<string>
    decreases fuel
  {
    if i == 0 || fuel == 0 || i >= |files| then []
    else Names(files, files[i].parent, fuel - 1) + [files[i].name]
  }

  function Join(names: seq<string>): string
  {
    if names == [] then ""
    else if |names| == 1 then names[0]
    else Join(names[..|names| - 1]) + ("/" + names[|names| - 1])
  }

  function Slashed(names: seq<string>): string
  {
    if names == [] then "" else Slashed(names[..|names| - 1]) + ("/" + names[|names| - 1])
  }

  /** rebuild_current_path: "/" and then the names with "/" between them. */
  function Rebuilt(files: seq<Entry>, cwd: nat): string
  {
    if cwd == 0 then "/" else "/" + Join(Names(files, cwd, MAX_DEPTH))
  }

  /** fs_getcwd: "/" before every name. */
  function Getcwd(fs: Fs): string
  {
    if fs.cwd == 0 then "/" else Slashed(Names(fs.files, fs.cwd, MAX_DEPTH))
  }

  // ----- buffers -----

  /** A name that fs_create_file would store fits its field.  The strncpy that stores it runs past the
      field and never stops for a longer one (StringLib.StrncpyStops). */
  predicate NameFits(fs: Fs, name: string)
  {
    FindHere(fs, name).None? && |fs.files| < MAX_FILES ==> |name| < MAX_FILENAME - 1
  }

  /** The path of directory dir fits the buffer of the cached path, terminator included.  The data
      area comes right behind that buffer. */
  predicate PathFits(files: seq<Entry>, dir: nat)
  {
    |Rebuilt(files, dir)| < MAX_PATH
  }

  /** Entering the directory of that name keeps the cached path in its buffer.  Going up has no
      condition: it leads to a directory that was entered before (FsView.Inv). */
  predicate CdFits(fs: Fs, path: string)
  {
    && fs.cwd < |fs.files|
    && (path != "." && path != ".." && FindHere(fs, path).Some?
        && fs.files[FindHere(fs, path).value].ftype == Directory ==>
          PathFits(fs.files, FindHere(fs, path).value))
  }

  // ----- operations -----

  /** fs_create_file: the new entry's data will start where the data area is used up to. */
  function Create(fs: Fs, name: string, ftype: FileType): (Fs, Status)
    requires NameFits(fs, name)
  {
    if |fs.files| >= MAX_FILES then (fs, NoSpace)
    else if FindHere(fs, name).Some? then (fs, AlreadyExists)
    else (fs.(files := fs.files + [Entry(name, ftype, 0, fs.cwd, fs.usage)]), Success)
  }

  function Clip(bytes: seq<char>): (r: seq<char>)
    ensures |r| <= MAX_FILE_SIZE
  {
    if |bytes| > MAX_FILE_SIZE then bytes[..MAX_FILE_SIZE] else bytes
  }

  function Overlay(data: seq<char>, at: nat, bytes: seq<char>): (r: seq<char>)
    requires at + |bytes| <= |data|
    ensures |r| == |data|
  {
    data[..at] + (bytes + data[at + |bytes|..])
  }

  /** The copy into the data area and the bookkeeping that follows it. */
  function Store(fs: Fs, i: nat, bytes: seq<char>): Fs
    requires i < |fs.files| && fs.files[i].offset + |bytes| <= |fs.data|
  {
    var end := fs.files[i].offset + |bytes|;
    fs.(files := fs.files[i := fs.files[i].(size := |bytes|)],
        data := Overlay(fs.data, fs.files[i].offset, bytes),
        usage := if end > fs.usage then end else fs.usage)
  }

  /** The write stays inside the name's field and the data area. */
  predicate WriteFits(fs: Fs, name: string, bytes: seq<char>)
  {
    && NameFits(fs, name)
    && match FindHere(fs, name)
       case None => |fs.files| < MAX_FILES ==> fs.usage + |Clip(bytes)| <= |fs.data|
       case Some(i) => fs.files[i].ftype == Regular ==> fs.files[i].offset + |Clip(bytes)| <= |fs.data|
  }

  /** fs_write_file */
  function Write(fs: Fs, name: string, bytes: seq<char>): (Fs, Status)
    requires WriteFits(fs, name, bytes)
  {
    match FindHere(fs, name)
    case Some(i) =>
      if fs.files[i].ftype != Regular then (fs, InvalidPath)
      else (Store(fs, i, Clip(bytes)), Success)
    case None =>
      var (fs', status) := Create(fs, name, Regular);
      if status != Success then (fs, NoSpace)
      else (Store(fs', |fs.files|, Clip(bytes)), Success)
  }

  /** The bytes of entry i. */
  function Contents(fs: Fs, i: nat): seq<char>
    requires i < |fs.files| && fs.files[i].End() <= |fs.data|
  {
    fs.data[fs.files[i].offset..fs.files[i].End()]
  }

  predicate ReadFits(fs: Fs, name: string)
  {
    var r := FindHere(fs, name);
    r.Some? && fs.files[r.value].ftype == Regular ==> fs.files[r.value].End() <= |fs.data|
  }

  /** fs_read_file: at most limit bytes; None stands for the error code. */
  function Read(fs: Fs, name: string, limit: nat): Option<seq<char>>
    requires ReadFits(fs, name)
  {
    match FindHere(fs, name)
    case None => None
    case Some(i) =>
      if fs.files[i].ftype != Regular then None
      else if limit < fs.files[i].size then Some(Contents(fs, i)[..limit])
      else Some(Contents(fs, i))
  }

  /** fs_make_directory */
  function Mkdir(fs: Fs, name: string): (Fs, Status)
  {
    if |name| == 0 || |name| >= MAX_FILENAME then (fs, InvalidName)
    else if FindHere(fs, name).Some? then (fs, AlreadyExists)
    else if |fs.files| >= MAX_FILES || fs.nextId >= MAX_FILES then (fs, NoSpace)
    else (fs.(files := fs.files + [Entry(name, Directory, 0, fs.cwd, 0)], nextId := fs.nextId + 1), Success)
  }

  function Enter(fs: Fs, dir: nat): Fs
  {
    fs.(cwd := dir, path := Rebuilt(fs.files, dir))
  }

  /** fs_change_directory */
  function Cd(fs: Fs, path: string): (Fs, Status)
    requires CdFits(fs, path)
  {
    if path == "" then (fs, InvalidPath)
    else if path == "." then (fs, Success)
    else if path == ".." then (Enter(fs, fs.files[fs.cwd].parent), Success)
    else match FindHere(fs, path)
      case None => (fs, NotFound)
      case Some(i) =>
        if fs.files[i].ftype != Directory then (fs, NotDirectory) else (Enter(fs, i), Success)
  }

  function Renumbered(e: Entry, from: nat, to: nat): Entry
  {
    if e.parent == from then e.(parent := to) else e
  }

  /** Which old entry ends up at index j when entry t is deleted. */
  function OldIndex(n: nat, t: nat, j: nat): nat
    requires n > 0
  {
    if j == t then n - 1 else j
  }

  /** The table after entry t has been overwritten by the last entry, whose children follow it. */
  function Removed(files: seq<Entry>, t: nat): (r: seq<Entry>)
    requires t < |files|
    ensures |r| == |files| - 1
    ensures forall j | 0 <= j < |r| :: r[j] == Renumbered(files[OldIndex(|files|, t, j)], |files| - 1, t)
  {
    seq(|files| - 1, j requires 0 <= j < |files| - 1 =>
      Renumbered(files[OldIndex(|files|, t, j)], |files| - 1, t))
  }

  function Remove(fs: Fs, t: nat): Fs
    requires t < |fs.files|
  {
    fs.(files := Removed(fs.files, t), cwd := if fs.cwd == |fs.files| - 1 then t else fs.cwd)
  }

  /** fs_delete_file */
  function Delete(fs: Fs, name: string): (Fs, Status)
  {
    match FindHere(fs, name)
    case None => (fs, NotFound)
    case Some(t) => (Remove(fs, t), Success)
  }

  /** fs_remove_directory */
  function Rmdir(fs: Fs, name: string): (Fs, Status)
  {
    match FindHere(fs, name)
    case None => (fs, NotFound)
    case Some(t) =>
      if fs.files[t].ftype != Directory then (fs, NotDirectory)
      else if HasChild(fs.files, t) then (fs, NotEmpty)
      else (Remove(fs, t), Success)
  }

  /** fs_copy_file: the source is read into a buffer first. */
  predicate CopyFits(fs: Fs, src: string, dest: string)
  {
    && ReadFits(fs, src)
    && var r := Read(fs, src, MAX_FILE_SIZE);
       r.Some? ==> WriteFits(fs, dest, r.value)
  }

  function Copy(fs: Fs, src: string, dest: string): (Fs, Status)
    requires CopyFits(fs, src, dest)
  {
    match Read(fs, src, MAX_FILE_SIZE)
    case None => (fs, InvalidPath)
    case Some(bytes) => Write(fs, dest, bytes)
  }

  predicate MoveFits(fs: Fs, src: string, dest: string)
  {
    && ReadFits(fs, src) && (FindHere(fs, src).Some? ==> NameFits(fs, dest))
    && var r := FindHere(fs, src);
       r.Some? && fs.files[r.value].ftype == Regular && FindHere(fs, dest).None? && |fs.files| < MAX_FILES ==>
         fs.usage + |Clip(Contents(fs, r.value))| <= |fs.data|
  }

  /** fs_move_file: create the destination, copy, delete the source; a source that cannot be read
      makes the new entry go away again. */
  function Move(fs: Fs, src: string, dest: string): (Fs, Status)
    requires MoveFits(fs, src, dest)
  {
    match FindHere(fs, src)
    case None => (fs, NotFound)
    case Some(s) =>
      if FindHere(fs, dest).Some? then (fs, AlreadyExists)
      else
        var (fs1, status) := Create(fs, dest, fs.files[s].ftype);
        if status != Success then (fs, status)
        else if fs.files[s].ftype != Regular then (Remove(fs1, |fs.files|), PermissionDenied)
        else
          var fs2 := Store(fs1, |fs.files|, Clip(Contents(fs, s)));
          (Remove(fs2, s), Success)
  }

  /** fs_touch_file, time stamps aside */
  function Touch(fs: Fs, name: string): (Fs, Status)
    requires NameFits(fs, name)
  {
    if FindHere(fs, name).Some? then (fs, Success)
    else
      var (fs', status) := Create(fs, name, Regular);
      (fs', if status == Success then Success else NoSpace)
  }

  /** fs_resolve_path on the path's tokens, from directory dir. */
  function Walk(files: seq<Entry>, dir: nat, toks: seq<string>): Option<nat>
    decreases |toks|
  {
    if toks == [] then Some(dir)
    else match Find(files, dir, toks[0])
      case None => None
      case Some(n) => if files[n].ftype != Directory then None else Walk(files, n, toks[1..])
  }

  function Bare(data: seq<char>): Fs
  {
    Fs([Entry("/", Directory, 0, 0, 0)], 0, "/", data, 0, 1)
  }

  function MkdirThree(fs: Fs, a: string, b: string, c: string): Fs
  {
    Mkdir(Mkdir(Mkdir(fs, a).0, b).0, c).0
  }

  /** fs_init */
  function Formatted(data: seq<char>): Fs
  {
    MkdirThree(Bare(data), "home", "bin", "etc")
  }
}
