/** The filesystem as it runs: the entry table and the data area are arrays updated in place. */
module FileSystem {
  import opened Options
  import opened CStrings
  import StringLib
  import opened FsModel
  import opened FsTree
  import opened FsView
  import opened FsSteps
  import opened FsRefine
  import opened FsPaths
  import opened FsRuns

  /** What memset leaves in the data area. */
  function Cleared(n: nat): seq<char>
    ensures |Cleared(n)| == n && forall k | 0 <= k < n :: Cleared(n)[k] == NUL
  {
    seq(n, _ => NUL)
  }

  lemma FirstBytes(data: seq<char>, at: nat, count: nat, size: nat)
    requires count <= size && at + size <= |data|
    ensures data[at..at + size][..count] == data[at..at + count]
    ensures data[at..at + size][..size] == data[at..at + size]
  {
  }

  /** A buffer after a text and its terminator have been stored at its start. */
  function Written(was: seq<char>, text: string): (r: seq<char>)
    requires |text| < |was|
    ensures |r| == |was| && text <= r && r[|text|] == NUL
  {
    text + [NUL] + was[|text| + 1..]
  }

  /** What fs_getcwd's order of writing and comparing means: memory behind a buffer of that size is left
      alone, whatever it held, if and only if the text and its terminator fit the buffer. */
  lemma OverrunExactly(total: nat, text: string, size: nat)
    requires |text| < total && size <= total
    ensures (forall was: seq<char> | |was| == total :: Written(was, text)[size..] == was[size..])
            <==> |text| < size
  {
    if |text| < size {
      forall was: seq<char> | |was| == total ensures Written(was, text)[size..] == was[size..] {
        TailKept(was, text, size);
      }
    } else {
      var was: seq<char> := seq(total, _ => 'x');
      assert Written(was, text)[size..][|text| - size] == NUL && was[size..][|text| - size] == 'x';
    }
  }

  lemma RemovedLast(table: seq<Entry>)
    requires table != []
    ensures Removed(table, |table| - 1) == table[..|table| - 1]
  {
  }

  lemma TailKept(was: seq<char>, text: string, size: nat)
    requires |text| < size <= |was|
    ensures Written(was, text)[size..] == was[size..]
  {
    forall k | size <= k < |was| ensures Written(was, text)[k] == was[k] {
      assert was[|text| + 1..][k - |text| - 1] == was[k];
    }
  }

  class Filesystem {
    const files: array<Entry>
    var fileCount: nat
    var currentDir: nat
    const currentPath: array<char>
    const dataStorage: array<char>
    var dataUsage: nat
    var nextFileId: nat
    ghost var state: Fs  // the live part of all that

    /** The buffer of the cached path holds the text p. */
    ghost predicate PathIs(p: string)
      reads currentPath
    {
      |p| < currentPath.Length && currentPath[..|p|] == p && currentPath[|p|] == NUL
    }

    /** The fields and arrays hold the state. */
    ghost predicate Holds()
      reads this, files, dataStorage, currentPath
    {
      && files.Length == MAX_FILES && dataStorage.Length == |state.data| && dataStorage != currentPath
      && fileCount == |state.files| <= MAX_FILES
      && (forall i | 0 <= i < fileCount :: files[i] == state.files[i])
      && (forall k | 0 <= k < |state.data| :: dataStorage[k] == state.data[k])
      && currentDir == state.cwd && currentPath.Length == MAX_PATH && PathIs(state.path)
      && dataUsage == state.usage && nextFileId == state.nextId
    }

    ghost predicate Valid()
      reads this, files, dataStorage, currentPath
    {
      Holds() && Inv(state)
    }

    /** fs_init: the cleared structure and the root; then the system directories. */
    constructor ()
      ensures Valid() && fresh(files) && fresh(dataStorage) && fresh(currentPath)
      ensures state == Formatted(Cleared(DATA_SIZE))
    {
      files := new Entry[MAX_FILES](_ => Entry("", Regular, 0, 0, 0));
      dataStorage := new char[DATA_SIZE](_ => NUL);
      currentPath := new char[MAX_PATH](_ => NUL);
      new;
      MakeRoot();
      MakeStandard();
    }

    /** The fields, the root entry and the cached path of the cleared structure. */
    method MakeRoot()
      requires files.Length == MAX_FILES && currentPath.Length == MAX_PATH && currentPath[1] == NUL
      requires dataStorage != currentPath && dataStorage.Length == DATA_SIZE
      requires forall k | 0 <= k < DATA_SIZE :: dataStorage[k] == NUL
      modifies this, files, currentPath
      ensures Valid() && state == Bare(Cleared(DATA_SIZE))
    {
      hide Inv;
      fileCount, currentDir, dataUsage, nextFileId := 1, 0, 0, 1;
      files[0] := Entry("/", Directory, 0, 0, 0);
      currentPath[0] := '/';
      state := Bare(Cleared(DATA_SIZE));
      BareState(Cleared(DATA_SIZE));
    }

    /** The three mkdir calls at the end of fs_init. */
    method MakeStandard()
      requires Valid() && state == Bare(Cleared(DATA_SIZE))
      modifies this, files
      ensures Valid() && state == Formatted(Cleared(DATA_SIZE))
    {
      hide Inv, Holds;
      FormattedState(Cleared(DATA_SIZE));
      var r := MakeDirectory("home");
      r := MakeDirectory("bin");
      r := MakeDirectory("etc");
    }

    method FindFileInDir(dir: nat, name: string) returns (r: Option<nat>)
      requires Holds()
      ensures r == Find(state.files, dir, name)
    {
      var i := 0;
      while i < fileCount
        invariant i <= fileCount
        invariant Find(state.files, dir, name) == FindFrom(state.files, i, dir, name)
      {
        if files[i].parent == dir && files[i].name == name {
          return Some(i);
        }
        i := i + 1;
      }
      return None;
    }

    method AddEntry(e: Entry)
      requires Holds() && fileCount < MAX_FILES
      modifies `fileCount, `state, files
      ensures Holds() && state == old(state).(files := old(state).files + [e])
    {
      files[fileCount] := e;
      fileCount := fileCount + 1;
      state := state.(files := state.files + [e]);
    }

    method CreateFile(name: string, ftype: FileType) returns (status: Status)
      requires Valid() && NameFits(state, name)
      modifies this, files
      ensures Valid()
      ensures (state, status) == Create(old(state), name, ftype)
    {
      CreateInv(state, name, ftype);
      if fileCount >= MAX_FILES {
        return NoSpace;
      }
      var found := FindFileInDir(currentDir, name);
      if found.Some? {
        return AlreadyExists;
      }
      AddEntry(Entry(name, ftype, 0, currentDir, dataUsage));
      return Success;
    }

    method BumpFileId()
      requires Holds()
      modifies `nextFileId, `state
      ensures Holds() && state == old(state).(nextId := old(state).nextId + 1)
    {
      nextFileId := nextFileId + 1;
      state := state.(nextId := state.nextId + 1);
    }

    method MakeDirectory(name: string) returns (status: Status)
      requires Valid()
      modifies this, files
      ensures Valid()
      ensures (state, status) == Mkdir(old(state), name)
    {
      hide Inv;
      MkdirInv(state, name);
      if |name| == 0 || |name| >= MAX_FILENAME {
        return InvalidName;
      }
      var existing := FindFileInDir(currentDir, name);
      if existing.Some? {
        return AlreadyExists;
      }
      if fileCount >= MAX_FILES {
        return NoSpace;
      }
      if nextFileId >= MAX_FILES {
        return NoSpace;
      }
      AddEntry(Entry(name, Directory, 0, currentDir, 0));
      BumpFileId();
      return Success;
    }

    // ----- data -----

    /** memcpy into the data area. */
    method CopyIn(at: nat, bytes: seq<char>)
      requires Holds() && at + |bytes| <= |state.data|
      modifies dataStorage, `state
      ensures Holds() && state == old(state).(data := Overlay(old(state).data, at, bytes))
    {
      ghost var data := state.data;
      var k := 0;
      while k < |bytes|
        invariant k <= |bytes|
        invariant forall j | 0 <= j < |data| ::
          dataStorage[j] == if at <= j < at + k then bytes[j - at] else data[j]
        modifies dataStorage
      {
        dataStorage[at + k] := bytes[k];
        k := k + 1;
      }
      OverlayAt(data, at, bytes);
      state := state.(data := Overlay(data, at, bytes));
    }

    /** The tail of fs_write_file, for a regular file. */
    method StoreFile(i: nat, bytes: seq<char>)
      requires Holds() && i < fileCount && state.files[i].offset + |bytes| <= |state.data|
      modifies this, files, dataStorage
      ensures Holds()
      ensures state == Store(old(state), i, bytes)
    {
      ghost var s := state;
      CopyIn(files[i].offset, bytes);
      files[i] := files[i].(size := |bytes|);
      if files[i].offset + |bytes| > dataUsage {
        dataUsage := files[i].offset + |bytes|;
      }
      state := Store(s, i, bytes);
    }

    method WriteFile(name: string, bytes: seq<char>) returns (status: Status)
      requires Valid() && WriteFits(state, name, bytes)
      modifies this, files, dataStorage
      ensures Valid()
      ensures (state, status) == Write(old(state), name, bytes)
    {
      hide Store, Tree, Rebuilt, Roomy, PathIs;
      WriteInv(state, name, bytes);
      var r := FindFileInDir(currentDir, name);
      if r.None? {
        if fileCount < MAX_FILES { AfterCreate(state, name, Regular); }
        var created := CreateFile(name, Regular);
        if created != Success {
          return NoSpace;
        }
        r := FindFileInDir(currentDir, name);
      }
      if files[r.value].ftype != Regular {
        return InvalidPath;
      }
      var data := if |bytes| > MAX_FILE_SIZE then bytes[..MAX_FILE_SIZE] else bytes;
      StoreFile(r.value, data);
      return Success;
    }

    /** memcpy out of the data area. */
    method CopyOut(at: nat, buffer: array<char>, count: nat)
      requires Holds() && buffer != dataStorage && buffer != currentPath
      requires count <= buffer.Length && at + count <= |state.data|
      modifies buffer
      ensures buffer[..] == state.data[at..at + count] + old(buffer[..])[count..]
    {
      var k := 0;
      while k < count
        invariant k <= count
        invariant forall j | 0 <= j < buffer.Length ::
          buffer[j] == if j < k then state.data[at + j] else old(buffer[j])
      {
        buffer[k] := dataStorage[at + k];
        k := k + 1;
      }
    }

    /** The bytes go to the caller's buffer; None stands for the error code. */
    method ReadFile(name: string, buffer: array<char>, size: nat) returns (n: Option<nat>)
      requires Valid() && buffer != dataStorage && buffer != currentPath && size <= buffer.Length
      modifies buffer
      ensures ReadFits(state, name)
      ensures match Read(state, name, size)
              case None => n == None && buffer[..] == old(buffer[..])
              case Some(b) => n == Some(|b|) && |b| <= size && buffer[..] == b + old(buffer[..])[|b|..]
    {
      hide Join, Tree;
      ReadInBounds(state, name);
      var r := FindFileInDir(currentDir, name);
      if r.None? || files[r.value].ftype != Regular {
        return None;
      }
      var i := r.value;
      assert EntryFits(state.files, state.usage, i);
      var count := if size < files[i].size then size else files[i].size;
      FirstBytes(state.data, files[i].offset, count, files[i].size);
      assert Read(state, name, size) == Some(state.data[files[i].offset..files[i].offset + count]);
      CopyOut(files[i].offset, buffer, count);
      return Some(count);
    }

    // ----- the working directory -----

    method RebuildCurrentPath()
      requires Holds() && Tree(state.files) && currentDir < fileCount && PathFits(state.files, currentDir)
      modifies `state, currentPath
      ensures Holds() && state == old(state).(path := Rebuilt(old(state).files, old(state).cwd))
    {
      hide Names, Join;
      if currentDir == 0 {
        SetPath("/");
        return;
      }
      var stack: seq<string> := [];
      var curr := currentDir;
      ClimbStart(state.files, currentDir);
      while curr != 0 && |stack| < MAX_DEPTH
        invariant Climbed(state.files, currentDir, curr, stack)
        decreases MAX_DEPTH - |stack|
        modifies {}
      {
        assert Parented(state.files, curr);
        ClimbStep(state.files, currentDir, curr, stack);
        stack, curr := stack + [files[curr].name], files[curr].parent;
      }
      ClimbDone(state.files, currentDir, curr, stack);
      var path := JoinStack(stack);
      SetPath(path);
    }

    /** The second half of rebuild_current_path. */
    static method JoinStack(stack: seq<string>) returns (path: string)
      ensures path == "/" + Join(Reversed(stack))
    {
      hide Reversed;
      ghost var names := Reversed(stack);
      path := "/";
      var i := |stack| - 1;
      while i >= 0
        invariant -1 <= i < |stack|
        invariant path == PartlyJoined(names, |stack| - 1 - i)
      {
        ghost var m := |stack| - 1 - i;
        ReversedAt(stack, m);
        JoinStep(names, m);
        path := path + stack[i];
        if i != 0 {
          path := path + "/";
        }
        i := i - 1;
      }
      assert names[..|names|] == names;
    }

    method SetPath(path: string)
      requires Holds() && |path| < MAX_PATH
      modifies `state, currentPath
      ensures Holds() && state == old(state).(path := path)
    {
      PutString(currentPath, path);
      state := state.(path := path);
    }

    method EnterDirectory(dir: nat)
      requires Holds() && Tree(state.files) && dir < fileCount && PathFits(state.files, dir)
      modifies `currentDir, `state, currentPath
      ensures Holds() && state == Enter(old(state), dir)
    {
      currentDir := dir;
      state := state.(cwd := dir);
      RebuildCurrentPath();
    }

    method ChangeDirectory(path: string) returns (status: Status)
      requires Valid() && CdFits(state, path)
      modifies `currentDir, `state, currentPath
      ensures Valid() && (state, status) == Cd(old(state), path)
    {
      CdInv(state, path);
      if |path| == 0 {
        return InvalidPath;
      }
      if path == "." {
        return Success;
      }
      if path == ".." {
        assert Parented(state.files, currentDir);
        UpAlwaysFits(state);
        EnterDirectory(files[currentDir].parent);
        return Success;
      }
      var target := FindFileInDir(currentDir, path);
      if target.None? {
        return NotFound;
      }
      if files[target.value].ftype != Directory {
        return NotDirectory;
      }
      EnterDirectory(target.value);
      return Success;
    }

    /** fs_getcwd on a buffer of the given size at the start of mem.  The path is written before its
        length is compared with the size, so a buffer that is too small has been overrun by then. */
    method GetCwd(mem: array<char>, size: nat) returns (status: Status)
      requires Valid() && mem != dataStorage && mem != currentPath
      requires size <= mem.Length && |Getcwd(state)| < mem.Length
      modifies mem
      ensures status == if size < 1 then InvalidPath
                        else if |Getcwd(state)| + 1 > size then NoSpace
                        else Success
      ensures mem[..] == if size < 1 || (currentDir == 0 && size < 2) then old(mem[..])
                         else Written(old(mem[..]), Getcwd(state))
    {
      if size < 1 {
        return InvalidPath;
      }
      if currentDir == 0 && size < 2 {
        return NoSpace;
      }
      status := PutCwd(mem, size);
    }

    method PutCwd(mem: array<char>, size: nat) returns (status: Status)
      requires Valid() && mem != dataStorage && mem != currentPath
      requires |Getcwd(state)| < mem.Length
      modifies mem
      ensures status == if |Getcwd(state)| + 1 > size then NoSpace else Success
      ensures mem[..] == Written(old(mem[..]), Getcwd(state))
    {
      var path := CwdText();
      PutString(mem, path);
      status := if |path| + 1 > size then NoSpace else Success;
    }

    method CwdText() returns (path: string)
      requires Valid()
      ensures path == Getcwd(state)
    {
      if currentDir == 0 {
        return "/";
      }
      var stack := StackNames();
      path := SlashStack(stack);
    }

    /** strcpy of a text to the start of a buffer. */
    static method PutString(buf: array<char>, text: string)
      requires |text| < buf.Length
      modifies buf
      ensures buf[..] == Written(old(buf[..]), text)
    {
      var k := 0;
      while k < |text|
        invariant k <= |text|
        invariant forall j | 0 <= j < buf.Length :: buf[j] == if j < k then text[j] else old(buf[j])
      {
        buf[k] := text[k];
        k := k + 1;
      }
      buf[k] := NUL;
    }

    /** The climb of fs_getcwd.  The test for a parent cycle never succeeds: the entry's path gets
        shorter with every step, so no entry is met twice. */
    method StackNames() returns (stack: seq<string>)
      requires Valid()
      ensures Reversed(stack) == Names(state.files, state.cwd, MAX_DEPTH)
    {
      ghost var p := CwdPath(state);
      ghost var q := p;
      stack := [];
      var current := currentDir;
      ClimbStart(state.files, currentDir);
      while current != 0 && |stack| < MAX_DEPTH
        invariant Climbed(state.files, currentDir, current, stack)
        invariant IsPath(state.files, current, q) && |q| + |stack| == |p|
        decreases MAX_DEPTH - |stack|
      {
        assert Parented(state.files, current);
        ClimbStep(state.files, currentDir, current, stack);
        stack, current, q := stack + [files[current].name], files[current].parent, Up(q);
        if IsPath(state.files, currentDir, q) { PathUnique(state.files, currentDir, p, q); }
        if current == currentDir {
          break;
        }
      }
      ClimbDone(state.files, currentDir, current, stack);
    }

    /** The second half of fs_getcwd. */
    static method SlashStack(stack: seq<string>) returns (buffer: string)
      ensures buffer == Slashed(Reversed(stack))
    {
      ghost var names := Reversed(stack);
      buffer := "";
      var i := |stack| - 1;
      while i >= 0
        invariant -1 <= i < |stack|
        invariant buffer == Slashed(names[..|stack| - 1 - i])
      {
        ReversedAt(stack, |stack| - 1 - i);
        SlashedStep(names, |stack| - 1 - i);
        buffer := buffer + "/" + stack[i];
        i := i - 1;
      }
      assert names[..|names|] == names;
    }

    /** fs_resolve_path: strtok cuts a copy of the path; each token is looked up in turn. */
    method ResolvePath(path: string) returns (r: Option<nat>)
      requires Valid() && NUL !in path && |path| < MAX_PATH - 1
      ensures r == Resolve(state, path)
    {
      hide Inv, StrAt, Tokens;
      if path == "" {
        return None;
      }
      var dir: nat := if path[0] == '/' then 0 else currentDir;
      var tokenizer := new Tokenizer(path);
      ghost var toks := Tokens(path, SLASH);
      ghost var goal := Walk(state.files, dir, toks);
      var token := NextName(tokenizer);
      while token.Some?
        invariant tokenizer.Valid() && fresh(tokenizer) && fresh(tokenizer.buf)
        invariant toks == match token case None => [] case Some(t) => [t] + Tokens(tokenizer.rest, SLASH)
        invariant goal == Walk(state.files, dir, toks)
        decreases |toks|
      {
        var next := FindFileInDir(dir, token.value);
        if next.None? || files[next.value].ftype != Directory {
          return None;
        }
        dir, toks := next.value, toks[1..];
        token := NextName(tokenizer);
      }
      return Some(dir);
    }

    static method NextName(tokenizer: Tokenizer) returns (name: Option<string>)
      requires tokenizer.Valid()
      modifies tokenizer, tokenizer.buf
      ensures tokenizer.Valid()
      ensures Tokens(old(tokenizer.rest), SLASH)
              == match name case None => [] case Some(t) => [t] + Tokens(tokenizer.rest, SLASH)
    {
      ghost var r := FirstToken(tokenizer.rest, SLASH);
      var start := tokenizer.Next(SLASH);
      if start.None? {
        return None;
      }
      var s := ReadString(tokenizer.buf, start.value, r.value.0);
      return Some(s);
    }

    /** The string a char pointer points to. */
    static method ReadString(buf: array<char>, start: nat, ghost s: string) returns (r: string)
      requires StrAt(buf, start, s)
      ensures r == s
    {
      r := "";
      var i := start;
      while buf[i] != NUL
        invariant i == start + |r| && |r| <= |s| && r == s[..|r|]
        invariant buf[i] == StringLib.CharAt(s, |r|)
        decreases |s| - |r|
      {
        r, i := r + [buf[i]], i + 1;
        assert |r| < |s| ==> s[|r|] == buf[i];
      }
    }

    // ----- removal -----

    /** The swap with the last entry that fs_delete_file and fs_remove_directory share: references to
        the last entry are redirected, then it overwrites entry t. */
    method SwapDelete(t: nat)
      requires Holds() && t < fileCount
      modifies `fileCount, `currentDir, `state, files
      ensures Holds() && state == Remove(old(state), t)
    {
      hide PathIs, Removed, Renumbered;
      ghost var s := state;
      var last := fileCount - 1;
      if t < last {
        RenumberParents(last, t);
        if currentDir == last {
          currentDir := t;
        }
        files[t] := files[last];
      } else {
        RemovedLast(s.files);
      }
      fileCount := fileCount - 1;
      state := Remove(s, t);
    }

    method RenumberParents(from: nat, to: nat)
      requires Holds()
      modifies files
      ensures forall k | 0 <= k < fileCount :: files[k] == Renumbered(state.files[k], from, to)
    {
      var i := 0;
      while i < fileCount
        invariant i <= fileCount
        invariant forall k | 0 <= k < fileCount ::
          files[k] == if k < i then Renumbered(state.files[k], from, to) else state.files[k]
      {
        if files[i].parent == from {
          files[i] := files[i].(parent := to);
        }
        i := i + 1;
      }
    }

    /** fs_delete_file.  It does not look for children, so the invariant survives only if there are
        none (FsLimits.DeleteExact). */
    method DeleteFile(name: string) returns (status: Status)
      requires Valid()
      modifies `fileCount, `currentDir, `state, files
      ensures Holds() && (state, status) == Delete(old(state), name)
      ensures DeleteQuiet(old(state), name) ==> Valid()
    {
      if DeleteQuiet(state, name) { DeleteInv(state, name); }
      var r := FindFileInDir(currentDir, name);
      if r.None? {
        return NotFound;
      }
      SwapDelete(r.value);
      return Success;
    }

    method RemoveDirectory(name: string) returns (status: Status)
      requires Valid()
      modifies `fileCount, `currentDir, `state, files
      ensures Valid() && (state, status) == Rmdir(old(state), name)
    {
      hide Inv;
      RmdirInv(state, name);
      var r := FindFileInDir(currentDir, name);
      if r.None? {
        return NotFound;
      }
      if files[r.value].ftype != Directory {
        return NotDirectory;
      }
      var i := 0;
      while i < fileCount
        invariant i <= fileCount
        invariant forall j | 0 <= j < i :: state.files[j].parent != r.value
        modifies {}
      {
        if files[i].parent == r.value {
          assert HasChild(state.files, r.value);
          return NotEmpty;
        }
        i := i + 1;
      }
      assert !HasChild(state.files, r.value);
      SwapDelete(r.value);
      return Success;
    }

    // ----- copy, move, touch -----

    method CopyFile(src: string, dest: string) returns (status: Status)
      requires Valid() && CopyFits(state, src, dest)
      modifies this, files, dataStorage
      ensures Valid()
      ensures (state, status) == Copy(old(state), src, dest)
    {
      var buffer := new char[MAX_FILE_SIZE];
      var n := ReadFile(src, buffer, MAX_FILE_SIZE);
      if n.None? {
        return InvalidPath;
      }
      assert buffer[..n.value] == Read(state, src, MAX_FILE_SIZE).value;
      status := WriteFile(dest, buffer[..n.value]);
    }

    /** fs_move_file.  The write cannot fail, so the clean-up the source has for that is not reached. */
    method MoveFile(src: string, dest: string) returns (status: Status)
      requires Valid() && MoveFits(state, src, dest)
      modifies this, files, dataStorage
      ensures Valid()
      ensures (state, status) == Move(old(state), src, dest)
    {
      hide Find;
      ghost var s0 := state;
      var s := FindFileInDir(currentDir, src);
      if s.None? {
        return NotFound;
      }
      var d := FindFileInDir(currentDir, dest);
      if d.Some? {
        return AlreadyExists;
      }
      var size := files[s.value].size;
      assert EntryFits(state.files, state.usage, s.value);
      status := CreateFile(dest, files[s.value].ftype);
      if status != Success {
        return status;
      }
      AfterCreateBoth(s0, src, dest, s0.files[s.value].ftype);
      status := MoveBytes(src, dest, size, s0);
    }

    /** fs_move_file once the destination has been created: copy the bytes, then delete the source, or
        on a failed read delete the destination again. */
    method MoveBytes(src: string, dest: string, size: nat, ghost s0: Fs) returns (status: Status)
      requires Valid() && Inv(s0) && Moving(s0, state, src, dest) && MoveFits(s0, src, dest)
      requires size == s0.files[FindHere(s0, src).value].size <= MAX_FILE_SIZE
      modifies this, files, dataStorage
      ensures Valid()
      ensures (state, status) == Move(s0, src, dest)
    {
      hide Inv, Moving, Holds, Find;
      ghost var s1 := state;
      MoveReads(s0, s1, src, dest);
      var buffer := new char[MAX_FILE_SIZE];
      var n := ReadFile(src, buffer, size);
      if n.None? || n.value != size {
        MoveBack(s0, s1, src, dest);
        status := DeleteFile(dest);
        return PermissionDenied;
      }
      assert buffer[..size] == Read(s1, src, size).value;
      status := WriteFile(dest, buffer[..size]);
      MoveForward(s0, s1, state, src, dest);
      status := DeleteFile(src);
    }

    method TouchFile(name: string) returns (status: Status)
      requires Valid() && NameFits(state, name)
      modifies this, files, dataStorage
      ensures Valid()
      ensures (state, status) == Touch(old(state), name)
    {
      ghost var s0 := state;
      var r := FindFileInDir(currentDir, name);
      if r.Some? {
        return Success;
      }
      status := CreateFile(name, Regular);
      if status != Success {
        return NoSpace;
      }
      AfterCreate(s0, name, Regular);
      StoreNothing(state, |s0.files|);
      status := WriteFile(name, "");
    }
  }
}
