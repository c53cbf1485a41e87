/** Every key sequence keeps the editor's invariant, and an unmodified buffer is a saved one. */
module EditorRuns {
  import opened Options
  import opened CStrings
  import opened FsModel
  import FsTree
  import FsView
  import FsSteps
  import FsRefine
  import FsRuns
  import FsLimits
  import opened EditorModel
  import opened EditorLaws

  lemma {:induction false} LoadGood(text: string, i: nat, done: seq<string>, cur: string)
    requires i <= |text| && |done| <= MAX_LINES && GoodLine(cur)
    requires forall k | 0 <= k < |done| :: GoodLine(done[k])
    ensures var r := LoadFrom(text, i, done, cur);
            |r| <= MAX_LINES && forall k | 0 <= k < |r| :: GoodLine(r[k])
    decreases |text| - i
  {
    if i < |text| && |done| < MAX_LINES {
      if text[i] == NL || text[i] == NUL {
        LoadGood(text, i + 1, done + [cur], "");
      } else {
        LoadGood(text, i + 1, done, if |cur| < MAX_LINE_LENGTH - 1 then cur + [text[i]] else cur);
      }
    }
  }

  /** Whatever the file holds, a loaded buffer has good lines. */
  lemma LoadedGood(fs: Fs, name: string)
    requires ReadFits(fs, name)
    ensures var r := LoadLines(fs, name);
            |r| <= MAX_LINES && forall k | 0 <= k < |r| :: GoodLine(r[k])
  {
    var r := Read(fs, name, MAX_TEXT - 1);
    if r.Some? { LoadGood(r.value, 0, [], ""); }
  }

  /** e' is a good buffer, and unmodified only with the lines of an unmodified e. */
  ghost predicate Follows(e: Ed, e': Ed)
  {
    EditorModel.Inv(e') && (!e'.modified ==> !e.modified && e'.lines == e.lines)
  }

  lemma FollowsInsert(e: Ed, e': Ed, insert: bool)
    requires Follows(e, e')
    ensures Follows(e, e'.(insert := insert))
  {
  }

  lemma FollowsTrans(e: Ed, e1: Ed, e2: Ed)
    requires Follows(e, e1) && Follows(e1, e2)
    ensures Follows(e, e2)
  {
  }

  lemma DeleteFollows(e: Ed)
    requires EditorModel.Inv(e)
    ensures Follows(e, DeleteChar(e)) && Follows(e, DeleteUnder(e))
  {
    assert GoodLine(e.lines[e.row]);
  }

  lemma InsertFollows(e: Ed, c: char)
    requires EditorModel.Inv(e) && c != NL && c != NUL
    ensures Follows(e, InsertChar(e, c))
  {
    assert GoodLine(e.lines[e.row]);
  }

  lemma NewLineFollows(e: Ed)
    requires EditorModel.Inv(e)
    ensures Follows(e, NewLine(e))
  {
    var line, e' := e.lines[e.row], NewLine(e);
    assert GoodLine(line);
    if |e.lines| < MAX_LINES - 1 {
      forall i | 0 <= i < |e'.lines| ensures GoodLine(e'.lines[i]) {
        if i > e.row + 1 { assert e'.lines[i] == e.lines[i - 1]; }
      }
    }
  }

  lemma InsertModeFollows(e: Ed, c: char)
    requires EditorModel.Inv(e)
    ensures Follows(e, InsertMode(e, c))
  {
    NewLineFollows(e);
    DeleteFollows(e);
    if Printable(c) { InsertFollows(e, c); }
  }

  lemma MoveFollows(e: Ed)
    requires EditorModel.Inv(e)
    ensures Follows(e, e) && Follows(e, Up(e)) && Follows(e, Down(e)) && Follows(e, Left(e))
    ensures Follows(e, Right(e)) && Follows(e, ToLineEnd(e))
  {
    hide Up, Down;
    LineMoveFollows(e);
  }

  lemma LineMoveFollows(e: Ed)
    requires EditorModel.Inv(e)
    ensures Follows(e, Up(e)) && Follows(e, Down(e))
  {
  }

  lemma PutKeeps(s: Session, e: Ed)
    requires SessionInv(s) && Follows(s.ed, e)
    ensures SessionInv(s.(ed := e))
  {
  }

  /** Storing a text for a file that exists. */
  lemma StoreUsable(fs: Fs, i: nat, name: string, bytes: seq<char>)
    requires FsView.Inv(fs) && FsSteps.Storable(fs, i, bytes) && FindHere(fs, name) == Some(i)
    requires |name| < MAX_PATH && fs.files[i].offset + MAX_FILE_SIZE <= |fs.data|
    ensures var fs' := Store(fs, i, bytes);
            FsView.Inv(fs') && Usable(fs', name) && Read(fs', name, MAX_FILE_SIZE) == Some(bytes)
  {
    var fs' := Store(fs, i, bytes);
    FsSteps.StoreInv(fs, i, bytes);
    FsTree.FindIs(fs'.files, i, fs.cwd, name);
    FsSteps.OverlayWithin(fs.data, fs.files[i].offset, bytes);
  }

  /** A save that succeeds leaves the text of the buffer in the file; one that fails changes nothing.
      Either way the next save can be made. */
  lemma WriteUsable(fs: Fs, name: string, bytes: seq<char>)
    requires FsView.Inv(fs) && Usable(fs, name) && |bytes| <= MAX_FILE_SIZE
    ensures var (fs', status) := Write(fs, name, bytes);
            && FsView.Inv(fs') && Usable(fs', name) && (status != Success ==> fs' == fs)
            && (status == Success ==> Read(fs', name, MAX_FILE_SIZE) == Some(bytes))
  {
    match FindHere(fs, name)
    case Some(i) =>
      if fs.files[i].ftype == Regular { StoreUsable(fs, i, name, bytes); }
    case None =>
      if |fs.files| < MAX_FILES {
        FsRuns.CreateInv(fs, name, Regular);
        FsRuns.AfterCreate(fs, name, Regular);
        StoreUsable(Create(fs, name, Regular).0, |fs.files|, name, bytes);
      }
  }

  /** When no more than 255 files have been created, any name that fits can be edited. */
  lemma BoundedUsable(fs: Fs, name: string, c: nat)
    requires FsView.Inv(fs) && FsRuns.Bounded(fs, c) && c < MAX_FILES
    requires |name| < MAX_PATH && NameFits(fs, name)
    ensures Usable(fs, name)
  {
    FsRuns.ReadInBounds(fs, name);
    if FindHere(fs, name).Some? {
      assert FsRuns.Below(fs.files, MAX_FILE_SIZE * c, FindHere(fs, name).value);
    }
  }

  /** A successful save leaves the text of the buffer in the file, where it reads back as such; a
      failed one changes nothing. */
  lemma SaveStores(s: Session)
    requires SessionInv(s)
    ensures var (s', ok) := Save(s);
            && SessionInv(s') && s'.ed.lines == s.ed.lines
            && (!ok ==> s' == s)
            && (ok ==> !s'.ed.modified && s'.clean == s.ed.lines
                       && Read(s'.disk, s.name, MAX_TEXT - 1) == Some(SaveText(s.ed.lines)))
  {
    hide Names, Write;
    SaveBound(s.ed.lines, 0, "");
    WriteUsable(s.disk, s.name, SaveText(s.ed.lines));
  }

  /** A save that does not enlarge a file in the middle of the data puts the text at the file's path
      and changes nothing else that can be seen of the filesystem. */
  lemma SaveKeepsOthers(s: Session)
    requires SessionInv(s) && FsView.Exclusive(s.disk) && Save(s).1
    requires FsRefine.WriteQuiet(s.disk, s.name, SaveText(s.ed.lines))
    ensures var s' := Save(s).0;
            && SessionInv(s') && FsView.Exclusive(s'.disk)
            && FsView.Abs(s'.disk) == FsView.VPut(FsView.Abs(s.disk), s.name, FsView.File(SaveText(s.ed.lines)))
  {
    hide Rebuilt;
    SaveBound(s.ed.lines, 0, "");
    SaveStores(s);
    FsRefine.WriteRefines(s.disk, s.name, SaveText(s.ed.lines));
  }

  /** Saving over an existing file stores the text at the file's place.  No text of that length can
      damage another file if and only if the text's place meets no byte of another file. */
  lemma SaveHarmless(s: Session, i: nat)
    requires SessionInv(s) && FindHere(s.disk, s.name) == Some(i) && s.disk.files[i].ftype == Regular
    ensures var text := SaveText(s.ed.lines);
            && |text| <= MAX_FILE_SIZE && s.disk.files[i].offset + |text| <= |s.disk.data|
            && Save(s).1 && Save(s).0.disk == Store(s.disk, i, text)
            && (FsLimits.HarmlessStore(s.disk, i, |text|) <==> FsSteps.Clear(s.disk.files, i, |text|))
  {
    SaveBound(s.ed.lines, 0, "");
    FsLimits.StoreExact(s.disk, i, |SaveText(s.ed.lines)|);
  }

  /** A command leaves the session alone or saves it. */
  lemma CommandSaves(s: Session, input: string)
    requires Usable(s.disk, s.name)
    ensures match Command(s, input)
            case Waiting => true
            case Going(s', rest) => (s' == s || s' == Save(s).0) && |rest| < |input|
            case Closed(s') => s' == s || s' == Save(s).0
  {
  }

  lemma CommandKeeps(s: Session, input: string)
    requires SessionInv(s)
    ensures match Command(s, input)
            case Waiting => true
            case Going(s', rest) => SessionInv(s') && |rest| < |input|
            case Closed(s') => SessionInv(s')
  {
    CommandSaves(s, input);
    SaveStores(s);
  }

  lemma OpenLineFollows(e: Ed)
    requires EditorModel.Inv(e)
    ensures Follows(e, NewLine(ToLineEnd(e)))
  {
    MoveFollows(e);
    NewLineFollows(ToLineEnd(e));
    FollowsTrans(e, ToLineEnd(e), NewLine(ToLineEnd(e)));
  }

  lemma EditKeyFollows(e: Ed, c: char)
    requires EditorModel.Inv(e) && EditKey(e, c).Some?
    ensures Follows(e, EditKey(e, c).value)
  {
    MoveFollows(e);
    if c == 'o' {
      OpenLineFollows(e);
      FollowsInsert(e, NewLine(ToLineEnd(e)), true);
    } else if c == 'x' {
      DeleteFollows(e);
    } else if c == 'i' {
      FollowsInsert(e, e, true);
    } else if c == 'a' || c == 'A' {
      FollowsInsert(e, ToLineEnd(e), true);
    }
  }

  lemma CommandModeKeeps(s: Session, c: char, rest: string)
    requires SessionInv(s)
    ensures match CommandMode(s, c, rest)
            case Waiting => true
            case Going(s', rest') => SessionInv(s') && |rest'| <= |rest|
            case Closed(s') => SessionInv(s')
  {
    if EditKey(s.ed, c).Some? {
      EditKeyFollows(s.ed, c);
      PutKeeps(s, EditKey(s.ed, c).value);
    } else if c == ':' {
      CommandKeeps(s, rest);
    }
  }

  lemma EscapeFollows(s: Session, input: string)
    requires EditorModel.Inv(s.ed)
    ensures match Escape(s, input)
            case Waiting => true
            case Going(s', rest) => s' == s.(ed := s'.ed) && Follows(s.ed, s'.ed) && |rest| < |input|
            case Closed(s') => false
  {
    hide Follows, Inv;
    MoveFollows(s.ed);
    FollowsInsert(s.ed, s.ed, false);
  }

  lemma EscapeKeeps(s: Session, input: string)
    requires SessionInv(s)
    ensures match Escape(s, input)
            case Waiting => true
            case Going(s', rest) => SessionInv(s') && |rest| < |input|
            case Closed(s') => false
  {
    EscapeFollows(s, input);
    var k := Escape(s, input);
    if k.Going? { PutKeeps(s, k.s.ed); }
  }

  /** One round of the key loop keeps the invariant and reads at least one character. */
  lemma KeyKeeps(s: Session, input: string)
    requires SessionInv(s) && input != ""
    ensures match Key(s, input)
            case Waiting => true
            case Going(s', rest) => SessionInv(s') && |rest| < |input|
            case Closed(s') => SessionInv(s')
  {
    hide Find, GoodLine, Rebuilt, Usable, CommandMode;
    EscapeKeeps(s, input[1..]);
    InsertModeFollows(s.ed, input[0]);
    PutKeeps(s, InsertMode(s.ed, input[0]));
    CommandModeKeeps(s, input[0], input[1..]);
  }

  lemma StartKeeps(fs: Fs, name: string, choice: char)
    requires FsView.Inv(fs) && Usable(fs, name)
    ensures SessionInv(Start(fs, name, choice))
  {
    hide NewLine, Join, Rebuilt, LoadLines;
    LoadedGood(fs, name);
    var lines := LoadLines(fs, name);
    var last := |lines| - 1;
    NewLineFollows(Ed(lines, last, |lines[last]|, 0, false, false));
  }

  /** The session after the keys of the input, or when the editor is left. */
  function Run(s: Session, input: string): Session
    requires Ready(s)
    decreases |input|
  {
    if input == "" then s
    else match Key(s, input)
      case Waiting => s
      case Closed(s') => s'
      case Going(s', rest) =>
        if |rest| < |input| && Ready(s') then Run(s', rest) else s'
  }

  /** Every key sequence: the cursor stays in the text, at most 1000 lines of at most 255 characters,
      the view starts at or above the cursor, and an unmodified buffer is the loaded or saved one. */
  lemma {:induction false} RunKeeps(s: Session, input: string)
    requires SessionInv(s)
    ensures SessionInv(Run(s, input))
    decreases |input|
  {
    hide Key;
    if input != "" {
      KeyKeeps(s, input);
      var k := Key(s, input);
      if k.Going? { RunKeeps(k.s, k.rest); }
    }
  }

  lemma EveryRun(fs: Fs, name: string, choice: char, input: string)
    requires FsView.Inv(fs) && Usable(fs, name)
    ensures Ready(Start(fs, name, choice)) && SessionInv(Run(Start(fs, name, choice), input))
  {
    StartKeeps(fs, name, choice);
    RunKeeps(Start(fs, name, choice), input);
  }

  /** ":q" leaves the editor only from a buffer that is the one last loaded or saved. */
  lemma QuitDropsNothing(s: Session, rest: string)
    requires SessionInv(s) && !s.ed.insert
    ensures var k := Key(s, ":q\n" + rest);
            && (k.Closed? <==> !s.ed.modified)
            && (k.Closed? ==> k.s == s && s.ed.lines == s.clean)
  {
    hide Rebuilt;
    var input := ":q\n" + rest;
    assert input[1..][0] == 'q' && input[1..][1] == NL;
    assert CommandLength(input[1..], 1) == 1;
    assert input[1..][..1] == "q" && UpToNul("q") == "q" + UpToNul("");
    assert "q" != "w" by { assert "q"[0] != "w"[0]; }
  }

  /** What ":w" leaves in the file is what the next session loads: the lines kept before the last, which
      for a text that fits are all lines but the last (EditorLaws.SaveLoad). */
  lemma SaveThenReopen(s: Session)
    requires SessionInv(s) && Save(s).1
    ensures var kept, fs' := KeptFrom(s.ed.lines, 0, 0), Save(s).0.disk;
            ReadFits(fs', s.name) && LoadLines(fs', s.name) == if kept == [] then [""] else kept
  {
    SaveStores(s);
    SaveLoadAny(s.ed.lines);
  }
}
