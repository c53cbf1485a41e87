/** What every key does, said of cursor, lines and flat text, and what every command does to the file. */
module EditorKeys {
  import opened Options
  import opened CStrings
  import opened FsModel
  import FsView
  import opened EditorModel
  import opened EditorLaws
  import opened EditorRuns

  // ----- moving -----

  /** The cursor is on the given row, at its old column or the end of a shorter line, and the view of 20
      lines has moved just far enough to follow it. */
  ghost predicate OnRow(e: Ed, e': Ed, row: nat)
  {
    && e' == e.(row := row, col := e'.col, view := e'.view) && row < |e.lines|
    && e'.col == (if e.col <= |e.lines[row]| then e.col else |e.lines[row]|)
    && e'.view == (if row < e.view then row else if row > e.row && row >= e.view + 20 then row - 19 else e.view)
  }

  /** The cursor has gone down rows or right columns, unless the text ends there; nothing else is different. */
  ghost predicate Moved(e: Ed, e': Ed, down: int, right: int)
    requires e.row < |e.lines|
  {
    if down != 0 && 0 <= e.row + down < |e.lines| then OnRow(e, e', e.row + down)
    else if down == 0 && 0 <= e.col + right <= |e.lines[e.row]| then e' == e.(col := e.col + right)
    else e' == e
  }

  lemma Moves(e: Ed)
    requires EditorModel.Inv(e)
    ensures Moved(e, Up(e), -1, 0) && Moved(e, Down(e), 1, 0)
    ensures Moved(e, Right(e), 0, 1) && Moved(e, Left(e), 0, -1)
  {
    hide GoodLine;
  }

  /** The arrows work in both modes; any other sequence only leaves insert mode. */
  lemma ArrowKeys(s: Session, c: char, rest: string)
    requires SessionInv(s)
    ensures var k, e := Key(s, [ESC, '[', c] + rest), s.ed;
            && k.Going? && k.rest == rest && k.s == s.(ed := k.s.ed)
            && (c == 'A' ==> Moved(e, k.s.ed, -1, 0))
            && (c == 'B' ==> Moved(e, k.s.ed, 1, 0))
            && (c == 'C' ==> Moved(e, k.s.ed, 0, 1))
            && (c == 'D' ==> Moved(e, k.s.ed, 0, -1))
            && (c != 'A' && c != 'B' && c != 'C' && c != 'D' ==> k.s.ed == e.(insert := false))
  {
    hide Up, Down, Left, Right, Moved;
    var input := [ESC, '[', c] + rest;
    assert input[1..][0] == '[' && input[1..][1] == c && input[1..][2..] == rest;
    Moves(s.ed);
  }

  lemma EscapeKeys(s: Session, c: char, rest: string)
    requires SessionInv(s) && c != '['
    ensures Key(s, [ESC, c] + rest) == Going(s.(ed := s.ed.(insert := false)), rest)
    ensures Key(s, [ESC]) == Waiting && Key(s, [ESC, '[']) == Waiting
  {
    var input := [ESC, c] + rest;
    assert input[1..][0] == c && input[1..][1..] == rest;
    assert [ESC][1..] == "" && [ESC, '['][1..] == "[";
  }

  // ----- editing -----

  /** The flat text between the positions from and to has become the given text, the cursor is behind
      that, and the buffer counts as modified. */
  ghost predicate Edits(e: Ed, e': Ed, from: nat, to: nat, text: string)
    requires e.lines != [] && e'.lines != [] && e'.row < |e'.lines|
  {
    var f := Flat(e.lines);
    && from <= to <= |f| && Flat(e'.lines) == f[..from] + text + f[to..] && FlatPos(e') == from + |text|
    && e'.view == e.view && e'.insert == e.insert && e'.modified
  }

  /** A character goes in at the cursor unless the line has 255 already. */
  lemma InsertEdits(e: Ed, c: char)
    requires EditorModel.Inv(e)
    ensures var e', p := InsertChar(e, c), FlatPos(e);
            if |e.lines[e.row]| < 255 then Edits(e, e', p, p, [c]) else e' == e
  {
    hide Flat, FlatPos;
    if |e.lines[e.row]| < 255 { InsertIsFlat(e, c); }
  }

  /** A newline goes in at the cursor unless there are 999 lines already. */
  lemma NewLineEdits(e: Ed)
    requires EditorModel.Inv(e)
    ensures var e', p := NewLine(e), FlatPos(e);
            if |e.lines| < 999 then Edits(e, e', p, p, "\n") else e' == e
  {
    hide Flat, FlatPos;
    if |e.lines| < 999 { NewLineIsFlat(e); }
  }

  /** The character before the cursor goes unless the cursor is at column 0; lines are never joined. */
  lemma DeleteEdits(e: Ed)
    requires EditorModel.Inv(e)
    ensures var e', p := DeleteChar(e), FlatPos(e);
            if e.col > 0 then p > 0 && Edits(e, e', p - 1, p, "") else e' == e
  {
    hide Flat, FlatPos;
    if e.col > 0 {
      DeleteIsFlat(e);
      var f, p := Flat(e.lines), FlatPos(e);
      assert f[..p - 1] + "" + f[p..] == f[..p - 1] + f[p..];
    }
  }

  lemma DeleteUnderEdits(e: Ed)
    requires EditorModel.Inv(e)
    ensures var e', p := DeleteUnder(e), FlatPos(e);
            if e.col < |e.lines[e.row]| then Edits(e, e', p, p + 1, "") else e' == e
  {
    hide Flat, FlatPos;
    if e.col < |e.lines[e.row]| {
      DeleteUnderIsFlat(e);
      var f, p := Flat(e.lines), FlatPos(e);
      assert f[..p] + "" + f[p + 1..] == f[..p] + f[p + 1..];
    }
  }

  lemma OneKey(c: char, rest: string)
    ensures ([c] + rest)[0] == c && ([c] + rest)[1..] == rest
  {
  }

  /** Every key of insert mode but ESC. */
  lemma InsertKeys(s: Session, c: char, rest: string)
    requires SessionInv(s) && s.ed.insert && c != ESC
    ensures var k, e, p := Key(s, [c] + rest), s.ed, FlatPos(s.ed);
            && k.Going? && k.rest == rest && k.s == s.(ed := k.s.ed) && EditorModel.Inv(k.s.ed)
            && var e' := k.s.ed;
               if c == '\n' || c == '\r' then
                 if |e.lines| < 999 then Edits(e, e', p, p, "\n") else e' == e
               else if c as int == 8 || c as int == 127 then
                 if e.col > 0 then p > 0 && Edits(e, e', p - 1, p, "") else e' == e
               else if 32 <= c as int <= 126 then
                 if |e.lines[e.row]| < 255 then Edits(e, e', p, p, [c]) else e' == e
               else e' == e
  {
    hide Edits, NewLine, DeleteChar, InsertChar, FlatPos, Usable, Follows;
    OneKey(c, rest);
    InsertModeGood(s.ed, c);
    NewLineEdits(s.ed);
    DeleteEdits(s.ed);
    InsertEdits(s.ed, c);
  }

  lemma InsertModeGood(e: Ed, c: char)
    requires EditorModel.Inv(e)
    ensures EditorModel.Inv(InsertMode(e, c))
  {
    hide InsertMode;
    InsertModeFollows(e, c);
  }

  /** Opening a line: a newline behind the cursor line, and insert mode. */
  lemma OpenLineEdits(e: Ed)
    requires EditorModel.Inv(e)
    ensures var end := e.(col := |e.lines[e.row]|);
            var e', p := NewLine(ToLineEnd(e)), FlatPos(end);
            && EditorModel.Inv(e') && e'.insert == e.insert
            && if |e.lines| < 999 then Edits(e, e', p, p, "\n") else e' == end
  {
    hide Flat, FlatPos, Follows;
    EndIsGood(e);
    NewLineEdits(ToLineEnd(e));
    NewLineGood(ToLineEnd(e));
  }

  lemma EndIsGood(e: Ed)
    requires EditorModel.Inv(e)
    ensures EditorModel.Inv(ToLineEnd(e))
  {
  }

  lemma NewLineGood(e: Ed)
    requires EditorModel.Inv(e)
    ensures EditorModel.Inv(NewLine(e))
  {
    hide NewLine;
    NewLineFollows(e);
  }

  /** What a key of command mode says when it has nothing to do: one more key is read. */
  function Pressed(rest: string): string { if rest == "" then "" else rest[1..] }

  /** The keys of command mode but ESC and ":". */
  lemma CommandKeys(s: Session, c: char, rest: string)
    requires SessionInv(s) && !s.ed.insert && c != ESC && c != ':'
    ensures var k, e, p := Key(s, [c] + rest), s.ed, FlatPos(s.ed);
            var end := e.(col := |e.lines[e.row]|);
            && k.Going? && k.s == s.(ed := k.s.ed) && EditorModel.Inv(k.s.ed)
            && k.rest == (if c in "iaAojkhlx" then rest else Pressed(rest))
            && var e' := k.s.ed;
               match c
               case 'i' => e' == e.(insert := true)
               case 'a' => e' == end.(insert := true)
               case 'A' => e' == end.(insert := true)
               case 'o' =>
                 e'.insert && if |e.lines| < 999 then Edits(e, e'.(insert := false), FlatPos(end), FlatPos(end), "\n")
                              else e' == end.(insert := true)
               case 'j' => Moved(e, e', 1, 0)
               case 'k' => Moved(e, e', -1, 0)
               case 'h' => Moved(e, e', 0, -1)
               case 'l' => Moved(e, e', 0, 1)
               case 'x' => if e.col < |e.lines[e.row]| then Edits(e, e', p, p + 1, "") else e' == e
               case _ => e' == e
  {
    hide Edits, NewLine, DeleteUnder, Up, Down, Left, Right, Moved, FlatPos, Usable, Follows, Rebuilt;
    OneKey(c, rest);
    Moves(s.ed);
    OpenLineEdits(s.ed);
    DeleteUnderEdits(s.ed);
    if EditKey(s.ed, c).Some? { EditKeyGood(s.ed, c); }
  }

  lemma EditKeyGood(e: Ed, c: char)
    requires EditorModel.Inv(e) && EditKey(e, c).Some?
    ensures EditorModel.Inv(EditKey(e, c).value)
  {
    hide EditKey;
    EditKeyFollows(e, c);
  }

  // ----- commands -----

  /** cmd is what is typed up to its end: no Enter in it and at most 15 characters. */
  predicate Typed(cmd: string, end: char)
  {
    && '\n' !in cmd && '\r' !in cmd && |cmd| <= 15
    && (end == '\n' || end == '\r' || |cmd| == 15)
  }

  /** text is the C string at the front of cmd. */
  predicate IsText(text: string, cmd: string)
  {
    text <= cmd && NUL !in text && (|text| < |cmd| ==> cmd[|text|] == NUL)
  }

  lemma {:induction false} TextIs(text: string, cmd: string)
    requires IsText(text, cmd)
    ensures UpToNul(cmd) == text
    decreases |text|
  {
    if text != "" {
      TextIs(text[1..], cmd[1..]);
      assert text == [cmd[0]] + text[1..];
    }
  }

  lemma {:induction false} LengthIs(cmd: string, end: char, rest: string, n: nat)
    requires Typed(cmd, end) && n <= |cmd|
    ensures CommandLength(cmd + [end] + rest, n) == |cmd|
    decreases |cmd| - n
  {
    var input := cmd + [end] + rest;
    if n < |cmd| {
      assert input[n] == cmd[n];
      LengthIs(cmd, end, rest, n + 1);
    } else {
      assert input[n] == end;
    }
  }

  lemma CommandIs(s: Session, cmd: string, end: char, rest: string, text: string)
    requires SessionInv(s) && !s.ed.insert && Typed(cmd, end) && IsText(text, cmd)
    ensures Key(s, ":" + (cmd + [end] + rest)) == Execute(s, text, rest)
  {
    hide Execute, Usable, CommandLength, SessionInv;
    var input := cmd + [end] + rest;
    assert (":" + input)[0] == ':' && (":" + input)[1..] == input;
    LengthIs(cmd, end, rest, 0);
    assert input[..|cmd|] == cmd && input[|cmd| + 1..] == rest;
    TextIs(text, cmd);
  }

  /** A saved session: the text is in the file and reads back, and the buffer counts as unmodified. */
  ghost predicate Saved(s: Session, s': Session)
    requires SessionInv(s)
  {
    var text := SaveText(s.ed.lines);
    && SessionInv(s') && WriteFits(s.disk, s.name, text) && s'.disk == Write(s.disk, s.name, text).0
    && s' == Session(s.ed.(modified := false), s.name, s'.disk, s.ed.lines)
    && Read(s'.disk, s.name, 4095) == Some(text)
  }

  lemma SavedIs(s: Session)
    requires SessionInv(s) && Save(s).1
    ensures Saved(s, Save(s).0)
  {
    hide Write, Read, EditorModel.Inv, FsView.Inv, SaveText;
    SaveStores(s);
  }

  /** All commands, by what they do to file and buffer.  Only w and wq write, only q, q! and wq leave, wq
      only after a write that succeeded, and q only from an unmodified buffer. */
  lemma Commands(s: Session, cmd: string, end: char, rest: string, text: string)
    requires SessionInv(s) && !s.ed.insert && Typed(cmd, end) && IsText(text, cmd)
    ensures WriteFits(s.disk, s.name, SaveText(s.ed.lines))
    ensures var k := Key(s, ":" + (cmd + [end] + rest));
            var written := Write(s.disk, s.name, SaveText(s.ed.lines)).1 == Success;
            match text
            case "w" =>
              if written then k.Going? && k.rest == Pressed(rest) && Saved(s, k.s) else k == Going(s, rest)
            case "wq" => if written then k.Closed? && Saved(s, k.s) else k == Going(s, Pressed(rest))
            case "q" => if s.ed.modified then k == Going(s, Pressed(rest)) else k == Closed(s)
            case "q!" => k == Closed(s)
            case _ => k == Going(s, Pressed(rest))
  {
    hide Key, Saved, Write, EditorModel.Inv, FsView.Inv;
    SaveWrites(s);
    CommandIs(s, cmd, end, rest, text);
    if Save(s).1 { SavedIs(s); }
  }

  lemma SaveWrites(s: Session)
    requires SessionInv(s)
    ensures WriteFits(s.disk, s.name, SaveText(s.ed.lines))
    ensures Save(s).1 <==> Write(s.disk, s.name, SaveText(s.ed.lines)).1 == Success
    ensures !Save(s).1 ==> Save(s).0 == s
  {
    SaveBound(s.ed.lines, 0, "");
  }

  /** A command line that the input does not finish changes nothing. */
  lemma {:induction false} CommandWaits(s: Session, cmd: string)
    requires SessionInv(s) && !s.ed.insert && '\n' !in cmd && '\r' !in cmd && |cmd| <= 15
    ensures Key(s, ":" + cmd) == Waiting
  {
    assert (":" + cmd)[0] == ':' && (":" + cmd)[1..] == cmd;
  }

  // ----- opening -----

  /** What the editor starts with.  Choice 3 drops the content and says so in the modified flag; choice 2
      starts in insert mode with the cursor at the end of the text, on a line of its own if there is
      room for one; every other choice shows the first 4095 bytes of the file. */
  lemma Starts(fs: Fs, name: string, choice: char)
    requires FsView.Inv(fs) && Usable(fs, name)
    ensures var s, r, blank := Start(fs, name, choice), Read(fs, name, 4095), Ed([""], 0, 0, 0, false, false);
            && s == Session(s.ed, name, fs, s.clean)
            && (r == None ==> s.ed == blank && s.clean == [""])
            && (r.Some? ==>
                  var kept := AtMost(ClippedAll(Pieces(r.value, 0, 0)), 1000);
                  var lines := if kept == [] then [""] else kept;
                  && s.clean == lines
                  && (choice == '3' ==> s.ed == blank.(modified := true))
                  && (choice != '2' && choice != '3' ==> s.ed == blank.(lines := lines))
                  && (choice == '2' ==>
                        var added := lines[|lines| - 1] != "" && |lines| < 999;
                        && EditorModel.Inv(s.ed) && s.ed.insert && s.ed.view == 0 && s.ed.modified == added
                        && FlatPos(s.ed) == |Flat(s.ed.lines)|
                        && Flat(s.ed.lines) == Flat(lines) + if added then "\n" else ""))
  {
    hide Pieces, AtMost, ClippedAll, Flat, LoadFrom, NewLine, ReadFits, Inv, Names;
    StartKeeps(fs, name, choice);
    LoadedGood(fs, name);
    var r := Read(fs, name, 4095);
    if r.Some? {
      LoadExact(r.value);
      Appends(LoadLines(fs, name));
    }
  }

  lemma LastPos(lines: seq<string>)
    requires lines != []
    ensures FlatPos(Ed(lines, |lines| - 1, |lines[|lines| - 1]|, 0, false, false)) == |Flat(lines)|
  {
  }

  /** Going to the end of the text, and behind a newline if the last line is not empty. */
  lemma Appends(lines: seq<string>)
    requires 0 < |lines| <= MAX_LINES && forall i | 0 <= i < |lines| :: GoodLine(lines[i])
    ensures var last := |lines| - 1;
            var e := Ed(lines, last, |lines[last]|, 0, false, false);
            && EditorModel.Inv(e) && FlatPos(e) == |Flat(lines)|
            && var e', added := NewLine(e), |lines| < 999;
               && e'.lines != [] && e'.row < |e'.lines| && (!added ==> e' == e)
               && (added ==> FlatPos(e') == |Flat(e'.lines)| && Flat(e'.lines) == Flat(lines) + "\n"
                             && e'.view == 0 && e'.modified)
  {
    var last := |lines| - 1;
    var e := Ed(lines, last, |lines[last]|, 0, false, false);
    LastPos(lines);
    NewLineEdits(e);
    if |lines| < 999 {
      var f := Flat(lines);
      assert f[..|f|] + "\n" + f[|f|..] == f + "\n";
    }
  }

  // ----- the view -----

  /** The cursor line is one of the 20 that are displayed. */
  predicate Visible(e: Ed) { e.view <= e.row < e.view + 20 }

  /** From e to e' the cursor has left the view if and only if a line was added below the last one in it. */
  ghost predicate Shows(e: Ed, e': Ed)
  {
    Visible(e') <==> |e'.lines| == |e.lines| || e.row < e.view + 19
  }

  lemma MovesShow(e: Ed)
    requires EditorModel.Inv(e) && Visible(e)
    ensures Shows(e, Up(e)) && Shows(e, Down(e)) && Shows(e, Left(e)) && Shows(e, Right(e))
  {
  }

  lemma InsertShows(e: Ed, c: char)
    requires EditorModel.Inv(e) && Visible(e)
    ensures Shows(e, InsertMode(e, c))
  {
  }

  lemma EditKeyShows(e: Ed, c: char)
    requires EditorModel.Inv(e) && Visible(e) && EditKey(e, c).Some?
    ensures Shows(e, EditKey(e, c).value)
  {
    hide Up, Down, Left, Right;
    MovesShow(e);
  }

  lemma EscapeShows(s: Session, input: string)
    requires EditorModel.Inv(s.ed) && Visible(s.ed) && !Escape(s, input).Waiting?
    ensures Shows(s.ed, Escape(s, input).s.ed)
  {
    hide Up, Down, Left, Right;
    MovesShow(s.ed);
  }

  /** A visible cursor stays visible under every key but one that adds a line below the last displayed
      one: Enter and o do not scroll. */
  lemma KeyShows(s: Session, input: string)
    requires SessionInv(s) && input != "" && Visible(s.ed) && !Key(s, input).Waiting?
    ensures Shows(s.ed, Key(s, input).s.ed)
  {
    hide Usable, Command, Escape, InsertMode, EditKey;
    var c, rest := input[0], input[1..];
    if c == ESC {
      EscapeShows(s, rest);
    } else if s.ed.insert {
      InsertShows(s.ed, c);
    } else if EditKey(s.ed, c).Some? {
      EditKeyShows(s.ed, c);
    } else if c == ':' {
      CommandSaves(s, rest);
      SaveShows(s);
    }
  }

  lemma SaveShows(s: Session)
    requires SessionInv(s)
    ensures Save(s).0.ed == s.ed || Save(s).0.ed == s.ed.(modified := false)
  {
  }

  /** No key of the input adds a line below the last displayed one. */
  ghost predicate AddsInView(s: Session, input: string)
    requires SessionInv(s)
    decreases |input|
  {
    input == "" ||
      match Key(s, input)
      case Going(s', rest) =>
        KeyKeeps(s, input);
        (|s'.ed.lines| == |s.ed.lines| || s.ed.row < s.ed.view + 19) && AddsInView(s', rest)
      case Closed(s') => true
      case Waiting => true
  }

  /** The cursor is displayed before and after every key of the input. */
  ghost predicate StaysVisible(s: Session, input: string)
    requires SessionInv(s)
    decreases |input|
  {
    Visible(s.ed) && (input == "" ||
      match Key(s, input)
      case Going(s', rest) =>
        KeyKeeps(s, input);
        StaysVisible(s', rest)
      case Closed(s') => true
      case Waiting => true)
  }

  lemma {:induction false} RunShows(s: Session, input: string)
    requires SessionInv(s) && Visible(s.ed)
    ensures StaysVisible(s, input) <==> AddsInView(s, input)
    decreases |input|
  {
    hide Key, Visible;
    if input != "" && Key(s, input).Going? {
      var k := Key(s, input);
      KeyKeeps(s, input);
      KeyShows(s, input);
      if Visible(k.s.ed) {
        RunShows(k.s, k.rest);
      } else {
        HiddenEnds(k.s, k.rest);
      }
    }
  }

  lemma HiddenEnds(s: Session, input: string)
    requires SessionInv(s) && !Visible(s.ed)
    ensures !StaysVisible(s, input)
  {
  }

  /** A move down always brings the cursor into view again. */
  lemma DownShows(e: Ed)
    requires EditorModel.Inv(e) && e.row + 1 < |e.lines|
    ensures Visible(Down(e))
  {
  }
}
