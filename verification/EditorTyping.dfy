/** What typing does: in insert mode keys go into the flat text at the cursor.  And a session, key by
    key, that damages a file it never names. */
module EditorTyping {
  import opened Options
  import opened CStrings
  import opened FsModel
  import FsView
  import FsRuns
  import FsLimits
  import opened EditorModel
  import opened EditorLaws
  import opened EditorRuns

  predicate Typeable(text: string)
  {
    forall i | 0 <= i < |text| :: Printable(text[i]) || text[i] == NL
  }

  /** The buffer after the keys of the text in insert mode. */
  ghost function TypeAll(e: Ed, text: string): (r: Ed)
    requires EditorModel.Inv(e)
    ensures EditorModel.Inv(r)
    decreases |text|
  {
    if text == "" then e
    else
      InsertModeFollows(e, text[0]);
      TypeAll(InsertMode(e, text[0]), text[1..])
  }

  /** The key loop takes a typed text key by key. */
  lemma {:induction false} RunTypes(s: Session, text: string, rest: string)
    requires SessionInv(s) && s.ed.insert && Typeable(text)
    ensures var s' := s.(ed := TypeAll(s.ed, text));
            SessionInv(s') && s'.ed.insert && Run(s, text + rest) == Run(s', rest)
    decreases |text|
  {
    hide Rebuilt, Usable;
    if text == "" {
      assert text + rest == rest;
    } else {
      var e := InsertMode(s.ed, text[0]);
      InsertModeFollows(s.ed, text[0]);
      PutKeeps(s, e);
      assert (text + rest)[1..] == text[1..] + rest;
      RunTypes(s.(ed := e), text[1..], rest);
    }
  }

  /** Room for a text in a line of len characters, tail of them behind the cursor, and a buffer of count
      lines: every character finds its line below 255 characters, every newline the buffer below 999. */
  predicate Room(len: nat, tail: nat, count: nat, text: string)
    decreases |text|
  {
    text == "" ||
    if text[0] == NL then count < MAX_LINES - 1 && Room(tail, tail, count + 1, text[1..])
    else len < MAX_LINE_LENGTH - 1 && Room(len + 1, tail, count, text[1..])
  }

  ghost predicate HasRoom(e: Ed, text: string)
    requires EditorModel.Inv(e)
  {
    var len := |e.lines[e.row]|;
    Room(len, len - e.col, |e.lines|, text)
  }

  lemma InsertAgain(f: string, p: nat, c: char, rest: string)
    requires p <= |f|
    ensures var g := f[..p] + [c] + f[p..];
            p + 1 <= |g| && g[..p + 1] + rest + g[p + 1..] == f[..p] + ([c] + rest) + f[p..]
  {
    var g := f[..p] + [c] + f[p..];
    assert g[..p + 1] == f[..p] + [c] && g[p + 1..] == f[p..];
  }

  /** One key with room: it is in the text, behind it the cursor, and there is room for the others. */
  lemma TypeOne(e: Ed, c: char, rest: string)
    requires EditorModel.Inv(e) && (Printable(c) || c == NL) && HasRoom(e, [c] + rest)
    ensures var e', f, p := InsertMode(e, c), Flat(e.lines), FlatPos(e);
            && EditorModel.Inv(e') && HasRoom(e', rest) && p <= |f|
            && Flat(e'.lines) == f[..p] + [c] + f[p..] && FlatPos(e') == p + 1
  {
    hide Flat;
    assert ([c] + rest)[1..] == rest;
    InsertModeFollows(e, c);
    if c == NL { NewLineIsFlat(e); } else { InsertIsFlat(e, c); }
  }

  lemma {:induction false} TypedFlat(e: Ed, text: string)
    requires EditorModel.Inv(e) && Typeable(text) && HasRoom(e, text)
    ensures var e', f, p := TypeAll(e, text), Flat(e.lines), FlatPos(e);
            p <= |f| && Flat(e'.lines) == f[..p] + text + f[p..] && FlatPos(e') == p + |text|
    decreases |text|
  {
    var f, p := Flat(e.lines), FlatPos(e);
    if text == "" {
      FlatPosWithin(e);
      assert f[..p] + text + f[p..] == f;
    } else {
      var c, rest := text[0], text[1..];
      assert text == [c] + rest;
      TypeOne(e, c, rest);
      TypedFlat(InsertMode(e, c), rest);
      InsertAgain(f, p, c, rest);
    }
  }

  lemma FlatPosWithin(e: Ed)
    requires EditorModel.Inv(e)
    ensures FlatPos(e) <= |Flat(e.lines)|
  {
    FlatAround(e.lines, e.row);
  }

  /** One key makes the text longer by one, or by none if there is no room for it. */
  lemma TypeOneLength(e: Ed, c: char, rest: string)
    requires EditorModel.Inv(e) && (Printable(c) || c == NL)
    ensures var e', n := InsertMode(e, c), |Flat(e.lines)|;
            && EditorModel.Inv(e') && n <= |Flat(e'.lines)| <= n + 1
            && (|Flat(e'.lines)| == n + 1 ==> (HasRoom(e, [c] + rest) <==> HasRoom(e', rest)))
  {
    hide Flat, FlatPos;
    assert ([c] + rest)[1..] == rest;
    InsertModeFollows(e, c);
    var len := |e.lines[e.row]|;
    if c == NL && |e.lines| < MAX_LINES - 1 {
      NewLineIsFlat(e);
    } else if c != NL && len < MAX_LINE_LENGTH - 1 {
      InsertIsFlat(e, c);
    }
  }

  lemma {:induction false} TypedLength(e: Ed, text: string)
    requires EditorModel.Inv(e) && Typeable(text)
    ensures var n, m := |Flat(e.lines)|, |Flat(TypeAll(e, text).lines)|;
            m <= n + |text| && (m == n + |text| ==> HasRoom(e, text))
    decreases |text|
  {
    if text != "" {
      var c, rest := text[0], text[1..];
      assert text == [c] + rest;
      TypeOneLength(e, c, rest);
      TypedLength(InsertMode(e, c), rest);
    }
  }

  /** Typing a text inserts exactly that text at the cursor if and only if there is room for it. */
  lemma TypingExact(e: Ed, text: string)
    requires EditorModel.Inv(e) && Typeable(text)
    ensures var e', f, p := TypeAll(e, text), Flat(e.lines), FlatPos(e);
            p <= |f| && (Flat(e'.lines) == f[..p] + text + f[p..] <==> HasRoom(e, text))
  {
    FlatPosWithin(e);
    TypedLength(e, text);
    if HasRoom(e, text) { TypedFlat(e, text); }
  }

  // ----- a session that damages another file -----

  lemma OneLine(line: string)
    requires GoodLine(line)
    ensures SaveText([line]) == line
  {
    assert SaveFrom([line], 0, "") == SaveFrom([line], 1, "" + (line + ""));
    assert "" + (line + "") == line;
  }

  lemma RunGoing(s: Session, input: string, s': Session, rest: string)
    requires SessionInv(s) && input != "" && Key(s, input) == Going(s', rest)
    ensures SessionInv(s') && Run(s, input) == Run(s', rest)
  {
    KeyKeeps(s, input);
  }

  /** ESC and a space leave insert mode. */
  lemma RunEscape(s: Session, rest: string)
    requires SessionInv(s)
    ensures var s' := s.(ed := s.ed.(insert := false));
            SessionInv(s') && Run(s, [ESC, ' '] + rest) == Run(s', rest)
  {
    var input := [ESC, ' '] + rest;
    assert input[1..] == [' '] + rest && input[1..][1..] == rest;
    RunGoing(s, input, s.(ed := s.ed.(insert := false)), rest);
  }

  /** The command w, Enter and a key saves. */
  lemma RunSave(s: Session)
    requires SessionInv(s) && !s.ed.insert && Save(s).1
    ensures Run(s, ":w\n ") == Save(s).0
  {
    hide Save, InsertMode, Rebuilt;
    var input := ":w\n ";
    var tail := input[1..];
    assert tail == "w\n " && tail[0] == 'w' && tail[1] == NL;
    assert CommandLength(tail, 1) == 1 && CommandLength(tail, 0) == 1;
    assert tail[..1] == "w" && UpToNul("w") == "w" + UpToNul("");
    assert tail[2..] == " " && " "[1..] == "";
    RunGoing(s, input, Save(s).0, "");
  }

  lemma RunInsertKey(s: Session, rest: string)
    requires SessionInv(s) && !s.ed.insert
    ensures var s' := s.(ed := s.ed.(insert := true));
            SessionInv(s') && Run(s, "i" + rest) == Run(s', rest)
  {
    assert ("i" + rest)[1..] == rest;
    RunGoing(s, "i" + rest, s.(ed := s.ed.(insert := true)), rest);
  }

  lemma TypeTwo(e: Ed, x: char, z: char)
    requires e == Ed([""], 0, 0, 0, false, true) && Printable(x) && Printable(z)
    ensures EditorModel.Inv(e) && TypeAll(e, [x, z]).lines == [[x, z]]
  {
    assert ""[..0] + ([x] + ""[0..]) == [x];
    assert InsertChar(e, x) == Ed([[x]], 0, 1, 0, true, true);
    assert [x][..1] + ([z] + [x][1..]) == [x, z];
    assert InsertChar(InsertChar(e, x), z) == Ed([[x, z]], 0, 2, 0, true, true);
    TypeChar(e, x, [z]);
    TypeChar(InsertChar(e, x), z, "");
    assert [x] + [z] == [x, z] && [z] + "" == [z];
  }

  lemma TypeChar(e: Ed, c: char, rest: string)
    requires EditorModel.Inv(e) && Printable(c)
    ensures EditorModel.Inv(InsertChar(e, c)) && TypeAll(e, [c] + rest) == TypeAll(InsertChar(e, c), rest)
  {
    InsertFollows(e, c);
    assert ([c] + rest)[1..] == rest;
  }

  /** Starting on a file without a newline gives one empty line. */
  lemma StartEmpty(fs: Fs, a: string, x: char)
    requires ReadFits(fs, a) && Read(fs, a, MAX_TEXT - 1) == Some([x]) && Printable(x)
    ensures Start(fs, a, '1') == Session(Ed([""], 0, 0, 0, false, false), a, fs, [""])
  {
    assert LoadFrom([x], 0, [], "") == LoadFrom([x], 1, [], "" + [x]);
  }

  function ClobberKeys(x: char, z: char): string
  {
    "i" + ([x, z] + ([ESC, ' '] + ":w\n "))
  }

  lemma KeysSave(fs: Fs, a: string, x: char, z: char) returns (s: Session)
    requires FsView.Inv(fs) && Usable(fs, a) && Read(fs, a, MAX_TEXT - 1) == Some([x])
    requires Printable(x) && Printable(z) && WriteFits(fs, a, [x, z]) && Write(fs, a, [x, z]).1 == Success
    ensures s == Start(fs, a, '1') && SessionInv(s) && SessionInv(Run(s, ClobberKeys(x, z)))
    ensures Run(s, ClobberKeys(x, z)).disk == Write(fs, a, [x, z]).0
  {
    hide Run, TypeAll, Matches;
    s := Start(fs, a, '1');
    StartKeeps(fs, a, '1');
    StartEmpty(fs, a, x);
    RunInsertKey(s, [x, z] + ([ESC, ' '] + ":w\n "));
    var s1 := s.(ed := s.ed.(insert := true));
    RunTypes(s1, [x, z], [ESC, ' '] + ":w\n ");
    TypeTwo(s1.ed, x, z);
    var s2 := s1.(ed := TypeAll(s1.ed, [x, z]));
    RunEscape(s2, ":w\n ");
    var s3 := s2.(ed := s2.ed.(insert := false));
    OneLine([x, z]);
    RunSave(s3);
    SaveStores(s3);
  }

  /** From any filesystem with room: write a byte to each of the new files a and b, open a in the editor,
      type two characters and save.  The second one is now the content of b. */
  lemma SaveClobbers(fs: Fs, a: string, b: string, x: char, y: char, z: char) returns (before: Fs, s: Session)
    requires FsView.Inv(fs) && FindHere(fs, a) == None && FindHere(fs, b) == None && a != b
    requires |a| < MAX_FILENAME - 1 && |b| < MAX_FILENAME - 1 && Printable(x) && Printable(z)
    requires |fs.files| + 1 < MAX_FILES && fs.usage + MAX_FILE_SIZE <= |fs.data|
    ensures FsLimits.Reaches(fs, [FsRuns.OpWrite(a, [x]), FsRuns.OpWrite(b, [y])], before)
    ensures FsView.Inv(before) && Usable(before, a) && s == Start(before, a, '1') && Ready(s)
    ensures ReadFits(before, b) && Read(before, b, 1) == Some([y])
    ensures var after := Run(s, ClobberKeys(x, z)).disk;
            ReadFits(after, b) && Read(after, b, 1) == Some([z])
  {
    var after;
    before, after := FsLimits.GrowingClobbers(fs, a, b, x, y, z);
    FsRuns.ReadInBounds(before, a);
    s := KeysSave(before, a, x, z);
  }
}
