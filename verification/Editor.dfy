/** The editor as it runs: a two-dimensional character buffer edited by shifting in place. */
module Editor {
  import opened Options
  import opened CStrings
  import opened StringLib
  import FsModel
  import opened FileSystem
  import opened EditorModel
  import opened EditorLaws
  import opened EditorRuns

  /** Row i of the buffer holds the C string s. */
  ghost predicate RowIs(a: array2<char>, i: nat, s: string)
    reads a
  {
    && i < a.Length0 && |s| < a.Length1 && a[i, |s|] == NUL
    && forall k | 0 <= k < |s| :: s[k] == a[i, k] && s[k] != NUL
  }

  /** The first rows of the buffer hold the strings of rows. */
  ghost predicate RowsAre(a: array2<char>, rows: seq<string>)
    reads a
  {
    forall i | 0 <= i < |rows| :: RowIs(a, i, rows[i])
  }

  /** Every row but the given one is as before. */
  twostate predicate OtherRows(a: array2<char>, i: nat)
    reads a
  {
    forall r, k | 0 <= r < a.Length0 && 0 <= k < a.Length1 && r != i :: a[r, k] == old(a[r, k])
  }

  /** A row repeated behind itself and then cut short is a row split in two. */
  lemma SplitRows(rows: seq<string>, k: nat, col: nat)
    requires k < |rows| && col <= |rows[k]|
    ensures var more := rows[..k + 1] + ([rows[k][col..]] + rows[k + 1..]);
            more[k := more[k][..col]] == rows[..k] + ([rows[k][..col], rows[k][col..]] + rows[k + 1..])
  {
  }

  /** What a handled key leads to. */
  datatype Next = More(rest: string) | Exit | Starved

  /** From session s0 a key had the given outcome, and the editor is now in session s. */
  predicate Did(o: Outcome, s0: Session, s: Session, next: Next)
  {
    match o
    case Going(s', rest) => next == More(rest) && s == s'
    case Closed(s') => next == Exit && s == s'
    case Waiting => next == Starved && s == s0
  }

  class LineEditor {
    const lines: array2<char>
    var lineCount: nat
    var cursorLine: nat
    var cursorCol: nat
    var viewStartLine: nat
    var modified: bool
    var insertMode: bool
    const filename: string
    const fs: Filesystem
    ghost var ed: Ed
    ghost var clean: seq<string>

    ghost predicate Holds()
      reads this, lines
    {
      && lines.Length0 == MAX_LINES && lines.Length1 == MAX_LINE_LENGTH
      && lineCount == |ed.lines| <= MAX_LINES && RowsAre(lines, ed.lines)
      && cursorLine == ed.row && cursorCol == ed.col && viewStartLine == ed.view
      && modified == ed.modified && insertMode == ed.insert
    }

    ghost predicate Valid()
      reads this, lines
    {
      Holds() && EditorModel.Inv(ed)
    }

    /** The filesystem is in order, and files can be saved and loaded under the editor's name. */
    ghost predicate Mounted()
      reads fs, fs.files, fs.dataStorage, fs.currentPath
    {
      fs.Valid() && Usable(fs.state, filename)
    }

    /** strlen of a row */
    method RowLength(i: nat, ghost s: string) returns (n: nat)
      requires RowIs(lines, i, s)
      ensures n == |s|
    {
      n := 0;
      while lines[i, n] != NUL
        invariant n <= |s| && lines[i, n] == CharAt(s, n)
        decreases |s| - n
      {
        n := n + 1;
        assert n < |s| ==> s[n] == lines[i, n];
      }
    }

    method LineLength() returns (n: nat)
      requires Valid()
      ensures n == |ed.lines[cursorLine]|
    {
      n := RowLength(cursorLine, ed.lines[cursorLine]);
    }

    /** The loop of editor_insert_char: one place to the right from the cursor on. */
    method ShiftRight(i: nat, col: nat, len: nat, ghost s: string)
      requires RowIs(lines, i, s) && col <= len == |s| && len + 1 < lines.Length1
      modifies lines
      ensures OtherRows(lines, i)
      ensures forall k | 0 <= k < col :: lines[i, k] == s[k]
      ensures forall k | col <= k < len :: lines[i, k + 1] == s[k]
    {
      var j := len;
      while j > col
        invariant col <= j <= len
        invariant OtherRows(lines, i)
        invariant forall k | 0 <= k < j :: lines[i, k] == s[k]
        invariant forall k | j <= k < len :: lines[i, k + 1] == s[k]
      {
        lines[i, j] := lines[i, j - 1];
        j := j - 1;
      }
    }

    /** The loop of editor_delete_char and of the x key: one place to the left, terminator and all. */
    method ShiftLeft(i: nat, col: nat, len: nat, ghost s: string)
      requires RowIs(lines, i, s) && col < len == |s|
      modifies lines
      ensures OtherRows(lines, i)
      ensures RowIs(lines, i, s[..col] + s[col + 1..])
    {
      var j := col;
      while j < len
        invariant col <= j <= len
        invariant OtherRows(lines, i)
        invariant forall k | 0 <= k < col :: lines[i, k] == s[k]
        invariant forall k | col <= k < j :: lines[i, k] == if k + 1 < len then s[k + 1] else NUL
        invariant forall k | j <= k < len :: lines[i, k] == s[k]
        invariant lines[i, len] == NUL
      {
        lines[i, j] := lines[i, j + 1];
        j := j + 1;
      }
    }

    /** The two stores behind that loop put the character in its place. */
    method PutInRow(i: nat, col: nat, len: nat, c: char, ghost s: string)
      requires RowIs(lines, i, s) && col <= len == |s| && len + 1 < lines.Length1 && c != NUL
      modifies lines
      ensures OtherRows(lines, i) && RowIs(lines, i, s[..col] + ([c] + s[col..]))
    {
      ShiftRight(i, col, len, s);
      lines[i, col] := c;
      lines[i, len + 1] := NUL;
    }

    /** What editor_insert_char does to the buffer. */
    method PutInLine(i: nat, col: nat, len: nat, c: char, ghost rows: seq<string>)
      requires RowsAre(lines, rows) && i < |rows| && col <= len == |rows[i]| && c != NUL
      requires len + 1 < lines.Length1
      modifies lines
      ensures RowsAre(lines, rows[i := rows[i][..col] + ([c] + rows[i][col..])])
    {
      PutInRow(i, col, len, c, rows[i]);
      assert OtherRows(lines, i);
      forall r | 0 <= r < |rows| && r != i ensures RowIs(lines, r, rows[r]) {
        assert old(RowIs(lines, r, rows[r]));
      }
    }

    method InsertChar(c: char)
      requires Valid() && c != NL && c != NUL
      modifies this`cursorCol, this`modified, this`ed, lines
      ensures Valid() && ed == EditorModel.InsertChar(old(ed), c)
    {
      hide Follows, GoodLine;
      InsertFollows(ed, c);
      ghost var e := ed;
      var lineLen := LineLength();
      if lineLen < MAX_LINE_LENGTH - 1 {
        PutInLine(cursorLine, cursorCol, lineLen, c, ed.lines);
        cursorCol := cursorCol + 1;
        modified := true;
        ed := EditorModel.InsertChar(e, c);
      }
    }

    /** What deleting the character at column col of row i does to the buffer. */
    method TakeFromLine(i: nat, col: nat, len: nat, ghost rows: seq<string>)
      requires RowsAre(lines, rows) && i < |rows| && col < len == |rows[i]|
      modifies lines
      ensures RowsAre(lines, rows[i := rows[i][..col] + rows[i][col + 1..]])
    {
      ShiftLeft(i, col, len, rows[i]);
      assert OtherRows(lines, i);
      forall r | 0 <= r < |rows| && r != i ensures RowIs(lines, r, rows[r]) {
        assert old(RowIs(lines, r, rows[r]));
      }
    }

    /** Removes the character at column col of the cursor line. */
    method RemoveAt(col: nat, lineLen: nat)
      requires Holds() && cursorLine < lineCount && col < lineLen == |ed.lines[cursorLine]|
      modifies this`modified, this`ed, lines
      ensures Holds()
      ensures var s := old(ed.lines[cursorLine]);
              ed == old(ed).(lines := old(ed.lines)[cursorLine := s[..col] + s[col + 1..]], modified := true)
    {
      hide RowsAre;
      ghost var s, e := ed.lines[cursorLine], ed;
      TakeFromLine(cursorLine, col, lineLen, ed.lines);
      modified := true;
      ed := e.(lines := e.lines[e.row := s[..col] + s[col + 1..]], modified := true);
    }

    method DeleteChar()
      requires Valid()
      modifies this`cursorCol, this`modified, this`ed, lines
      ensures Valid() && ed == EditorModel.DeleteChar(old(ed))
    {
      hide RowsAre, GoodLine, Follows, EditorModel.DeleteUnder;
      DeleteFollows(ed);
      if cursorCol > 0 {
        var lineLen := LineLength();
        RemoveAt(cursorCol - 1, lineLen);
        cursorCol := cursorCol - 1;
        ed := ed.(col := ed.col - 1);
      }
    }

    /** The x key. */
    method DeleteUnder()
      requires Valid()
      modifies this`modified, this`ed, lines
      ensures Valid() && ed == EditorModel.DeleteUnder(old(ed))
    {
      DeleteFollows(ed);
      var lineLen := LineLength();
      if cursorCol < lineLen {
        RemoveAt(cursorCol, lineLen);
      }
    }

    /** strcpy(lines[to], lines[from] + col) */
    method CopyRow(to: nat, from: nat, col: nat, ghost s: string)
      requires to != from && to < lines.Length0 && RowIs(lines, from, s) && col <= |s|
      modifies lines
      ensures OtherRows(lines, to) && RowIs(lines, to, s[col..])
    {
      var k := 0;
      while lines[from, col + k] != NUL
        invariant k <= |s| - col
        invariant OtherRows(lines, to)
        invariant lines[from, |s|] == NUL && forall j | 0 <= j < |s| :: s[j] == lines[from, j] && s[j] != NUL
        invariant forall j | 0 <= j < k :: lines[to, j] == s[col + j]
        invariant lines[from, col + k] == CharAt(s, col + k)
        decreases |s| - k
      {
        lines[to, k] := lines[from, col + k];
        k := k + 1;
        assert col + k < |s| ==> s[col + k] == lines[from, col + k];
      }
      lines[to, k] := NUL;
    }

    /** The first loop of editor_new_line: rows behind row k move down by one. */
    method ShiftDown(k: nat, n: nat, ghost rows: seq<string>)
      requires RowsAre(lines, rows) && k < n == |rows| < lines.Length0
      modifies lines
      ensures forall i | 0 <= i <= k :: RowIs(lines, i, rows[i])
      ensures forall i {:trigger rows[i]} | k < i < n :: RowIs(lines, i + 1, rows[i])
    {
      var i := n;
      while i > k + 1
        invariant k + 1 <= i <= n
        invariant forall r | 0 <= r < i :: RowIs(lines, r, rows[r])
        invariant forall r {:trigger rows[r]} | i <= r < n :: RowIs(lines, r + 1, rows[r])
      {
        ghost var s := rows[i - 1];
        label copy:
        CopyRow(i, i - 1, 0, s);
        assert s[0..] == s;
        forall r | 0 <= r < i ensures RowIs(lines, r, rows[r]) {
          assert old@copy(RowIs(lines, r, rows[r]));
        }
        forall r | i <= r < n ensures RowIs(lines, r + 1, rows[r]) {
          assert old@copy(RowIs(lines, r + 1, rows[r]));
        }
        i := i - 1;
      }
    }

    /** Row k ends at column col from now on. */
    method CutRow(k: nat, col: nat, ghost rows: seq<string>)
      requires RowsAre(lines, rows) && k < |rows| && col <= |rows[k]|
      modifies lines
      ensures RowsAre(lines, rows[k := rows[k][..col]])
    {
      lines[k, col] := NUL;
      assert RowIs(lines, k, rows[k][..col]);
      assert OtherRows(lines, k);
      forall r | 0 <= r < |rows| && r != k ensures RowIs(lines, r, rows[r]) {
        assert old(RowIs(lines, r, rows[r]));
      }
    }

    /** Behind row k comes a copy of what it holds from column col on. */
    method RepeatRow(k: nat, col: nat, n: nat, ghost rows: seq<string>)
      requires RowsAre(lines, rows) && k < n == |rows| < lines.Length0 && col <= |rows[k]|
      modifies lines
      ensures RowsAre(lines, rows[..k + 1] + ([rows[k][col..]] + rows[k + 1..]))
    {
      ShiftDown(k, n, rows);
      label shifted:
      CopyRow(k + 1, k, col, rows[k]);
      forall r | 0 <= r <= k ensures RowIs(lines, r, rows[r]) {
        assert old@shifted(RowIs(lines, r, rows[r]));
      }
      forall r {:trigger rows[r]} | k < r < n ensures RowIs(lines, r + 1, rows[r]) {
        assert old@shifted(RowIs(lines, r + 1, rows[r]));
      }
    }

    method NewLine()
      requires Valid()
      modifies this`lineCount, this`cursorLine, this`cursorCol, this`modified, this`ed, lines
      ensures Valid() && ed == EditorModel.NewLine(old(ed))
    {
      hide RowsAre, Follows, GoodLine;
      NewLineFollows(ed);
      if lineCount < MAX_LINES - 1 {
        ghost var e, k := ed, ed.row;
        ghost var more := e.lines[..k + 1] + ([e.lines[k][e.col..]] + e.lines[k + 1..]);
        RepeatRow(cursorLine, cursorCol, lineCount, e.lines);
        CutRow(cursorLine, cursorCol, more);
        SplitRows(e.lines, k, e.col);
        lineCount := lineCount + 1;
        cursorLine := cursorLine + 1;
        cursorCol := 0;
        modified := true;
        ed := EditorModel.NewLine(e);
      }
    }

    // ----- moving -----

    method MoveUp()
      requires Valid()
      modifies this`cursorLine, this`cursorCol, this`viewStartLine, this`ed
      ensures Valid() && ed == Up(old(ed))
    {
      hide Follows, Down, Right, Left;
      MoveFollows(ed);
      ghost var e := ed;
      if cursorLine > 0 {
        cursorLine := cursorLine - 1;
        var lineLen := RowLength(cursorLine, ed.lines[cursorLine]);
        if cursorCol > lineLen {
          cursorCol := lineLen;
        }
        if cursorLine < viewStartLine {
          viewStartLine := cursorLine;
        }
      }
      ed := Up(e);
    }

    method MoveDown()
      requires Valid()
      modifies this`cursorLine, this`cursorCol, this`viewStartLine, this`ed
      ensures Valid() && ed == Down(old(ed))
    {
      hide Follows, Up, Right, Left;
      MoveFollows(ed);
      ghost var e := ed;
      if cursorLine < lineCount - 1 {
        cursorLine := cursorLine + 1;
        var lineLen := RowLength(cursorLine, ed.lines[cursorLine]);
        if cursorCol > lineLen {
          cursorCol := lineLen;
        }
        if cursorLine >= viewStartLine + VIEW_HEIGHT {
          viewStartLine := cursorLine - VIEW_HEIGHT + 1;
        }
      }
      ed := Down(e);
    }

    method MoveLeft()
      requires Valid()
      modifies this`cursorCol, this`ed
      ensures Valid() && ed == Left(old(ed))
    {
      MoveFollows(ed);
      ghost var e := ed;
      if cursorCol > 0 {
        cursorCol := cursorCol - 1;
      }
      ed := Left(e);
    }

    method MoveRight()
      requires Valid()
      modifies this`cursorCol, this`ed
      ensures Valid() && ed == Right(old(ed))
    {
      MoveFollows(ed);
      ghost var e := ed;
      var lineLen := LineLength();
      if cursorCol < lineLen {
        cursorCol := cursorCol + 1;
      }
      ed := Right(e);
    }

    method MoveToLineEnd()
      requires Valid()
      modifies this`cursorCol, this`ed
      ensures Valid() && ed == ToLineEnd(old(ed))
    {
      MoveFollows(ed);
      cursorCol := LineLength();
      ed := ToLineEnd(ed);
    }

    method SetInsert(on: bool)
      requires Valid()
      modifies this`insertMode, this`ed
      ensures Valid() && ed == old(ed).(insert := on)
    {
      insertMode := on;
      ed := ed.(insert := on);
    }

    // ----- the file -----

    method EmptyBuffer()
      requires lines.Length0 == MAX_LINES && lines.Length1 == MAX_LINE_LENGTH
      modifies this`lineCount, lines
      ensures lineCount == 1 && RowIs(lines, 0, "")
    {
      lineCount := 1;
      lines[0, 0] := NUL;
    }

    /** The parsing loop of editor_load_file. */
    method ParseLines(text: string)
      requires lines.Length0 == MAX_LINES && lines.Length1 == MAX_LINE_LENGTH
      modifies this`lineCount, lines
      ensures var r := LoadFrom(text, 0, [], "");
              lineCount == |r| <= MAX_LINES && RowsAre(lines, r)
    {
      lineCount := 0;
      var i, linePos := 0, 0;
      ghost var done: seq<string>, cur := [], "";
      while i < |text| && lineCount < MAX_LINES
        invariant i <= |text| && lineCount == |done| <= MAX_LINES
        invariant linePos == |cur| < MAX_LINE_LENGTH && NUL !in cur
        invariant LoadFrom(text, 0, [], "") == LoadFrom(text, i, done, cur)
        invariant forall r | 0 <= r < |done| :: RowIs(lines, r, done[r])
        invariant lineCount < MAX_LINES ==> forall k | 0 <= k < linePos :: lines[lineCount, k] == cur[k]
      {
        label round:
        if text[i] == NL || text[i] == NUL {
          lines[lineCount, linePos] := NUL;
          assert RowIs(lines, lineCount, cur);
          assert OtherRows@round(lines, lineCount);
          forall r | 0 <= r < |done| && r != lineCount ensures RowIs(lines, r, done[r]) {
            assert old@round(RowIs(lines, r, done[r]));
          }
          done, cur := done + [cur], "";
          lineCount := lineCount + 1;
          linePos := 0;
        } else if linePos < MAX_LINE_LENGTH - 1 {
          lines[lineCount, linePos] := text[i];
          assert OtherRows@round(lines, lineCount);
          forall r | 0 <= r < |done| && r != lineCount ensures RowIs(lines, r, done[r]) {
            assert old@round(RowIs(lines, r, done[r]));
          }
          cur := cur + [text[i]];
          linePos := linePos + 1;
        }
        i := i + 1;
      }
    }

    method LoadFile()
      requires lines.Length0 == MAX_LINES && lines.Length1 == MAX_LINE_LENGTH && Mounted()
      modifies this`lineCount, lines
      ensures var r := LoadLines(fs.state, filename);
              lineCount == |r| && RowsAre(lines, r)
    {
      var buffer := new char[MAX_TEXT];
      var bytesRead := fs.ReadFile(filename, buffer, MAX_TEXT - 1);
      if bytesRead.None? {
        EmptyBuffer();
        return;
      }
      assert buffer[..bytesRead.value] == FsModel.Read(fs.state, filename, MAX_TEXT - 1).value;
      ParseLines(buffer[..bytesRead.value]);
      if lineCount == 0 {
        EmptyBuffer();
      }
    }

    /** strcpy(buffer + pos, lines[i]) */
    method CopyOut(buffer: array<char>, pos: nat, i: nat, ghost s: string)
      requires RowIs(lines, i, s) && pos + |s| < buffer.Length
      modifies buffer
      ensures buffer[..pos + |s|] == old(buffer[..pos]) + s
    {
      var k := 0;
      while lines[i, k] != NUL
        invariant k <= |s| && buffer[..pos + k] == old(buffer[..pos]) + s[..k]
        invariant lines[i, k] == CharAt(s, k)
        decreases |s| - k
      {
        buffer[pos + k] := lines[i, k];
        k := k + 1;
        assert k < |s| ==> s[k] == lines[i, k];
      }
      buffer[pos + k] := NUL;
      assert buffer[..pos + k] == old(buffer[..pos]) + s;
    }

    /** The loop of editor_save_file that fills the buffer. */
    method FillBuffer() returns (buffer: array<char>, pos: nat)
      requires Holds()
      ensures fresh(buffer) && pos < buffer.Length && buffer[..pos] == SaveText(ed.lines)
    {
      hide RowIs;
      buffer := new char[MAX_TEXT];
      pos := 0;
      var i := 0;
      while i < lineCount && pos < MAX_TEXT - 1
        invariant i <= lineCount && pos < MAX_TEXT == buffer.Length
        invariant SaveText(ed.lines) == SaveFrom(ed.lines, i, buffer[..pos])
      {
        ghost var s, before := ed.lines[i], buffer[..pos];
        var lineLen := RowLength(i, s);
        if pos + lineLen + 1 < MAX_TEXT {
          CopyOut(buffer, pos, i, s);
          pos := pos + lineLen;
          if i < lineCount - 1 {
            buffer[pos] := NL;
            pos := pos + 1;
          }
          assert buffer[..pos] == before + (s + if i < lineCount - 1 then [NL] else "");
        }
        i := i + 1;
      }
      buffer[pos] := NUL;
    }

    ghost function State(): Session
      reads this, fs`state
    {
      Session(ed, filename, fs.state, clean)
    }

    /** The fs_write_file call of editor_save_file. */
    method StoreText(text: string) returns (status: FsModel.Status)
      requires Mounted() && |text| <= FsModel.MAX_FILE_SIZE
      modifies fs, fs.files, fs.dataStorage
      ensures Mounted() && FsModel.WriteFits(old(fs.state), filename, text)
      ensures (fs.state, status) == FsModel.Write(old(fs.state), filename, text)
    {
      WriteUsable(fs.state, filename, text);
      status := fs.WriteFile(filename, text);
    }

    method SaveFile() returns (ok: bool)
      requires Valid() && Mounted()
      modifies this`modified, this`ed, this`clean, fs, fs.files, fs.dataStorage
      ensures Valid() && Mounted() && (State(), ok) == Save(old(State()))
    {
      hide Mounted;
      SaveBound(ed.lines, 0, "");
      var buffer, pos := FillBuffer();
      var status := StoreText(buffer[..pos]);
      ok := status == FsModel.Success;
      if ok {
        MarkSaved();
      }
    }

    method MarkSaved()
      requires Valid()
      modifies this`modified, this`ed, this`clean
      ensures Valid() && ed == old(ed).(modified := false) && clean == old(ed).lines
    {
      modified := false;
      ed, clean := ed.(modified := false), ed.lines;
    }

    // ----- the key loop -----

    /** The command line after ":".  None: the input ends before the command does. */
    method ReadCommand(input: string) returns (cmd: Option<string>, rest: string)
      ensures var n := CommandLength(input, 0);
              if n == |input| then cmd == None else cmd == Some(UpToNul(input[..n])) && rest == input[n + 1..]
    {
      var n := 0;
      while n < |input| && !IsEnter(input[n]) && n < 15
        invariant n <= |input| && n <= 15
        invariant CommandLength(input, 0) == CommandLength(input, n)
      {
        n := n + 1;
      }
      if n == |input| {
        return None, "";
      }
      return Some(UpToNul(input[..n])), input[n + 1..];
    }

    static method AnyKey(input: string) returns (rest: string)
      ensures rest == if input == "" then "" else input[1..]
    {
      rest := if input == "" then "" else input[1..];
    }

    method RunCommand(input: string) returns (next: Next)
      requires Valid() && Mounted()
      modifies this`modified, this`ed, this`clean, fs, fs.files, fs.dataStorage
      ensures Valid() && Mounted() && Did(Command(old(State()), input), old(State()), State(), next)
    {
      hide Mounted, Execute;
      var cmd, rest := ReadCommand(input);
      if cmd.None? {
        return Starved;
      }
      next := RunExecute(cmd.value, rest);
    }

    method RunExecute(cmd: string, input: string) returns (next: Next)
      requires Valid() && Mounted()
      modifies this`modified, this`ed, this`clean, fs, fs.files, fs.dataStorage
      ensures Valid() && Mounted() && Did(Execute(old(State()), cmd, input), old(State()), State(), next)
    {
      hide Mounted, Save;
      var rest := input;
      if cmd == "w" {
        var ok := SaveFile();
        if ok {
          rest := AnyKey(rest);
        }
        return More(rest);
      } else if cmd == "q" {
        if !modified {
          return Exit;
        }
      } else if cmd == "q!" {
        return Exit;
      } else if cmd == "wq" {
        var ok := SaveFile();
        if ok {
          return Exit;
        }
      }
      rest := AnyKey(rest);
      return More(rest);
    }

    method HandleEscape(input: string) returns (next: Next)
      requires Valid()
      modifies this`cursorLine, this`cursorCol, this`viewStartLine, this`insertMode, this`ed
      ensures Valid() && Did(Escape(old(State()), input), old(State()), State(), next)
    {
      if input == "" {
        return Starved;
      }
      if input[0] == '[' {
        if |input| == 1 {
          return Starved;
        }
        next := More(input[2..]);
        if input[1] == 'A' {
          MoveUp();
          return;
        } else if input[1] == 'B' {
          MoveDown();
          return;
        } else if input[1] == 'C' {
          MoveRight();
          return;
        } else if input[1] == 'D' {
          MoveLeft();
          return;
        }
      } else {
        next := More(input[1..]);
      }
      SetInsert(false);
    }

    method HandleInsert(c: char)
      requires Valid()
      modifies this, lines
      ensures Valid() && State() == old(State()).(ed := InsertMode(old(ed), c))
    {
      if IsEnter(c) {
        NewLine();
      } else if c == DEL || c == BACKSPACE {
        DeleteChar();
      } else if Printable(c) {
        InsertChar(c);
      }
    }

    /** The keys of command mode that only work on the buffer. */
    method PressKey(c: char) returns (known: bool)
      requires Valid()
      modifies this`lineCount, this`cursorLine, this`cursorCol, this`viewStartLine, this`modified
      modifies this`insertMode, this`ed, lines
      ensures Valid() && known == EditKey(old(ed), c).Some?
      ensures ed == if known then EditKey(old(ed), c).value else old(ed)
    {
      known := true;
      if c == 'i' {
        SetInsert(true);
      } else if c == 'a' || c == 'A' {
        MoveToLineEnd();
        SetInsert(true);
      } else if c == 'o' {
        MoveToLineEnd();
        NewLine();
        SetInsert(true);
      } else if c == 'j' {
        MoveDown();
      } else if c == 'k' {
        MoveUp();
      } else if c == 'h' {
        MoveLeft();
      } else if c == 'l' {
        MoveRight();
      } else if c == 'x' {
        DeleteUnder();
      } else {
        known := false;
      }
    }

    method HandleCommand(c: char, input: string) returns (next: Next)
      requires Valid() && Mounted()
      modifies this, lines, fs, fs.files, fs.dataStorage
      ensures Valid() && Mounted() && Did(CommandMode(old(State()), c, input), old(State()), State(), next)
    {
      hide Mounted;
      var known := PressKey(c);
      if known {
        return More(input);
      }
      if c == ':' {
        next := RunCommand(input);
      } else {
        var rest := AnyKey(input);
        next := More(rest);
      }
    }

    /** One round of the key loop of editor_start. */
    method HandleKey(input: string) returns (next: Next)
      requires Valid() && Mounted() && input != ""
      modifies this, lines, fs, fs.files, fs.dataStorage
      ensures Valid() && Mounted() && Did(Key(old(State()), input), old(State()), State(), next)
    {
      hide Mounted;
      if input[0] == ESC {
        next := HandleEscape(input[1..]);
      } else if insertMode {
        HandleInsert(input[0]);
        next := More(input[1..]);
      } else {
        next := HandleCommand(input[0], input[1..]);
      }
    }

    /** The key loop until the editor is left or the input ends. */
    method KeyLoop(keys: string)
      requires Valid() && Mounted() && SessionInv(State())
      modifies this, lines, fs, fs.files, fs.dataStorage
      ensures Valid() && Mounted() && SessionInv(State()) && State() == Run(old(State()), keys)
    {
      hide Holds, Mounted, Valid, Usable;
      var input, running := keys, true;
      while running && input != ""
        invariant Valid() && Mounted() && SessionInv(State())
        invariant Run(old(State()), keys) == if running then Run(State(), input) else State()
        decreases running, |input|
      {
        KeyKeeps(State(), input);
        var next := HandleKey(input);
        match next {
          case More(rest) => input := rest;
          case Exit => running := false;
          case Starved => running := false;
        }
      }
    }

    /** The cleared editor structure, as an empty buffer. */
    constructor (name: string, fs: Filesystem)
      ensures Valid() && fresh(lines) && this.fs == fs && filename == name
      ensures State() == Session(Ed([""], 0, 0, 0, false, false), name, fs.state, [""])
    {
      lines := new char[MAX_LINES, MAX_LINE_LENGTH]((_, _) => NUL);
      filename, this.fs := name, fs;
      cursorLine, cursorCol, viewStartLine, lineCount := 0, 0, 0, 1;
      modified, insertMode := false, false;
      ed, clean := Ed([""], 0, 0, 0, false, false), [""];
    }

    lemma CanRead()
      requires Mounted()
      ensures FsModel.ReadFits(fs.state, filename)
    {
    }

    /** The first fs_read_file call of editor_start. */
    method Exists() returns (found: bool)
      requires Mounted()
      ensures found == FsModel.Read(fs.state, filename, MAX_TEXT - 1).Some?
    {
      var buffer := new char[MAX_TEXT];
      var bytesRead := fs.ReadFile(filename, buffer, MAX_TEXT - 1);
      found := bytesRead.Some?;
    }

    /** Choice 2: the cursor goes to the end, on a new line unless the last one is empty. */
    method GoToEnd()
      requires Valid()
      modifies this, lines
      ensures Valid() && State() == old(State()).(ed := ed)
      ensures var last := |old(ed).lines| - 1;
              var e := old(ed).(row := last, col := |old(ed).lines[last]|);
              ed == (if |e.lines[last]| > 0 then EditorModel.NewLine(e) else e).(insert := true)
    {
      hide RowIs;
      ghost var e := ed;
      assert GoodLine(e.lines[|e.lines| - 1]);
      cursorLine := lineCount - 1;
      cursorCol := RowLength(cursorLine, e.lines[|e.lines| - 1]);
      ed := e.(row := cursorLine, col := cursorCol);
      if cursorCol > 0 {
        NewLine();
      }
      SetInsert(true);
    }

    method LoadBuffer()
      requires Valid() && Mounted() && ed.row == ed.col == ed.view == 0
      modifies this`lineCount, this`ed, this`clean, lines
      ensures Valid() && ed == old(ed).(lines := LoadLines(fs.state, filename)) && clean == ed.lines
    {
      hide Mounted, LoadLines;
      CanRead();
      LoadedGood(fs.state, filename);
      LoadFile();
      ed, clean := ed.(lines := LoadLines(fs.state, filename)), LoadLines(fs.state, filename);
    }

    /** Choice 3: the empty buffer is there already. */
    method StartOver()
      requires Valid() && Mounted()
      modifies this`modified, this`ed, this`clean
      ensures Valid() && ed == old(ed).(modified := true) && clean == LoadLines(fs.state, filename)
    {
      hide Mounted;
      CanRead();
      modified := true;
      ed, clean := ed.(modified := true), LoadLines(fs.state, filename);
    }

    /** editor_start up to the key loop, for the user's choice when the file exists. */
    method Open(choice: char)
      requires Valid() && Mounted()
      requires State() == Session(Ed([""], 0, 0, 0, false, false), filename, fs.state, [""])
      modifies this, lines
      ensures Valid() && Mounted() && State() == Start(fs.state, filename, choice)
    {
      hide Holds, Inv, Mounted;
      CanRead();
      var found := Exists();
      if !found {
        return;
      }
      if choice == '3' {
        StartOver();
        return;
      }
      LoadBuffer();
      if choice == '2' {
        GoToEnd();
      }
    }
  }
}
