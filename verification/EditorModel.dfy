/** The line editor as a value: a list of lines with a cursor, and a session that reads its keys
    from an input stream and keeps its file in the filesystem. */
module EditorModel {
  import opened Options
  import opened CStrings
  import opened FsModel
  import FsView

  const MAX_LINES: nat := 1000
  const MAX_LINE_LENGTH: nat := 256
  const VIEW_HEIGHT: nat := 20
  const MAX_TEXT: nat := 4096
  const NL: char := '\n'
  const ESC: char := 27 as char
  const BACKSPACE: char := 8 as char
  const DEL: char := 127 as char

  /** row, col and view are cursor_line, cursor_col and view_start_line. */
  datatype Ed = Ed(lines: seq<string>, row: nat, col: nat, view: nat, modified: bool, insert: bool)

  predicate GoodLine(line: string)
  {
    |line| < MAX_LINE_LENGTH && NL !in line && NUL !in line
  }

  ghost predicate Inv(e: Ed)
  {
    && 0 < |e.lines| <= MAX_LINES
    && e.row < |e.lines| && e.col <= |e.lines[e.row]| && e.view <= e.row
    && forall i | 0 <= i < |e.lines| :: GoodLine(e.lines[i])
  }

  // ----- editing -----

  function InsertChar(e: Ed, c: char): Ed
    requires e.row < |e.lines| && e.col <= |e.lines[e.row]|
  {
    var line := e.lines[e.row];
    if |line| < MAX_LINE_LENGTH - 1 then
      e.(lines := e.lines[e.row := line[..e.col] + ([c] + line[e.col..])], col := e.col + 1, modified := true)
    else e
  }

  /** Removes the character before the cursor; at column 0 nothing happens. */
  function DeleteChar(e: Ed): Ed
    requires e.row < |e.lines| && e.col <= |e.lines[e.row]|
  {
    var line := e.lines[e.row];
    if e.col > 0 then
      e.(lines := e.lines[e.row := line[..e.col - 1] + line[e.col..]], col := e.col - 1, modified := true)
    else e
  }

  /** The x key: removes the character under the cursor. */
  function DeleteUnder(e: Ed): Ed
    requires e.row < |e.lines| && e.col <= |e.lines[e.row]|
  {
    var line := e.lines[e.row];
    if e.col < |line| then
      e.(lines := e.lines[e.row := line[..e.col] + line[e.col + 1..]], modified := true)
    else e
  }

  function NewLine(e: Ed): Ed
    requires e.row < |e.lines| && e.col <= |e.lines[e.row]|
  {
    var line := e.lines[e.row];
    if |e.lines| < MAX_LINES - 1 then
      e.(lines := e.lines[..e.row] + ([line[..e.col], line[e.col..]] + e.lines[e.row + 1..]),
         row := e.row + 1, col := 0, modified := true)
    else e
  }

  // ----- moving -----

  function Min(a: nat, b: nat): nat { if a < b then a else b }

  function Up(e: Ed): Ed
    requires e.row < |e.lines|
  {
    if e.row == 0 then e
    else e.(row := e.row - 1, col := Min(e.col, |e.lines[e.row - 1]|), view := Min(e.view, e.row - 1))
  }

  function Down(e: Ed): Ed
    requires e.row < |e.lines|
  {
    if e.row + 1 >= |e.lines| then e
    else e.(row := e.row + 1, col := Min(e.col, |e.lines[e.row + 1]|),
            view := if e.row + 1 >= e.view + VIEW_HEIGHT then e.row + 1 - VIEW_HEIGHT + 1 else e.view)
  }

  function Left(e: Ed): Ed
  {
    if e.col > 0 then e.(col := e.col - 1) else e
  }

  function Right(e: Ed): Ed
    requires e.row < |e.lines|
  {
    if e.col < |e.lines[e.row]| then e.(col := e.col + 1) else e
  }

  function ToLineEnd(e: Ed): Ed
    requires e.row < |e.lines|
  {
    e.(col := |e.lines[e.row]|)
  }

  // ----- saving and loading -----

  /** The save loop from line i on: a line that does not fit in the buffer is skipped. */
  function SaveFrom(lines: seq<string>, i: nat, buf: string): string
    requires i <= |lines|
    decreases |lines| - i
  {
    if i == |lines| || |buf| >= MAX_TEXT - 1 then buf
    else if |buf| + |lines[i]| + 1 < MAX_TEXT then
      SaveFrom(lines, i + 1, buf + (lines[i] + if i < |lines| - 1 then [NL] else ""))
    else SaveFrom(lines, i + 1, buf)
  }

  function SaveText(lines: seq<string>): string { SaveFrom(lines, 0, "") }

  /** The load loop from character i on, with the finished lines and the one being collected. */
  function LoadFrom(text: string, i: nat, done: seq<string>, cur: string): seq<string>
    requires i <= |text|
    decreases |text| - i
  {
    if i == |text| || |done| >= MAX_LINES then done
    else if text[i] == NL || text[i] == NUL then LoadFrom(text, i + 1, done + [cur], "")
    else if |cur| < MAX_LINE_LENGTH - 1 then LoadFrom(text, i + 1, done, cur + [text[i]])
    else LoadFrom(text, i + 1, done, cur)
  }

  function Loaded(text: string): (lines: seq<string>)
    ensures lines != []
  {
    var lines := LoadFrom(text, 0, [], "");
    if lines == [] then [""] else lines
  }

  /** editor_load_file: a file that cannot be read is a new, empty one. */
  function LoadLines(fs: Fs, name: string): (lines: seq<string>)
    requires ReadFits(fs, name)
    ensures lines != []
  {
    match Read(fs, name, MAX_TEXT - 1)
    case None => [""]
    case Some(text) => Loaded(text)
  }

  // ----- the session -----

  /** disk is the filesystem; clean are the lines as of the last load or successful save. */
  datatype Session = Session(ed: Ed, name: string, disk: Fs, clean: seq<string>)

  /** Texts of every length can be saved and loaded under the name: it fits its buffers, and 4096
      bytes from the file's start, or from where a new file would start, lie in the data area. */
  predicate Usable(fs: Fs, name: string)
  {
    && |name| < MAX_PATH && NameFits(fs, name) && ReadFits(fs, name)
    && match FindHere(fs, name)
       case None => |fs.files| < MAX_FILES ==> fs.usage + MAX_FILE_SIZE <= |fs.data|
       case Some(i) => fs.files[i].ftype == Regular ==> fs.files[i].offset + MAX_FILE_SIZE <= |fs.data|
  }

  ghost predicate SessionInv(s: Session)
  {
    && Inv(s.ed) && (!s.ed.modified ==> s.ed.lines == s.clean)
    && FsView.Inv(s.disk) && Usable(s.disk, s.name)
  }

  /** What the key loop needs of a session to run at all. */
  predicate Ready(s: Session)
  {
    s.ed.row < |s.ed.lines| && s.ed.col <= |s.ed.lines[s.ed.row]| && Usable(s.disk, s.name)
  }

  /** editor_save_file, with its success. */
  function Save(s: Session): (Session, bool)
    requires Usable(s.disk, s.name)
  {
    var (disk, status) := Write(s.disk, s.name, SaveText(s.ed.lines));
    if status == Success then
      (s.(ed := s.ed.(modified := false), disk := disk, clean := s.ed.lines), true)
    else (s, false)
  }

  /** editor_start up to the key loop, for the user's choice when the file exists. */
  function Start(fs: Fs, name: string, choice: char): Session
    requires ReadFits(fs, name)
  {
    var blank := Ed([""], 0, 0, 0, false, false);
    if Read(fs, name, MAX_TEXT - 1) == None then Session(blank, name, fs, [""])
    else
      var lines := LoadLines(fs, name);
      if choice == '2' then
        var last := |lines| - 1;
        var e := Ed(lines, last, |lines[last]|, 0, false, false);
        var e' := if |lines[last]| > 0 then NewLine(e) else e;
        Session(e'.(insert := true), name, fs, lines)
      else if choice == '3' then Session(blank.(modified := true), name, fs, lines)
      else Session(blank.(lines := lines), name, fs, lines)
  }

  datatype Outcome =
    | Going(s: Session, rest: string)   // the key is handled; rest is still to be read
    | Closed(s: Session)                // the editor has been left
    | Waiting                           // the input ends in the middle of a key

  function Put(s: Session, e: Ed, rest: string): Outcome { Going(s.(ed := e), rest) }

  /** "Press any key to continue"; the end of the input stands for the key. */
  function Pause(s: Session, rest: string): Outcome
  {
    Going(s, if rest == "" then "" else rest[1..])
  }

  function IsEnter(c: char): bool { c == NL || c == '\r' }

  /** Length of the command line: up to the first Enter, or 15 characters. */
  function CommandLength(input: string, n: nat): (r: nat)
    requires n <= |input| && n <= 15
    ensures n <= r <= |input| && r <= 15
    ensures forall k | n <= k < r :: !IsEnter(input[k])
    ensures r == |input| || r == 15 || IsEnter(input[r])
    decreases |input| - n
  {
    if n == |input| || IsEnter(input[n]) || n == 15 then n else CommandLength(input, n + 1)
  }

  function Execute(s: Session, cmd: string, rest: string): Outcome
    requires Usable(s.disk, s.name)
  {
    if cmd == "w" then
      var (s', ok) := Save(s);
      if ok then Pause(s', rest) else Going(s', rest)
    else if cmd == "q" then
      if s.ed.modified then Pause(s, rest) else Closed(s)
    else if cmd == "q!" then Closed(s)
    else if cmd == "wq" then
      var (s', ok) := Save(s);
      if ok then Closed(s') else Pause(s', rest)
    else Pause(s, rest)
  }

  /** The command typed after ":".  Enter is consumed, and so is a sixteenth character. */
  function Command(s: Session, input: string): Outcome
    requires Usable(s.disk, s.name)
  {
    var n := CommandLength(input, 0);
    if n == |input| then Waiting else Execute(s, UpToNul(input[..n]), input[n + 1..])
  }

  /** The bytes after ESC; anything but an arrow leaves insert mode. */
  function Escape(s: Session, input: string): Outcome
    requires s.ed.row < |s.ed.lines|
  {
    var out := s.ed.(insert := false);
    if input == "" then Waiting
    else if input[0] != '[' then Put(s, out, input[1..])
    else if |input| == 1 then Waiting
    else
      var rest := input[2..];
      if input[1] == 'A' then Put(s, Up(s.ed), rest)
      else if input[1] == 'B' then Put(s, Down(s.ed), rest)
      else if input[1] == 'C' then Put(s, Right(s.ed), rest)
      else if input[1] == 'D' then Put(s, Left(s.ed), rest)
      else Put(s, out, rest)
  }

  predicate Printable(c: char) { 32 as char <= c <= 126 as char }

  function InsertMode(e: Ed, c: char): Ed
    requires e.row < |e.lines| && e.col <= |e.lines[e.row]|
  {
    if IsEnter(c) then NewLine(e)
    else if c == DEL || c == BACKSPACE then DeleteChar(e)
    else if Printable(c) then InsertChar(e, c)
    else e
  }

  /** The keys of command mode that only work on the buffer. */
  function EditKey(e: Ed, c: char): Option<Ed>
    requires e.row < |e.lines| && e.col <= |e.lines[e.row]|
  {
    if c == 'i' then Some(e.(insert := true))
    else if c == 'a' || c == 'A' then Some(ToLineEnd(e).(insert := true))
    else if c == 'o' then Some(NewLine(ToLineEnd(e)).(insert := true))
    else if c == 'j' then Some(Down(e))
    else if c == 'k' then Some(Up(e))
    else if c == 'h' then Some(Left(e))
    else if c == 'l' then Some(Right(e))
    else if c == 'x' then Some(DeleteUnder(e))
    else None
  }

  function CommandMode(s: Session, c: char, rest: string): Outcome
    requires Ready(s)
  {
    match EditKey(s.ed, c)
    case Some(e) => Put(s, e, rest)
    case None => if c == ':' then Command(s, rest) else Pause(s, rest)
  }

  /** One round of the key loop. */
  function Key(s: Session, input: string): Outcome
    requires input != "" && Ready(s)
  {
    var c, rest := input[0], input[1..];
    if c == ESC then Escape(s, rest)
    else if s.ed.insert then Put(s, InsertMode(s.ed, c), rest)
    else CommandMode(s, c, rest)
  }
}
