/** The highlighters as the editor runs them: scanners with an index into the line that write to
    the console piece by piece.  Each method returns what it writes. */
module Highlighter {
  import opened Options
  import opened CStrings
  import opened StringLib
  import opened HighlightModel
  import opened HighlightLaws

  const BUFFER: nat := 16

  // ----- console_put_dec -----

  function Power(base: nat, k: nat): nat
  {
    if k == 0 then 1 else base * Power(base, k - 1)
  }

  lemma {:induction false} DigitsFit(n: nat, k: nat)
    requires 1 <= k && n < Power(10, k)
    ensures |Digits(n, 10)| <= k
    decreases k
  {
    if n >= 10 {
      DivMod(n, 10);
      assert k > 1 && n / 10 < Power(10, k - 1);
      DigitsFit(n / 10, k - 1);
    }
  }

  lemma NumberFits(value: nat)
    requires value < 0x1_0000_0000
    ensures |Digits(value, 10)| <= 10
  {
    assert Power(10, 5) == 100_000;
    assert Power(10, 10) == 10_000_000_000;
    DigitsFit(value, 10);
  }

  method PutDec(value: nat) returns (out: seq<Event>)
    requires value < 0x1_0000_0000
    ensures out == Plain(Digits(value, 10))
  {
    if value == 0 {
      PlainSnoc("", '0');
      assert Digits(0, 10) == "" + "0";
      return [Ch('0')];
    }
    NumberFits(value);
    ghost var d := Digits(value, 10);
    var digits := new char[BUFFER];
    var v, i: nat := value, 0;
    while v > 0
      invariant i + |DigitsLeft(v, 10)| == |d| && |d| <= 10
      invariant DigitsLeft(v, 10) <= d
      invariant forall j | 0 <= j < i :: digits[j] == d[|d| - 1 - j]
    {
      DigitsLeftStep(v, 10);
      digits[i] := (v % 10) as char + '0';
      v, i := v / 10, i + 1;
    }
    out := [];
    while i > 0
      invariant i <= |d| && out == Plain(d[0..|d| - i])
      invariant forall j | 0 <= j < i :: digits[j] == d[|d| - 1 - j]
    {
      i := i - 1;
      out := out + [Ch(digits[i])];
      PlainNext(d, 0, |d| - i - 1);
    }
    assert d[0..|d|] == d;
  }

  // ----- text -----

  lemma PlainSnoc(text: string, c: char)
    ensures Plain(text + [c]) == Plain(text) + [Ch(c)]
  {
    assert (text + [c])[..|text|] == text;
  }

  lemma PlainNext(line: string, i: nat, j: nat)
    requires i <= j < |line|
    ensures Plain(line[i..j + 1]) == Plain(line[i..j]) + [Ch(line[j])]
  {
    assert line[i..j + 1] == line[i..j] + [line[j]];
    PlainSnoc(line[i..j], line[j]);
  }

  /** console_puts */
  method Puts(text: string) returns (out: seq<Event>)
    ensures out == Plain(text) && |out| == |text|
  {
    out := [];
    var i := 0;
    while i < |text|
      invariant i <= |text| && out == Plain(text[..i]) && |out| == i
    {
      assert text[..i + 1] == text[..i] + [text[i]];
      PlainSnoc(text[..i], text[i]);
      out := out + [Ch(text[i])];
      i := i + 1;
    }
    assert text[..|text|] == text;
  }

  /** The text and nothing else, between an opening and a closing marker of the kind, if any. */
  method PrintColored(text: string, kind: Option<Kind>) returns (out: seq<Event>)
    ensures Erase(out) == text && Track(out, None) == Some(None)
    ensures kind == None ==> |out| == |text|
    ensures kind.Some? ==> |out| == |text| + 2 && out[0] == Event.Open(kind.value)
                           && out[|out| - 1] == Event.Close(kind.value)
    ensures out == Show(Tok(kind, text, true))
  {
    EraseShow(Tok(kind, text, true));
    TrackShow(Tok(kind, text, true));
    out := Puts(text);
    match kind {
      case Some(k) => out := [Event.Open(k)] + out + [Event.Close(k)];
      case None =>
    }
  }

  /** The look-up loop of is_c_keyword, is_verilog_keyword, is_riscv_instruction and
      is_riscv_register. */
  method IsListed(word: string, words: seq<string>) returns (found: bool)
    requires NUL !in word && forall w | w in words :: NUL !in w
    ensures found == (word in words)
  {
    var i := 0;
    while i < |words|
      invariant i <= |words| && word !in words[..i]
    {
      var r := Strcmp(word, words[i]);
      if r == 0 {
        return true;
      }
      i := i + 1;
    }
    assert words[..i] == words;
    return false;
  }

  /** The copying loop of extract_word and of the number branches: characters that satisfy p, as
      many as the buffer takes beside its terminator. */
  method TakeRun(line: string, start: nat, limit: nat, p: char -> bool) returns (run: string, end: nat)
    requires start <= |line|
    ensures end == RunEnd(line, start, limit, p) && run == line[start..end]
  {
    run, end := "", start;
    while end < |line| && p(line[end]) && |run| < limit
      invariant start <= end <= |line| && run == line[start..end] && |run| <= limit
      invariant RunEnd(line, end, limit - |run|, p) == RunEnd(line, start, limit, p)
    {
      run, end := run + [line[end]], end + 1;
    }
  }

  // ----- pieces that are written as they are scanned -----

  /** Show for a piece whose closing marker is written only if its end was found. */
  method PrintPiece(kind: Kind, text: string, closed: bool) returns (out: seq<Event>)
    ensures out == Show(Tok(Some(kind), text, closed))
  {
    out := [Event.Open(kind)] + Plain(text);
    if closed {
      out := out + [Event.Close(kind)];
    }
  }

  /** The characters of a block comment, one by one up to the end of the comment or the line. */
  method BlockText(line: string, start: nat) returns (text: string, i: nat, closed: bool)
    requires At(line, start, '/') && At(line, start + 1, '*')
    ensures BlockEnd(line, start + 2) == (i, closed) && text == line[start..i]
  {
    text, i := "/*", start + 2;
    while i < |line|
      invariant start + 2 <= i <= |line| && text == line[start..i]
      invariant BlockEnd(line, i) == BlockEnd(line, start + 2)
    {
      text := text + [line[i]];
      if line[i] == '*' && i + 1 < |line| && line[i + 1] == '/' {
        return text + "/", i + 2, true;
      }
      i := i + 1;
    }
    closed := false;
  }

  /** The characters of a string literal; without a closing quote i ends up behind the line. */
  method QuotedText(line: string, start: nat) returns (text: string, i: nat, closed: bool)
    requires At(line, start, '"')
    ensures QuoteEnd(line, start + 1) == (if i <= |line| then i else |line|, closed)
    ensures start < i && text == line[start..QuoteEnd(line, start + 1).0]
  {
    text, i := "\"", start + 1;
    while i < |line| && line[i] != '"'
      invariant start < i <= |line| && text == line[start..i]
      invariant QuoteEnd(line, i) == QuoteEnd(line, start + 1)
    {
      text := text + [line[i]];
      if line[i] == '\\' && i + 1 < |line| {
        i := i + 1;
        text := text + [line[i]];
      }
      i := i + 1;
    }
    closed := i < |line|;
    if closed {
      text := text + "\"";
    }
    i := i + 1;
  }

  // ----- the scanners -----

  ghost predicate CStringTable(words: seq<string>)
  {
    forall w | w in words :: NUL !in w
  }

  /** What the scan has still to write once it stands at i. */
  ghost function Rest(lang: Lang, line: string, i: nat): seq<Event>
    requires i <= |line|
  {
    ShowAll(Toks(lang, line, i))
  }

  lemma ShowCons(t: Tok, ts: seq<Tok>)
    ensures ShowAll([t] + ts) == Show(t) + ShowAll(ts)
  {
    assert ([t] + ts)[1..] == ts;
  }

  /** Writing the token at i moves the scan behind it. */
  lemma RestStep(lang: Lang, line: string, i: nat) returns (j: nat)
    requires i < |line|
    ensures i < j == i + |TokAt(lang, line, i).text| <= |line|
    ensures Rest(lang, line, i) == Show(TokAt(lang, line, i)) + Rest(lang, line, j)
  {
    var t;
    t, j := ToksStep(lang, line, i);
    ShowCons(t, Toks(lang, line, j));
  }

  lemma Shift(out: seq<Event>, piece: seq<Event>, rest: seq<Event>)
    ensures out + piece + rest == out + (piece + rest)
  {
  }

  lemma Finish(out: seq<Event>, lang: Lang, line: string)
    ensures out + Rest(lang, line, |line|) == out
  {
  }

  /** The line number in front of a line, counted from one. */
  method PutNumber(lineNum: nat) returns (out: seq<Event>)
    requires lineNum + 1 < 0x1_0000_0000
    ensures out == Plain(Digits(lineNum + 1, 10) + ": ")
  {
    out := PutDec(lineNum + 1);
    out := out + [Ch(':')];
    PlainSnoc(Digits(lineNum + 1, 10), ':');
    out := out + [Ch(' ')];
    PlainSnoc(Digits(lineNum + 1, 10) + ":", ' ');
    assert Digits(lineNum + 1, 10) + ":" + " " == Digits(lineNum + 1, 10) + ": ";
  }

  /** The word branch of the scanners for C and Verilog. */
  method PrintWord(line: string, start: nat, keywords: seq<string>) returns (out: seq<Event>, end: nat)
    requires NUL !in line && start < |line| && IsAlpha(line[start])
    requires CStringTable(keywords)
    ensures end == RunEnd(line, start, WORD_LIMIT, IsAlnum)
    ensures out == Show(WordTok(line, start, if Word(line, start) in keywords then Some(Keyword) else None))
  {
    hide RunEnd, Show, Erase, Track, IsAlpha;
    var word;
    word, end := TakeRun(line, start, WORD_LIMIT, IsAlnum);
    var listed := IsListed(word, keywords);
    out := PrintColored(word, if listed then Some(Keyword) else None);
  }

  /** A number branch of the scanners. */
  method PrintNumber(line: string, start: nat, limit: nat, p: char -> bool) returns (out: seq<Event>, end: nat)
    requires start <= |line|
    ensures end == RunEnd(line, start, limit, p)
    ensures out == Show(Marked(line, start, end, Number))
  {
    hide RunEnd, Show, Erase, Track;
    var num;
    num, end := TakeRun(line, start, limit, p);
    out := PrintColored(num, Some(Number));
  }

  /** The rest of the line from start on in one marker. */
  method PrintTail(line: string, start: nat, kind: Kind) returns (out: seq<Event>)
    requires start <= |line|
    ensures out == Show(Marked(line, start, |line|, kind))
  {
    hide Show, Erase, Track;
    out := PrintColored(line[start..|line|], Some(kind));
  }

  /** One character without a marker. */
  method PrintOne(line: string, start: nat) returns (out: seq<Event>)
    requires start < |line|
    ensures out == Show(Plain1(line, start))
  {
    hide Show, Erase, Track;
    out := PrintColored(line[start..start + 1], None);
  }

  /** One turn of the loop of editor_highlight_c: it writes the token at start; i ends up behind it,
      or one further if a string has no end. */
  method PrintC(line: string, start: nat, keywords: seq<string>) returns (out: seq<Event>, i: nat)
    requires NUL !in line && start < |line|
    requires CStringTable(keywords)
    ensures var t := CTok(LangC(keywords), line, start);
            out == Show(t) && start + |t.text| == if i <= |line| then i else |line|
  {
    hide Show, RunEnd, CStringTable, IsAlpha, IsDigit;
    i := start;
    if line[i] == '/' && i + 1 < |line| && line[i + 1] == '/' {
      out := PrintTail(line, i, Comment);
      i := |line|;
    } else if line[i] == '/' && i + 1 < |line| && line[i + 1] == '*' {
      var text, closed;
      text, i, closed := BlockText(line, i);
      out := PrintPiece(Comment, text, closed);
    } else if line[i] == '"' {
      var text, closed;
      text, i, closed := QuotedText(line, i);
      out := PrintPiece(Str, text, closed);
    } else if line[i] == '#' {
      out := PrintTail(line, i, Preprocessor);
      i := |line|;
    } else if IsAlpha(line[i]) {
      out, i := PrintWord(line, i, keywords);
    } else if IsDigit(line[i]) {
      out, i := PrintNumber(line, i, 31, InCNumber);
    } else {
      out := PrintOne(line, i);
      i := i + 1;
    }
  }

  method CPiece(line: string, start: nat, keywords: seq<string>) returns (out: seq<Event>, i: nat)
    requires NUL !in line && start < |line|
    requires CStringTable(keywords)
    ensures start < i
    ensures out + Rest(LangC(keywords), line, if i <= |line| then i else |line|)
            == Rest(LangC(keywords), line, start)
  {
    hide Show, CTok, Rest;
    ghost var at := RestStep(LangC(keywords), line, start);
    out, i := PrintC(line, start, keywords);
  }

  method ScanC(line: string, keywords: seq<string>) returns (out: seq<Event>)
    requires NUL !in line && CStringTable(keywords)
    ensures out == Rest(LangC(keywords), line, 0)
  {
    out := [];
    var i := 0;
    ghost var at: nat := 0;
    while i < |line|
      invariant at <= |line| && at == if i <= |line| then i else |line|
      invariant out + Rest(LangC(keywords), line, at) == Rest(LangC(keywords), line, 0)
      decreases |line| - i
    {
      var piece;
      piece, i := CPiece(line, i, keywords);
      at := if i <= |line| then i else |line|;
      Shift(out, piece, Rest(LangC(keywords), line, at));
      out := out + piece;
    }
    Finish(out, LangC(keywords), line);
  }

  method HighlightC(line: string, lineNum: nat, keywords: seq<string>) returns (out: seq<Event>)
    requires NUL !in line && lineNum + 1 < 0x1_0000_0000
    requires CStringTable(keywords)
    ensures out == Highlighted(LangC(keywords), line, lineNum)
  {
    out := PutNumber(lineNum);
    var body := ScanC(line, keywords);
    out := out + body + [Ch('\n')];
  }

  /** One turn of the loop of editor_highlight_verilog. */
  method PrintVerilog(line: string, start: nat, keywords: seq<string>) returns (out: seq<Event>, i: nat)
    requires NUL !in line && start < |line|
    requires CStringTable(keywords)
    ensures var t := VerilogTok(LangVerilog(keywords), line, start);
            out == Show(t) && i == start + |t.text|
  {
    hide Show, RunEnd, CStringTable, IsAlpha, IsDigit;
    i := start;
    if line[i] == '/' && i + 1 < |line| && line[i + 1] == '/' {
      out := PrintTail(line, i, Comment);
      i := |line|;
    } else if IsAlpha(line[i]) {
      out, i := PrintWord(line, i, keywords);
    } else if IsDigit(line[i]) {
      out, i := PrintNumber(line, i, 63, InVerilogNumber);
    } else {
      out := PrintOne(line, i);
      i := i + 1;
    }
  }

  method VerilogPiece(line: string, start: nat, keywords: seq<string>) returns (out: seq<Event>, i: nat)
    requires NUL !in line && start < |line|
    requires CStringTable(keywords)
    ensures start < i <= |line|
    ensures out + Rest(LangVerilog(keywords), line, i) == Rest(LangVerilog(keywords), line, start)
  {
    hide Show, VerilogTok, Rest;
    ghost var at := RestStep(LangVerilog(keywords), line, start);
    out, i := PrintVerilog(line, start, keywords);
  }

  method ScanVerilog(line: string, keywords: seq<string>) returns (out: seq<Event>)
    requires NUL !in line && CStringTable(keywords)
    ensures out == Rest(LangVerilog(keywords), line, 0)
  {
    out := [];
    var i := 0;
    while i < |line|
      invariant i <= |line| && out + Rest(LangVerilog(keywords), line, i) == Rest(LangVerilog(keywords), line, 0)
      decreases |line| - i
    {
      var piece;
      piece, i := VerilogPiece(line, i, keywords);
      Shift(out, piece, Rest(LangVerilog(keywords), line, i));
      out := out + piece;
    }
    Finish(out, LangVerilog(keywords), line);
  }

  method HighlightVerilog(line: string, lineNum: nat, keywords: seq<string>) returns (out: seq<Event>)
    requires NUL !in line && lineNum + 1 < 0x1_0000_0000
    requires CStringTable(keywords)
    ensures out == Highlighted(LangVerilog(keywords), line, lineNum)
  {
    out := PutNumber(lineNum);
    var body := ScanVerilog(line, keywords);
    out := out + body + [Ch('\n')];
  }

  /** A number of assembly: a minus sign takes up one place of the buffer. */
  method SignedRun(line: string, start: nat) returns (num: string, end: nat)
    requires start < |line|
    ensures end == if line[start] == '-' then RunEnd(line, start + 1, 30, InRiscvNumber)
                                         else RunEnd(line, start, 31, InRiscvNumber)
    ensures num == line[start..end]
  {
    hide RunEnd;
    if line[start] == '-' {
      num, end := TakeRun(line, start + 1, 30, InRiscvNumber);
      num := ['-'] + num;
    } else {
      num, end := TakeRun(line, start, 31, InRiscvNumber);
    }
  }

  /** The word branch of editor_highlight_riscv looks in two tables. */
  method PrintMnemonic(line: string, start: nat, instructions: seq<string>, registers: seq<string>)
    returns (out: seq<Event>, end: nat)
    requires NUL !in line && start < |line| && IsAlpha(line[start])
    requires CStringTable(instructions) && CStringTable(registers)
    ensures end == RunEnd(line, start, WORD_LIMIT, IsAlnum)
    ensures out == Show(WordTok(line, start, WordKind(LangRiscv(instructions, registers), Word(line, start))))
  {
    hide RunEnd, Show, Erase, Track, IsAlpha;
    var word;
    word, end := TakeRun(line, start, WORD_LIMIT, IsAlnum);
    var instruction := IsListed(word, instructions);
    if instruction {
      out := PrintColored(word, Some(Instruction));
    } else {
      var register := IsListed(word, registers);
      out := PrintColored(word, if register then Some(Register) else None);
    }
  }

  /** One turn of the loop of editor_highlight_riscv. */
  method PrintRiscv(line: string, start: nat, instructions: seq<string>, registers: seq<string>)
    returns (out: seq<Event>, i: nat)
    requires NUL !in line && start < |line|
    requires CStringTable(instructions) && CStringTable(registers)
    ensures var t := RiscvTok(LangRiscv(instructions, registers), line, start);
            out == Show(t) && i == start + |t.text|
  {
    hide Show, Erase, Track, RunEnd, CStringTable, IsAlpha, IsDigit, WordKind;
    i := start;
    if line[i] == '#' {
      out := PrintTail(line, i, Comment);
      i := |line|;
    } else if IsAlpha(line[i]) {
      out, i := PrintMnemonic(line, i, instructions, registers);
    } else if IsDigit(line[i]) || line[i] == '-' {
      var num;
      num, i := SignedRun(line, i);
      out := PrintColored(num, Some(Number));
    } else {
      out := PrintOne(line, i);
      i := i + 1;
    }
  }

  method RiscvPiece(line: string, start: nat, instructions: seq<string>, registers: seq<string>)
    returns (out: seq<Event>, i: nat)
    requires NUL !in line && start < |line|
    requires CStringTable(instructions) && CStringTable(registers)
    ensures start < i <= |line|
    ensures out + Rest(LangRiscv(instructions, registers), line, i)
            == Rest(LangRiscv(instructions, registers), line, start)
  {
    hide Show, RiscvTok, Rest;
    ghost var at := RestStep(LangRiscv(instructions, registers), line, start);
    out, i := PrintRiscv(line, start, instructions, registers);
  }

  method ScanRiscv(line: string, instructions: seq<string>, registers: seq<string>) returns (out: seq<Event>)
    requires NUL !in line && CStringTable(instructions) && CStringTable(registers)
    ensures out == Rest(LangRiscv(instructions, registers), line, 0)
  {
    out := [];
    var i := 0;
    while i < |line|
      invariant i <= |line|
      invariant out + Rest(LangRiscv(instructions, registers), line, i)
                == Rest(LangRiscv(instructions, registers), line, 0)
      decreases |line| - i
    {
      var piece;
      piece, i := RiscvPiece(line, i, instructions, registers);
      Shift(out, piece, Rest(LangRiscv(instructions, registers), line, i));
      out := out + piece;
    }
    Finish(out, LangRiscv(instructions, registers), line);
  }

  method HighlightRiscv(line: string, lineNum: nat, instructions: seq<string>, registers: seq<string>)
    returns (out: seq<Event>)
    requires NUL !in line && lineNum + 1 < 0x1_0000_0000
    requires CStringTable(instructions) && CStringTable(registers)
    ensures out == Highlighted(LangRiscv(instructions, registers), line, lineNum)
  {
    out := PutNumber(lineNum);
    var body := ScanRiscv(line, instructions, registers);
    out := out + body + [Ch('\n')];
  }
}
