/** The three highlighters as lexers.  Console output is a sequence of events, so that markers
    cannot be confused with brackets in the text. */
module HighlightModel {
  import opened Options
  import opened StringLib

  datatype Kind = Keyword | Comment | Str | Number | Register | Instruction | Preprocessor

  datatype Event = Open(kind: Kind) | Close(kind: Kind) | Ch(c: char)

  /** A stretch of a line: its marker, if any, and whether the marker gets closed. */
  datatype Tok = Tok(kind: Option<Kind>, text: string, closed: bool)

  /** The word tables of a language; is_c_keyword and its kind look words up here. */
  datatype Lang =
    | LangC(keywords: seq<string>)
    | LangVerilog(keywords: seq<string>)
    | LangRiscv(instructions: seq<string>, registers: seq<string>)

  predicate IsAlpha(c: char) { 'a' <= c <= 'z' || 'A' <= c <= 'Z' || c == '_' }
  predicate IsAlnum(c: char) { IsAlpha(c) || IsDigit(c) }
  predicate IsHexLetter(c: char) { 'a' <= c <= 'f' || 'A' <= c <= 'F' }
  predicate InCNumber(c: char) { IsDigit(c) || c == '.' }
  predicate InVerilogNumber(c: char) { IsDigit(c) || c == '\'' || c == 'h' || c == 'o' || IsHexLetter(c) }
  predicate InRiscvNumber(c: char) { IsDigit(c) || c == 'x' || IsHexLetter(c) }

  const WORD_LIMIT: nat := 63

  /** The end of the longest run from i of at most limit characters that satisfy p. */
  function RunEnd(line: string, i: nat, limit: nat, p: char -> bool): (j: nat)
    requires i <= |line|
    ensures i <= j <= |line| && j - i <= limit
    ensures forall k | i <= k < j :: p(line[k])
    ensures j < |line| && j - i < limit ==> !p(line[j])
    decreases limit
  {
    if i == |line| || limit == 0 || !p(line[i]) then i else RunEnd(line, i + 1, limit - 1, p)
  }

  /** Where the block comment whose body starts at i ends: behind the first star and slash. */
  function BlockEnd(line: string, i: nat): (r: (nat, bool))
    requires i <= |line|
    ensures i <= r.0 <= |line|
    decreases |line| - i
  {
    if i == |line| then (i, false)
    else if line[i] == '*' && i + 1 < |line| && line[i + 1] == '/' then (i + 2, true)
    else BlockEnd(line, i + 1)
  }

  /** Where the string literal whose body starts at i ends; a backslash hides the next character. */
  function QuoteEnd(line: string, i: nat): (r: (nat, bool))
    requires i <= |line|
    ensures i <= r.0 <= |line|
    decreases |line| - i
  {
    if i == |line| then (i, false)
    else if line[i] == '"' then (i + 1, true)
    else if line[i] == '\\' && i + 1 < |line| then QuoteEnd(line, i + 2)
    else QuoteEnd(line, i + 1)
  }

  predicate At(line: string, i: nat, c: char) { i < |line| && line[i] == c }

  function Marked(line: string, i: nat, j: nat, kind: Kind): Tok
    requires i <= j <= |line|
  {
    Tok(Some(kind), line[i..j], true)
  }

  function WordTok(line: string, i: nat, kind: Option<Kind>): (t: Tok)
    requires i < |line| && IsAlpha(line[i])
    ensures 0 < |t.text| <= WORD_LIMIT
  {
    Tok(kind, line[i..RunEnd(line, i, WORD_LIMIT, IsAlnum)], true)
  }

  function Word(line: string, i: nat): string
    requires i < |line|
  {
    line[i..RunEnd(line, i, WORD_LIMIT, IsAlnum)]
  }

  function WordKind(lang: Lang, word: string): Option<Kind>
  {
    match lang
    case LangC(keywords) => if word in keywords then Some(Keyword) else None
    case LangVerilog(keywords) => if word in keywords then Some(Keyword) else None
    case LangRiscv(instructions, registers) =>
      if word in instructions then Some(Instruction)
      else if word in registers then Some(Register)
      else None
  }

  function Plain1(line: string, i: nat): Tok
    requires i < |line|
  {
    Tok(None, line[i..i + 1], true)
  }

  function CTok(lang: Lang, line: string, i: nat): Tok
    requires i < |line|
  {
    if line[i] == '/' && At(line, i + 1, '/') then Marked(line, i, |line|, Comment)
    else if line[i] == '/' && At(line, i + 1, '*') then
      var (j, closed) := BlockEnd(line, i + 2);
      Tok(Some(Comment), line[i..j], closed)
    else if line[i] == '"' then
      var (j, closed) := QuoteEnd(line, i + 1);
      Tok(Some(Str), line[i..j], closed)
    else if line[i] == '#' then Marked(line, i, |line|, Preprocessor)
    else if IsAlpha(line[i]) then WordTok(line, i, WordKind(lang, Word(line, i)))
    else if IsDigit(line[i]) then Marked(line, i, RunEnd(line, i, 31, InCNumber), Number)
    else Plain1(line, i)
  }

  function VerilogTok(lang: Lang, line: string, i: nat): Tok
    requires i < |line|
  {
    if line[i] == '/' && At(line, i + 1, '/') then Marked(line, i, |line|, Comment)
    else if IsAlpha(line[i]) then WordTok(line, i, WordKind(lang, Word(line, i)))
    else if IsDigit(line[i]) then Marked(line, i, RunEnd(line, i, 63, InVerilogNumber), Number)
    else Plain1(line, i)
  }

  function RiscvTok(lang: Lang, line: string, i: nat): Tok
    requires i < |line|
  {
    if line[i] == '#' then Marked(line, i, |line|, Comment)
    else if IsAlpha(line[i]) then WordTok(line, i, WordKind(lang, Word(line, i)))
    else if line[i] == '-' then Marked(line, i, RunEnd(line, i + 1, 30, InRiscvNumber), Number)
    else if IsDigit(line[i]) then Marked(line, i, RunEnd(line, i, 31, InRiscvNumber), Number)
    else Plain1(line, i)
  }

  function TokAt(lang: Lang, line: string, i: nat): Tok
    requires i < |line|
  {
    match lang
    case LangC(_) => CTok(lang, line, i)
    case LangVerilog(_) => VerilogTok(lang, line, i)
    case LangRiscv(_, _) => RiscvTok(lang, line, i)
  }

  /** t is a non-empty stretch of the line from i; if its marker stays open the line ends with it. */
  ghost predicate Covers(t: Tok, line: string, i: nat, mayStayOpen: bool)
  {
    && i < |line| && 0 < |t.text| <= |line| - i && t.text == line[i..i + |t.text|]
    && (t.closed || (mayStayOpen && t.kind in {Some(Comment), Some(Str)} && i + |t.text| == |line|))
  }

  lemma CTokCovers(lang: Lang, line: string, i: nat)
    requires i < |line|
    ensures Covers(CTok(lang, line, i), line, i, true)
  {
    hide RunEnd, WordKind, BlockEnd, QuoteEnd, IsAlpha, IsAlnum, IsDigit;
    if i + 2 <= |line| { BlockOpen(line, i + 2); }
    QuoteOpen(line, i + 1);
  }

  lemma VerilogTokCovers(lang: Lang, line: string, i: nat)
    requires i < |line|
    ensures Covers(VerilogTok(lang, line, i), line, i, false)
  {
  }

  lemma RiscvTokCovers(lang: Lang, line: string, i: nat)
    requires i < |line|
    ensures Covers(RiscvTok(lang, line, i), line, i, false)
  {
  }

  lemma TokAtCovers(lang: Lang, line: string, i: nat)
    requires i < |line|
    ensures Covers(TokAt(lang, line, i), line, i, lang.LangC?)
  {
    match lang
    case LangC(_) => CTokCovers(lang, line, i);
    case LangVerilog(_) => VerilogTokCovers(lang, line, i);
    case LangRiscv(_, _) => RiscvTokCovers(lang, line, i);
  }

  lemma {:induction false} BlockOpen(line: string, i: nat)
    requires i <= |line|
    ensures !BlockEnd(line, i).1 ==> BlockEnd(line, i).0 == |line|
    decreases |line| - i
  {
    if i < |line| { BlockOpen(line, i + 1); }
  }

  lemma {:induction false} QuoteOpen(line: string, i: nat)
    requires i <= |line|
    ensures !QuoteEnd(line, i).1 ==> QuoteEnd(line, i).0 == |line|
    decreases |line| - i
  {
    if i < |line| && line[i] != '"' {
      QuoteOpen(line, if line[i] == '\\' && i + 1 < |line| then i + 2 else i + 1);
    }
  }

  /** The tokens of the line from i on. */
  function Toks(lang: Lang, line: string, i: nat): seq<Tok>
    requires i <= |line|
    decreases |line| - i
  {
    if i == |line| then []
    else
      TokAtCovers(lang, line, i);
      var t := TokAt(lang, line, i);
      [t] + Toks(lang, line, i + |t.text|)
  }

  /** The first token from i, and where the others start. */
  lemma ToksStep(lang: Lang, line: string, i: nat) returns (t: Tok, j: nat)
    requires i < |line|
    ensures t == TokAt(lang, line, i) && Covers(t, line, i, lang.LangC?)
    ensures i < j == i + |t.text| <= |line| && Toks(lang, line, i) == [t] + Toks(lang, line, j)
  {
    hide TokAt;
    TokAtCovers(lang, line, i);
    t := TokAt(lang, line, i);
    j := i + |t.text|;
  }

  // ----- output -----

  function Plain(text: string): seq<Event>
  {
    if text == "" then [] else Plain(text[..|text| - 1]) + [Ch(text[|text| - 1])]
  }

  /** editor_print_colored, or the piecewise output of a construct that may stay open. */
  function Show(t: Tok): seq<Event>
  {
    match t.kind
    case None => Plain(t.text)
    case Some(k) => [Event.Open(k)] + Plain(t.text) + if t.closed then [Event.Close(k)] else []
  }

  function ShowAll(ts: seq<Tok>): seq<Event>
  {
    if ts == [] then [] else Show(ts[0]) + ShowAll(ts[1..])
  }

  /** A whole displayed line: its number, the tokens and a newline. */
  function Highlighted(lang: Lang, line: string, lineNum: nat): seq<Event>
  {
    Plain(Digits(lineNum + 1, 10) + ": ") + ShowAll(Toks(lang, line, 0)) + [Ch('\n')]
  }
}
