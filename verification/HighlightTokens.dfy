/** The grammar of the highlighters, written without their scanners: a sequence of tokens is the one that
    is displayed if and only if it obeys the grammar. */
module HighlightTokens {
  import opened Options
  import opened HighlightModel
  import opened HighlightMeaning

  predicate Letter(c: char) { 'a' <= c <= 'z' || 'A' <= c <= 'Z' || c == '_' }
  predicate Numeral(c: char) { '0' <= c <= '9' }
  predicate Alphanumeric(c: char) { Letter(c) || Numeral(c) }

  /** What may follow the first digit of a number. */
  predicate InNumber(lang: Lang, c: char)
  {
    var hex := 'a' <= c <= 'f' || 'A' <= c <= 'F';
    match lang
    case LangC(_) => Numeral(c) || c == '.'
    case LangVerilog(_) => Numeral(c) || hex || c == '\'' || c == 'h' || c == 'o'
    case LangRiscv(_, _) => Numeral(c) || hex || c == 'x'
  }

  /** From i to j all characters satisfy p, and the run goes on as far as it can: to the end of the line,
      a character that does not, or the limit. */
  ghost predicate MaxRun(line: string, i: nat, j: nat, limit: nat, p: char -> bool)
  {
    && i <= j <= |line| && j - i <= limit && (forall k | i <= k < j :: p(line[k]))
    && (j == |line| || j - i == limit || !p(line[j]))
  }

  predicate Begins(line: string, i: nat, c: char, d: char)
  {
    i + 1 < |line| && line[i] == c && line[i + 1] == d
  }

  /** A comment whose body starts at start ends at j: behind the first star and slash of the body, or
      open at the end of the line. */
  ghost predicate BlockComment(line: string, start: nat, j: nat, closed: bool)
  {
    if closed then start + 2 <= j && StarSlash(line, j - 2) && forall k | start <= k < j - 2 :: !StarSlash(line, k)
    else j == |line| && forall k | start <= k < |line| :: !StarSlash(line, k)
  }

  /** Likewise a string literal, behind the first quote that is not hidden by a backslash. */
  ghost predicate Literal(line: string, start: nat, j: nat, closed: bool)
  {
    if closed then
      start < j && OpenQuote(line, start, j - 1) && forall k | start <= k < j - 1 :: !OpenQuote(line, start, k)
    else j == |line| && forall k | start <= k < |line| :: !OpenQuote(line, start, k)
  }

  function ListedAs(lang: Lang, word: string): Option<Kind>
  {
    match lang
    case LangC(keywords) => if word in keywords then Some(Keyword) else None
    case LangVerilog(keywords) => if word in keywords then Some(Keyword) else None
    case LangRiscv(instructions, registers) =>
      if word in instructions then Some(Instruction) else if word in registers then Some(Register) else None
  }

  /** t is the token that starts at i: its first characters decide what it is and where it ends. */
  ghost predicate Lexeme(lang: Lang, line: string, i: nat, t: Tok)
    requires i < |line|
  {
    var c, j := line[i], i + |t.text|;
    && i < j <= |line| && t.text == line[i..j]
    && if !lang.LangRiscv? && Begins(line, i, '/', '/') then
         t.kind == Some(Comment) && t.closed && j == |line|
       else if lang.LangC? && Begins(line, i, '/', '*') then
         t.kind == Some(Comment) && BlockComment(line, i + 2, j, t.closed)
       else if lang.LangC? && c == '"' then
         t.kind == Some(Str) && Literal(line, i + 1, j, t.closed)
       else if !lang.LangVerilog? && c == '#' then
         t.kind == Some(if lang.LangC? then Preprocessor else Comment) && t.closed && j == |line|
       else if Letter(c) then
         t.kind == ListedAs(lang, t.text) && t.closed && MaxRun(line, i, j, 63, Alphanumeric)
       else if Numeral(c) then
         t.kind == Some(Number) && t.closed
         && MaxRun(line, i, j, if lang.LangVerilog? then 63 else 31, x => InNumber(lang, x))
       else if lang.LangRiscv? && c == '-' then
         t.kind == Some(Number) && t.closed && MaxRun(line, i + 1, j, 30, x => InNumber(lang, x))
       else
         t.kind == None && t.closed && j == i + 1
  }

  lemma RunUnique(line: string, i: nat, j: nat, j': nat, limit: nat, p: char -> bool)
    requires MaxRun(line, i, j, limit, p) && MaxRun(line, i, j', limit, p)
    ensures j == j'
  {
  }

  lemma LexemeUnique(lang: Lang, line: string, i: nat, t: Tok, u: Tok)
    requires i < |line| && Lexeme(lang, line, i, t) && Lexeme(lang, line, i, u)
    ensures t == u
  {
  }

  lemma BlockIs(line: string, start: nat)
    requires start <= |line|
    ensures BlockComment(line, start, BlockEnd(line, start).0, BlockEnd(line, start).1)
  {
    hide BlockEnd;
    BlockEndIsFirst(line, start);
    BlockOpen(line, start);
  }

  lemma LiteralIs(line: string, start: nat)
    requires start <= |line|
    ensures Literal(line, start, QuoteEnd(line, start).0, QuoteEnd(line, start).1)
  {
    hide QuoteEnd;
    QuoteEndIsFirst(line, start, start);
    QuoteOpen(line, start);
  }

  lemma RunIs(line: string, i: nat, limit: nat, p: char -> bool, q: char -> bool)
    requires i <= |line| && forall c: char :: p(c) == q(c)
    ensures MaxRun(line, i, RunEnd(line, i, limit, p), limit, q)
  {
    hide RunEnd;
  }

  lemma WordIs(lang: Lang, line: string, i: nat)
    requires i < |line| && IsAlpha(line[i])
    ensures var t := WordTok(line, i, WordKind(lang, Word(line, i)));
            && t.kind == ListedAs(lang, t.text) && t.closed
            && i + |t.text| <= |line| && MaxRun(line, i, i + |t.text|, 63, Alphanumeric)
  {
    hide MaxRun, RunEnd;
    RunIs(line, i, 63, IsAlnum, Alphanumeric);
  }

  /** A comment or a string of C. */
  lemma DelimitedIsLexeme(lang: Lang, line: string, i: nat)
    requires i < |line| && lang.LangC? && (Begins(line, i, '/', '/') || Begins(line, i, '/', '*') || line[i] == '"')
    ensures Lexeme(lang, line, i, CTok(lang, line, i))
  {
    hide MaxRun, BlockComment, BlockEnd, Literal, QuoteEnd, ListedAs;
    CTokCovers(lang, line, i);
    if Begins(line, i, '/', '*') { BlockIs(line, i + 2); }
    LiteralIs(line, i + 1);
  }

  lemma PlainIsLexeme(lang: Lang, line: string, i: nat)
    requires i < |line| && lang.LangC? && !Begins(line, i, '/', '/') && !Begins(line, i, '/', '*') && line[i] != '"'
    ensures Lexeme(lang, line, i, CTok(lang, line, i))
  {
    hide MaxRun, RunEnd, BlockComment, Literal, WordTok, WordKind, ListedAs;
    CTokCovers(lang, line, i);
    if IsAlpha(line[i]) { WordIs(lang, line, i); }
    RunIs(line, i, 31, InCNumber, x => InNumber(lang, x));
  }

  lemma CTokIsLexeme(lang: Lang, line: string, i: nat)
    requires i < |line| && lang.LangC?
    ensures Lexeme(lang, line, i, CTok(lang, line, i))
  {
    hide Lexeme, CTok;
    if Begins(line, i, '/', '/') || Begins(line, i, '/', '*') || line[i] == '"' {
      DelimitedIsLexeme(lang, line, i);
    } else {
      PlainIsLexeme(lang, line, i);
    }
  }

  lemma VerilogTokIsLexeme(lang: Lang, line: string, i: nat)
    requires i < |line| && lang.LangVerilog?
    ensures Lexeme(lang, line, i, VerilogTok(lang, line, i))
  {
    hide MaxRun, RunEnd, BlockComment, Literal, WordTok, WordKind, ListedAs;
    VerilogTokCovers(lang, line, i);
    if IsAlpha(line[i]) { WordIs(lang, line, i); }
    RunIs(line, i, 63, InVerilogNumber, x => InNumber(lang, x));
  }

  lemma RiscvTokIsLexeme(lang: Lang, line: string, i: nat)
    requires i < |line| && lang.LangRiscv?
    ensures Lexeme(lang, line, i, RiscvTok(lang, line, i))
  {
    hide MaxRun, RunEnd, BlockComment, Literal, WordTok, WordKind, ListedAs;
    RiscvTokCovers(lang, line, i);
    if IsAlpha(line[i]) { WordIs(lang, line, i); }
    RunIs(line, i, 31, InRiscvNumber, x => InNumber(lang, x));
    RunIs(line, i + 1, 30, InRiscvNumber, x => InNumber(lang, x));
  }

  lemma TokIsLexeme(lang: Lang, line: string, i: nat)
    requires i < |line|
    ensures Lexeme(lang, line, i, TokAt(lang, line, i))
  {
    hide Lexeme, CTok, VerilogTok, RiscvTok;
    match lang
    case LangC(_) => CTokIsLexeme(lang, line, i);
    case LangVerilog(_) => VerilogTokIsLexeme(lang, line, i);
    case LangRiscv(_, _) => RiscvTokIsLexeme(lang, line, i);
  }

  /** The grammar names one token at every place, and it is the scanners'. */
  lemma LexemeExact(lang: Lang, line: string, i: nat, t: Tok)
    requires i < |line|
    ensures Lexeme(lang, line, i, t) <==> t == TokAt(lang, line, i)
  {
    hide Lexeme, TokAt;
    TokIsLexeme(lang, line, i);
    if Lexeme(lang, line, i, t) { LexemeUnique(lang, line, i, t, TokAt(lang, line, i)); }
  }

  /** The tokens follow one another from i to the end of the line, each as the grammar says. */
  ghost predicate Lexed(lang: Lang, line: string, i: nat, ts: seq<Tok>)
    requires i <= |line|
    decreases |ts|
  {
    if ts == [] then i == |line|
    else i < |line| && Lexeme(lang, line, i, ts[0]) && Lexed(lang, line, i + |ts[0].text|, ts[1..])
  }

  /** What is displayed of a line in any of the languages is its only reading under the grammar. */
  lemma {:induction false} TokensExact(lang: Lang, line: string, i: nat, ts: seq<Tok>)
    requires i <= |line|
    ensures ts == Toks(lang, line, i) <==> Lexed(lang, line, i, ts)
    decreases |line| - i
  {
    hide Lexeme, TokAt;
    if i < |line| {
      var t, j := ToksStep(lang, line, i);
      if ts != [] {
        LexemeExact(lang, line, i, ts[0]);
        TokensExact(lang, line, j, ts[1..]);
        assert ts == [ts[0]] + ts[1..];
      }
    }
  }

  // ----- output -----

  lemma {:induction false} PlainAt(text: string)
    ensures |Plain(text)| == |text| && forall k | 0 <= k < |text| :: Plain(text)[k] == Ch(text[k])
    decreases |text|
  {
    if text != "" { PlainAt(text[..|text| - 1]); }
  }

  /** A token is written character by character, between the markers of its kind; the closing one is
      missing exactly when the token is open. */
  lemma ShowExact(t: Tok)
    ensures var out, n := Show(t), |t.text|;
            match t.kind
            case None => |out| == n && forall k | 0 <= k < n :: out[k] == Ch(t.text[k])
            case Some(kind) =>
              && |out| == n + (if t.closed then 2 else 1) && out[0] == Event.Open(kind)
              && (forall k | 0 <= k < n :: out[k + 1] == Ch(t.text[k]))
              && (t.closed ==> out[n + 1] == Event.Close(kind))
  {
    PlainAt(t.text);
  }
}
