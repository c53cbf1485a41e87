/** What the markers say about the text they enclose, against definitions of their own. */
module HighlightMeaning {
  import opened Options
  import opened StringLib
  import opened HighlightModel

  // ----- ends of block comments and string literals -----

  predicate StarSlash(line: string, k: int)
  {
    0 <= k && k + 1 < |line| && line[k] == '*' && line[k + 1] == '/'
  }

  /** A block comment ends behind the first star and slash of its body, and only there. */
  lemma {:induction false} BlockEndIsFirst(line: string, i: nat)
    requires i <= |line|
    ensures var (j, closed) := BlockEnd(line, i);
      && (closed ==> i + 2 <= j && StarSlash(line, j - 2))
      && (forall k | i <= k < (if closed then j - 2 else |line|) :: !StarSlash(line, k))
    decreases |line| - i
  {
    if i < |line| && !StarSlash(line, i) {
      BlockEndIsFirst(line, i + 1);
    }
  }

  /** The character at k follows a backslash that is not itself hidden by one. */
  predicate Hidden(line: string, start: nat, k: nat)
    requires k <= |line|
    decreases k
  {
    start < k && line[k - 1] == '\\' && !Hidden(line, start, k - 1)
  }

  ghost predicate OpenQuote(line: string, start: nat, k: nat)
  {
    k < |line| && line[k] == '"' && !Hidden(line, start, k)
  }

  /** A string literal ends behind the first quote that no backslash hides, and only there. */
  lemma {:induction false} QuoteEndIsFirst(line: string, start: nat, i: nat)
    requires start <= i <= |line| && !Hidden(line, start, i)
    ensures var (j, closed) := QuoteEnd(line, i);
      && (closed ==> i < j && OpenQuote(line, start, j - 1))
      && (forall k | i <= k < (if closed then j - 1 else |line|) :: !OpenQuote(line, start, k))
    decreases |line| - i
  {
    if i < |line| && line[i] != '"' {
      if line[i] == '\\' && i + 1 < |line| {
        assert Hidden(line, start, i + 1);
        QuoteEndIsFirst(line, start, i + 2);
      } else if i + 1 < |line| {
        QuoteEndIsFirst(line, start, i + 1);
      }
    }
  }

  // ----- tokens -----

  ghost predicate IsWord(text: string)
  {
    0 < |text| <= WORD_LIMIT && IsAlpha(text[0]) && forall k | 0 <= k < |text| :: IsAlnum(text[k])
  }

  ghost predicate Listed(lang: Lang, word: string)
  {
    match lang
    case LangC(keywords) => word in keywords
    case LangVerilog(keywords) => word in keywords
    case LangRiscv(instructions, registers) => word in instructions || word in registers
  }

  ghost predicate StartsComment(lang: Lang, text: string)
  {
    match lang
    case LangC(_) => "//" <= text || "/*" <= text
    case LangVerilog(_) => "//" <= text
    case LangRiscv(_, _) => "#" <= text
  }

  /** The marker fits the text, and a word without a marker is in no table. */
  ghost predicate Fits(lang: Lang, t: Tok)
  {
    match t.kind
    case None => IsWord(t.text) ==> !Listed(lang, t.text)
    case Some(Keyword) => !lang.LangRiscv? && IsWord(t.text) && Listed(lang, t.text)
    case Some(Instruction) => lang.LangRiscv? && IsWord(t.text) && t.text in lang.instructions
    case Some(Register) =>
      lang.LangRiscv? && IsWord(t.text) && t.text in lang.registers && t.text !in lang.instructions
    case Some(Comment) => StartsComment(lang, t.text)
    case Some(Str) => lang.LangC? && "\"" <= t.text
    case Some(Preprocessor) => lang.LangC? && "#" <= t.text
    case Some(Number) => 0 < |t.text| <= 63 && (IsDigit(t.text[0]) || (lang.LangRiscv? && t.text[0] == '-'))
  }

  lemma WordFits(lang: Lang, line: string, i: nat)
    requires i < |line| && IsAlpha(line[i])
    ensures Fits(lang, WordTok(line, i, WordKind(lang, Word(line, i))))
  {
  }

  lemma TokFits(lang: Lang, line: string, i: nat)
    requires i < |line|
    ensures Fits(lang, TokAt(lang, line, i))
  {
    if IsAlpha(line[i]) {
      WordFits(lang, line, i);
    } else {
      TokAtCovers(lang, line, i);
      OtherFits(lang, line, i);
    }
  }

  lemma OtherFits(lang: Lang, line: string, i: nat)
    requires i < |line| && !IsAlpha(line[i])
    requires Covers(TokAt(lang, line, i), line, i, lang.LangC?)
    ensures Fits(lang, TokAt(lang, line, i))
  {
    hide RunEnd, BlockEnd, QuoteEnd, WordKind;
    var t := TokAt(lang, line, i);
    assert t.text[0] == line[i];
    if t.kind == Some(Comment) && !lang.LangRiscv? {
      assert |t.text| >= 2 && t.text[1] == line[i + 1];
    }
  }

  lemma FirstOrRest(lang: Lang, line: string, i: nat, t: Tok) returns (j: nat)
    requires i < |line| && t in Toks(lang, line, i)
    ensures i < j <= |line| && (Fits(lang, t) || t in Toks(lang, line, j))
  {
    var first;
    first, j := ToksStep(lang, line, i);
    TokFits(lang, line, i);
  }

  /** Every marker of a highlighted line fits what it encloses, and no listed word goes unmarked. */
  lemma {:induction false} MarkersFit(lang: Lang, line: string, i: nat, t: Tok)
    requires i <= |line| && t in Toks(lang, line, i)
    ensures Fits(lang, t)
    decreases |line| - i
  {
    var j := FirstOrRest(lang, line, i, t);
    if t in Toks(lang, line, j) {
      MarkersFit(lang, line, j, t);
    }
  }

  /** The dotted instructions of the table (fence.i, lr.w, amoadd.w and the like) are never marked. */
  lemma DottedNeverMarked(lang: Lang, line: string, t: Tok)
    requires t in Toks(lang, line, 0) && t.kind == Some(Instruction)
    ensures '.' !in t.text
  {
    MarkersFit(lang, line, 0, t);
  }
}
