/** NUL-terminated character buffers and the delimiter-run structure of a string.

    A C string is modelled by the characters before its terminator; `Str` reads one out of a
    buffer.  `Tokens` is the sequence of tokens that repeated strtok calls hand
    out; a delimiter string only matters through the set of its characters. */
module CStrings {
  import opened Options

  const NUL: char := '\0'

  /** The C string stored at index i of a buffer is s. */
  ghost predicate StrAt(b: array<char>, i: nat, s: string)
    reads b
  {
    && i + |s| < b.Length && b[i + |s|] == NUL
    && forall k | 0 <= k < |s| :: s[k] == b[i + k] && s[k] != NUL
  }

  /** The C string that a sequence of characters holds: what stands before the first NUL. */
  function UpToNul(s: string): string
  {
    if s == "" || s[0] == NUL then "" else [s[0]] + UpToNul(s[1..])
  }

  /** The end of the longest run of characters of delim that starts at i. */
  function SkipIn(s: string, i: nat, delim: set<char>): (j: nat)
    requires i <= |s|
    ensures i <= j <= |s|
    ensures forall k | i <= k < j :: s[k] in delim
    ensures j < |s| ==> s[j] !in delim
    decreases |s| - i
  {
    if i == |s| || s[i] !in delim then i else SkipIn(s, i + 1, delim)
  }

  /** The end of the longest run of characters outside delim that starts at i. */
  function SkipOut(s: string, i: nat, delim: set<char>): (j: nat)
    requires i <= |s|
    ensures i <= j <= |s|
    ensures forall k | i <= k < j :: s[k] !in delim
    ensures j < |s| ==> s[j] in delim
    decreases |s| - i
  {
    if i == |s| || s[i] in delim then i else SkipOut(s, i + 1, delim)
  }

  lemma SkipInIs(s: string, i: nat, delim: set<char>, j: nat)
    requires i <= j <= |s|
    requires forall k | i <= k < j :: s[k] in delim
    requires j < |s| ==> s[j] !in delim
    ensures SkipIn(s, i, delim) == j
  {
    var m := SkipIn(s, i, delim);
    assert m < |s| ==> s[m] !in delim;
    assert j < |s| ==> s[j] !in delim;
  }

  lemma SkipOutIs(s: string, i: nat, delim: set<char>, j: nat)
    requires i <= j <= |s|
    requires forall k | i <= k < j :: s[k] !in delim
    requires j < |s| ==> s[j] in delim
    ensures SkipOut(s, i, delim) == j
  {
    var m := SkipOut(s, i, delim);
    assert m < |s| ==> s[m] in delim;
    assert j < |s| ==> s[j] in delim;
  }

  /** What one strtok call yields: the token and the text left for the next call, where the
      delimiter that ended the token has been consumed. */
  function FirstToken(s: string, delim: set<char>): (r: Option<(string, string)>)
    ensures r.Some? ==> r.value.0 != "" && |r.value.1| < |s|
  {
    var k := SkipIn(s, 0, delim);
    if k == |s| then None
    else
      var n := SkipOut(s, k, delim);
      Some((s[k..n], if n < |s| then s[n + 1..] else ""))
  }

  lemma FirstTokenAt(s: string, delim: set<char>, k: nat, n: nat)
    requires k == SkipIn(s, 0, delim) < |s| && n == SkipOut(s, k, delim)
    ensures FirstToken(s, delim) == Some((s[k..n], if n < |s| then s[n + 1..] else ""))
  {
  }

  function Tokens(s: string, delim: set<char>): seq<string>
    decreases |s|
  {
    match FirstToken(s, delim)
    case None => []
    case Some(r) => [r.0] + Tokens(r.1, delim)
  }

  // ----- tokens are exactly the maximal delimiter-free runs, in order -----

  /** Separator, token, separator, ..., token, separator. */
  function Weave(seps: seq<string>, toks: seq<string>): string
    requires |seps| == |toks| + 1
    decreases |toks|
  {
    if toks == [] then seps[0] else seps[0] + (toks[0] + Weave(seps[1..], toks[1..]))
  }

  predicate AllIn(s: string, delim: set<char>) { forall i | 0 <= i < |s| :: s[i] in delim }
  predicate NoneIn(s: string, delim: set<char>) { forall i | 0 <= i < |s| :: s[i] !in delim }

  /** The tokens are non-empty delimiter-free runs and nothing but delimiters lies between them;
      inner separators are non-empty, so every run is maximal. */
  predicate MaximalRuns(seps: seq<string>, toks: seq<string>, delim: set<char>)
  {
    && |seps| == |toks| + 1
    && (forall i | 0 <= i < |toks| :: toks[i] != "" && NoneIn(toks[i], delim))
    && (forall i | 0 <= i < |seps| :: AllIn(seps[i], delim))
    && (forall i | 1 <= i < |toks| :: seps[i] != "")
  }

  /** The head of a run decomposition is what the next strtok call finds. */
  lemma FirstTokenIs(sep: string, tok: string, rest: string, delim: set<char>)
    requires AllIn(sep, delim) && NoneIn(tok, delim) && tok != ""
    requires rest == "" || rest[0] in delim
    ensures FirstToken(sep + (tok + rest), delim)
            == Some((tok, if rest == "" then "" else rest[1..]))
  {
    var s := sep + (tok + rest);
    var k, n := |sep|, |sep| + |tok|;
    assert s[k] == tok[0];
    SkipInIs(s, 0, delim, k);
    assert forall i | k <= i < n :: s[i] == tok[i - k];
    SkipOutIs(s, k, delim, n);
    assert s[k..n] == tok;
    if rest != "" {
      assert s[n + 1..] == rest[1..];
    }
  }

  lemma RunsBehind(seps: seq<string>, toks: seq<string>, delim: set<char>)
    requires MaximalRuns(seps, toks, delim) && toks != []
    ensures MaximalRuns(seps[1..], toks[1..], delim)
    ensures seps[1] != "" ==> MaximalRuns([seps[1][1..]] + seps[1..][1..], toks[1..], delim)
  {
  }

  lemma {:induction false} TokensOfRuns(seps: seq<string>, toks: seq<string>, delim: set<char>)
    requires MaximalRuns(seps, toks, delim)
    ensures Tokens(Weave(seps, toks), delim) == toks
    decreases |toks|
  {
    hide SkipIn, SkipOut;
    if toks == [] {
      SkipInIs(seps[0], 0, delim, |seps[0]|);
    } else {
      var seps1, toks1 := seps[1..], toks[1..];
      var rest := Weave(seps1, toks1);
      WeaveStartsWithSeparator(seps1, toks1);
      assert rest == "" || rest[0] in delim;
      FirstTokenIs(seps[0], toks[0], rest, delim);
      RunsBehind(seps, toks, delim);
      if rest == "" {
        TokensOfRuns(seps1, toks1, delim);
      } else {
        WeaveDropFirst(seps1, toks1);
        TokensOfRuns([seps1[0][1..]] + seps1[1..], toks1, delim);
      }
    }
  }

  lemma WeaveStartsWithSeparator(seps: seq<string>, toks: seq<string>)
    requires |seps| == |toks| + 1
    ensures seps[0] <= Weave(seps, toks)
    ensures toks == [] ==> Weave(seps, toks) == seps[0]
  {
  }

  lemma WeaveDropFirst(seps: seq<string>, toks: seq<string>)
    requires |seps| == |toks| + 1 && seps[0] != ""
    ensures Weave(seps, toks) != ""
    ensures Weave([seps[0][1..]] + seps[1..], toks) == Weave(seps, toks)[1..]
  {
    var seps' := [seps[0][1..]] + seps[1..];
    assert seps'[1..] == seps[1..];
  }

  lemma CutSeq(s: string, k: nat, n: nat)
    requires k <= n <= |s|
    ensures s == s[..k] + (s[k..n] + s[n..])
    ensures n < |s| ==> s[n..] == [s[n]] + s[n + 1..]
  {
  }

  lemma FirstTokenSplits(s: string, delim: set<char>)
    returns (sep: string, tok: string, tail: string, rest: string)
    requires FirstToken(s, delim).Some?
    ensures FirstToken(s, delim) == Some((tok, rest))
    ensures s == sep + (tok + tail) && AllIn(sep, delim) && NoneIn(tok, delim)
    ensures if tail == "" then rest == "" else tail == [tail[0]] + rest && tail[0] in delim
  {
    hide SkipIn;
    var k := SkipIn(s, 0, delim);
    var n := SkipOut(s, k, delim);
    FirstTokenAt(s, delim, k, n);
    sep, tok, tail, rest := s[..k], s[k..n], s[n..], if n < |s| then s[n + 1..] else "";
    CutSeq(s, k, n);
  }

  lemma {:induction false} RunsExist(s: string, delim: set<char>) returns (seps: seq<string>)
    ensures MaximalRuns(seps, Tokens(s, delim), delim)
    ensures Weave(seps, Tokens(s, delim)) == s
    decreases |s|
  {
    if FirstToken(s, delim) == None {
      seps := [s];
      assert AllIn(s, delim);
    } else {
      var sep, tok, tail, rest := FirstTokenSplits(s, delim);
      var more := RunsExist(rest, delim);
      if tail != "" {
        more := GrowFirst(tail[0], more, Tokens(rest, delim), delim);
      } else {
        assert more == [""];
      }
      PrependRun(sep, tok, more, Tokens(rest, delim), delim);
      seps := [sep] + more;
    }
  }

  /** Every string is cut into maximal delimiter-free runs, and strtok returns those. */
  lemma TokensAreMaximalRuns(s: string, delim: set<char>)
    ensures exists seps :: MaximalRuns(seps, Tokens(s, delim), delim)
                           && Weave(seps, Tokens(s, delim)) == s
  {
    var seps := RunsExist(s, delim);
  }

  lemma GrowFirst(c: char, seps: seq<string>, toks: seq<string>, delim: set<char>) returns (seps': seq<string>)
    requires MaximalRuns(seps, toks, delim) && c in delim
    ensures MaximalRuns(seps', toks, delim) && seps'[0] != ""
    ensures Weave(seps', toks) == [c] + Weave(seps, toks)
  {
    seps' := [[c] + seps[0]] + seps[1..];
    assert seps'[1..] == seps[1..];
  }

  lemma PrependRun(sep: string, tok: string, seps: seq<string>, toks: seq<string>, delim: set<char>)
    requires MaximalRuns(seps, toks, delim) && (toks != [] ==> seps[0] != "")
    requires tok != "" && NoneIn(tok, delim) && AllIn(sep, delim)
    ensures MaximalRuns([sep] + seps, [tok] + toks, delim)
    ensures Weave([sep] + seps, [tok] + toks) == sep + (tok + Weave(seps, toks))
  {
    assert ([sep] + seps)[1..] == seps && ([tok] + toks)[1..] == toks;
  }

  // ----- strtok -----

  /** strtok's first inner loop: skip leading delimiters of the string s stored at start. */
  method SkipDelimiters(buf: array<char>, start: nat, ghost s: string, delim: set<char>) returns (i: nat)
    requires StrAt(buf, start, s)
    ensures i == start + SkipIn(s, 0, delim) && (buf[i] == NUL <==> i == start + |s|)
  {
    i := start;
    while buf[i] != NUL && buf[i] in delim
      invariant start <= i <= start + |s|
      invariant forall k | 0 <= k < i - start :: s[k] in delim
      decreases start + |s| - i
    {
      assert s[i - start] == buf[i];
      i := i + 1;
    }
    assert i - start < |s| ==> s[i - start] == buf[i];
    SkipInIs(s, 0, delim, i - start);
  }

  /** strtok's second inner loop: run to the end of the token that starts k characters into s. */
  method SkipToken(buf: array<char>, start: nat, ghost s: string, ghost k: nat, delim: set<char>)
    returns (i: nat)
    requires k <= |s| && k <= start && StrAt(buf, start - k, s)
    ensures i == start - k + SkipOut(s, k, delim)
  {
    i := start;
    ghost var base := start - k;
    while buf[i] != NUL && buf[i] !in delim
      invariant start <= i <= base + |s|
      invariant forall j | k <= j < i - base :: s[j] !in delim
      decreases base + |s| - i
    {
      assert s[i - base] == buf[i];
      i := i + 1;
    }
    SkipOutIs(s, k, delim, i - base);
  }

  /** The end of a round: unless the string s stored at from ends at index end of the buffer, the
      delimiter there is overwritten with NUL, which cuts off s[k..n]. */
  method CutToken(buf: array<char>, end: nat, ghost from: nat, ghost s: string, ghost k: nat, ghost n: nat)
    returns (more: bool)
    requires StrAt(buf, from, s) && k <= n <= |s| && end == from + n
    modifies buf
    ensures forall j | 0 <= j < from :: buf[j] == old(buf[j])
    ensures StrAt(buf, from + k, s[k..n])
    ensures if more then n < |s| && StrAt(buf, end + 1, s[n + 1..]) else n == |s| && buf[end] == NUL
  {
    more := buf[end] != NUL;
    assert n < |s| ==> s[n] == buf[end];
    if more {
      buf[end] := NUL;
    }
  }

  /** One round of tokenising in place: find the token in the string s stored at from, and unless
      the string ends with it overwrite the delimiter behind it with NUL. */
  method TakeToken(buf: array<char>, from: nat, ghost s: string, delim: set<char>)
    returns (start: nat, end: nat, found: bool, more: bool, ghost tok: string, ghost rest: string)
    requires StrAt(buf, from, s)
    modifies buf
    ensures from <= start <= end < buf.Length
    ensures forall j | 0 <= j < from :: buf[j] == old(buf[j])
    ensures FirstToken(s, delim) == if found then Some((tok, rest)) else None
    ensures if found then StrAt(buf, start, tok) && end == start + |tok| else buf[start] == NUL
    ensures found && more ==> StrAt(buf, end + 1, rest)
    ensures found && !more ==> rest == "" && buf[end] == NUL
  {
    hide SkipIn, SkipOut;
    tok, rest := "", "";
    start := SkipDelimiters(buf, from, s, delim);
    ghost var k := start - from;
    if buf[start] == NUL {
      return start, start, false, false, "", "";
    }
    end := SkipToken(buf, start, s, k, delim);
    ghost var n := end - from;
    FirstTokenAt(s, delim, k, n);
    tok, rest := s[k..n], if n < |s| then s[n + 1..] else "";
    more := CutToken(buf, end, from, s, k, n);
    found := true;
  }

  /** strtok's state: the buffer being cut up and the static cursor, -1 standing for NULL. */
  class Tokenizer {
    const buf: array<char>
    var next: int
    ghost var rest: string  // the text still to be scanned

    ghost predicate Valid()
      reads this, buf
    {
      && -1 <= next < buf.Length
      && if next < 0 then rest == "" else StrAt(buf, next, rest)
    }

    /** The first call of strtok on a new string: a private copy of s is being cut up. */
    constructor (s: string)
      requires NUL !in s
      ensures Valid() && fresh(buf) && rest == s
    {
      var b := new char[|s| + 1];
      forall i | 0 <= i < |s| { b[i] := s[i]; }
      b[|s|] := NUL;
      buf := b;
      next := 0;
      rest := s;
    }

    /** One strtok call: the token's start, with the static cursor moved past the delimiter that
        was overwritten with NUL.  The token's text then reads off the buffer at that start. */
    method Next(delim: set<char>) returns (token: Option<nat>)
      requires Valid()
      modifies this, buf
      ensures Valid()
      ensures match FirstToken(old(rest), delim)
              case None => token == None && rest == ""
              case Some(r) => token.Some? && StrAt(buf, token.value, r.0) && rest == r.1
    {
      if next < 0 {
        return None;
      }
      var start, end, found, more;
      ghost var tok, tail;
      start, end, found, more, tok, tail := TakeToken(buf, next, rest, delim);
      if !found {
        next, rest := start, "";
        return None;
      }
      rest := tail;
      next := if more then end + 1 else -1;
      token := Some(start);
    }
  }
}
