/** The shell's argument splitter and its number reader. */
module Shell {
  import opened Options
  import opened CStrings
  import opened StringLib

  const BLANKS: set<char> := {' ', '\t'}

  function Take(toks: seq<string>, n: nat): seq<string>
  {
    if n < |toks| then toks[..n] else toks
  }

  /** The first index behind what has been split off when the rest starts at token. */
  ghost function Limit(input: array<char>, token: nat): nat
    requires token < input.Length
    reads input
  {
    if input[token] == NUL then token + 1 else token
  }

  /** The arguments are stored in the buffer and end before index limit. */
  ghost predicate ArgsAt(input: array<char>, args: seq<nat>, words: seq<string>, limit: nat)
    reads input
  {
    && |args| == |words|
    && forall k | 0 <= k < |args| ::
         args[k] + |words[k]| < limit && StrAt(input, args[k], words[k])
  }

  /** parse_command: blanks after each argument are overwritten with NUL and args[] receives the
      start of each argument.  The arguments are the first maxArgs maximal blank-free runs. */
  method ParseCommand(input: array<char>, ghost text: string, maxArgs: nat) returns (args: seq<nat>)
    requires StrAt(input, 0, text)
    modifies input
    ensures ArgsAt(input, args, Take(Tokens(text, {' ', '\t'}), maxArgs), input.Length)
  {
    args := [];
    var token: nat := 0;
    ghost var rest := text;
    ghost var done: seq<string> := [];
    while input[token] != NUL && |args| < maxArgs
      invariant StrAt(input, token, rest)
      invariant done + Tokens(rest, BLANKS) == Tokens(text, BLANKS)
      invariant |done| <= maxArgs
      invariant ArgsAt(input, args, done, Limit(input, token))
      decreases |rest|
    {
      var start, next, found;
      ghost var word, tail;
      start, next, found, word, tail := AddArgument(input, token, rest, args, done);
      if !found {
        rest := "";
        break;
      }
      ShiftHead(done, word, Tokens(tail, BLANKS));
      args, done := args + [start], done + [word];
      token, rest := next, tail;
    }
    assert Tokens("", BLANKS) == [];
  }

  lemma ShiftHead(done: seq<string>, w: string, more: seq<string>)
    ensures done + ([w] + more) == done + [w] + more
  {
  }

  /** One round of the loop: the argument found is stored behind the earlier ones. */
  method AddArgument(input: array<char>, token: nat, ghost rest: string,
                     ghost args: seq<nat>, ghost words: seq<string>)
    returns (start: nat, next: nat, found: bool, ghost word: string, ghost tail: string)
    requires StrAt(input, token, rest) && input[token] != NUL
    requires ArgsAt(input, args, words, token)
    modifies input
    ensures FirstToken(rest, BLANKS) == if found then Some((word, tail)) else None
    ensures !found ==> ArgsAt(input, args, words, input.Length)
    ensures found ==> StrAt(input, next, tail)
                      && ArgsAt(input, args + [start], words + [word], Limit(input, next))
  {
    var end, more;
    start, end, found, more, word, tail := TakeToken(input, token, rest, BLANKS);
    forall k | 0 <= k < |args| ensures args[k] + |words[k]| < token && StrAt(input, args[k], words[k]) {
      assert old(StrAt(input, args[k], words[k]));
    }
    next := if more then end + 1 else end;
  }

  // ----- simple_atoi -----

  /** The accumulator after the leading digits of s. */
  function Accumulate(acc: int, s: string): int
    decreases |s|
  {
    if s == "" || !IsDigit(s[0]) then acc
    else Accumulate(acc * 10 + (s[0] as int - '0' as int), s[1..])
  }

  function Atoi(s: string): int
  {
    if s != "" && s[0] == '-' then -Accumulate(0, s[1..]) else Accumulate(0, s)
  }

  method SimpleAtoi(str: string) returns (r: int)
    requires NUL !in str
    ensures r == Atoi(str)
  {
    var result, sign, i := 0, 1, 0;
    if CharAt(str, 0) == '-' {
      sign, i := -1, 1;
    }
    ghost var start := i;
    while IsDigit(CharAt(str, i))
      invariant start <= i <= |str|
      invariant Accumulate(result, str[i..]) == Accumulate(0, str[start..])
      decreases |str| - i
    {
      assert str[i..][0] == str[i] && str[i..][1..] == str[i + 1..];
      result, i := result * 10 + (str[i] as int - '0' as int), i + 1;
    }
    assert str[0..] == str;
    r := result * sign;
  }

  predicate AllDigits(s: string) { forall i | 0 <= i < |s| :: IsDigit(s[i]) }

  lemma DecimalDigits(n: nat)
    ensures AllDigits(Digits(n, 10))
  {
  }

  lemma {:induction false} AccumulateIsEvaluate(acc: int, s: string)
    requires AllDigits(s)
    ensures Accumulate(acc, s) == Evaluate(acc, s, 10)
    decreases |s|
  {
    if s != "" {
      AccumulateIsEvaluate(acc * 10 + DigitValue(s[0]), s[1..]);
    }
  }

  /** The digits of a natural number read back, with or without a minus sign in front. */
  lemma AtoiReadsDigits(n: nat)
    ensures Atoi(Digits(n, 10)) == n
    ensures Atoi("-" + Digits(n, 10)) == 0 - n
  {
    var d := Digits(n, 10);
    DecimalDigits(n);
    AccumulateIsEvaluate(0, d);
    DigitsRoundTrip(n, 10);
    assert IsDigit(d[0]);
    var m := "-" + d;
    assert m[0] == '-' && m[1..] == d;
  }

  lemma {:induction false} AccumulateStops(acc: int, ds: string, junk: string)
    requires forall i | 0 <= i < |ds| :: '0' <= ds[i] <= '9'
    requires junk == "" || !('0' <= junk[0] <= '9')
    ensures Accumulate(acc, ds + junk) == Evaluate(acc, ds, 10)
    decreases |ds|
  {
    if ds == "" {
      assert ds + junk == junk;
    } else {
      assert (ds + junk)[1..] == ds[1..] + junk;
      AccumulateStops(acc * 10 + DigitValue(ds[0]), ds[1..], junk);
    }
  }

  /** simple_atoi on any text: the value of its leading decimal digits, negated after a minus sign, with
      whatever comes behind them ignored and 0 if there are none. */
  lemma AtoiExact(ds: string, junk: string)
    requires forall i | 0 <= i < |ds| :: '0' <= ds[i] <= '9'
    requires junk == "" || !('0' <= junk[0] <= '9')
    ensures Atoi("-" + (ds + junk)) == -Evaluate(0, ds, 10)
    ensures ds != "" || junk == "" || junk[0] != '-' ==> Atoi(ds + junk) == Evaluate(0, ds, 10)
  {
    assert ("-" + (ds + junk))[1..] == ds + junk;
    AccumulateStops(0, ds, junk);
  }

  lemma {:induction false} NoDigitsButZeros(s: string)
    requires forall i | 0 <= i < |s| :: s[i] <= '0'
    ensures Accumulate(0, s) == 0
    decreases |s|
  {
    if s != "" { NoDigitsButZeros(s[1..]); }
  }

  /** simple_atoi inverts base-10 itoa on exactly the numbers that are not negative; every negative one
      reads back as 0, since itoa writes no minus sign. */
  lemma AtoiInvertsItoa(v: int)
    ensures Atoi(Decimal(v, 10)) == v <==> v >= 0
    ensures v < 0 ==> Atoi(Decimal(v, 10)) == 0
  {
    if v >= 0 {
      AtoiReadsDigits(v);
    } else {
      var s := Decimal(v, 10);
      DigitsInRange(Abs(v), 10);
      forall i | 0 <= i < |s| ensures s[i] <= '0' {
        assert s[i] == Mirrored(Digits(Abs(v), 10)[i]);
      }
      if s[0] == '-' { NoDigitsButZeros(s[1..]); } else { NoDigitsButZeros(s); }
    }
  }

  const INT_MAX: nat := 0x7fff_ffff

  lemma {:induction false} AccumulateGrows(acc: nat, s: string)
    ensures Accumulate(acc, s) >= acc
    decreases |s|
  {
    if s != "" && IsDigit(s[0]) { AccumulateGrows(acc * 10 + (s[0] as int - '0' as int), s[1..]); }
  }

  lemma {:induction false} PrefixBelow(acc: nat, s: string, k: nat)
    requires k <= |s|
    ensures acc <= Accumulate(acc, s[..k]) <= Accumulate(acc, s)
    decreases |s|
  {
    AccumulateGrows(acc, s[..k]);
    AccumulateGrows(acc, s);
    if k > 0 && IsDigit(s[0]) {
      assert s[..k][0] == s[0] && s[..k][1..] == s[1..][..k - 1];
      PrefixBelow(acc * 10 + (s[0] as int - '0' as int), s[1..], k - 1);
    }
  }

  /** simple_atoi overflows an int nowhere on the way if and only if the digits' value is an int. */
  lemma AtoiOverflow(s: string)
    ensures (forall k | 0 <= k <= |s| :: Accumulate(0, s[..k]) <= INT_MAX) <==> Accumulate(0, s) <= INT_MAX
  {
    forall k | 0 <= k <= |s| ensures Accumulate(0, s[..k]) <= Accumulate(0, s) {
      PrefixBelow(0, s, k);
    }
    assert s[..|s|] == s;
  }

  /** No intermediate value of that conversion exceeds n, so reading an int back cannot overflow. */
  lemma {:induction false} AtoiStaysBelow(n: nat, k: nat)
    requires k <= |Digits(n, 10)|
    ensures 0 <= Accumulate(0, Digits(n, 10)[..k]) <= n
  {
    var d := Digits(n, 10);
    if k == |d| {
      assert d[..k] == d;
      DecimalDigits(n);
      AccumulateIsEvaluate(0, d);
      DigitsRoundTrip(n, 10);
    } else if n < 10 {
      assert d[..k] == "";
    } else {
      assert d[..k] == Digits(n / 10, 10)[..k];
      AtoiStaysBelow(n / 10, k);
    }
  }
}
