/** strcmp, strchr, strstr, strncpy and itoa.  Strings that are only read are values; itoa writes its
    caller's buffer and reverses the digits there. */
module StringLib {
  import opened Options
  import opened CStrings

  /** What a pointer into s reads: the terminator stands at index |s|. */
  function CharAt(s: string, i: nat): char
    requires i <= |s|
  {
    if i < |s| then s[i] else NUL
  }

  ghost predicate Agree(s: string, t: string, n: nat)
    requires n <= |s| && n <= |t|
  {
    forall j | 0 <= j < n :: s[j] == t[j]
  }

  /** s sorts before t: at the first difference s has the smaller character (or ends). */
  ghost predicate Before(s: string, t: string)
  {
    exists k | 0 <= k <= |s| && k <= |t| ::
      Agree(s, t, k) && CharAt(s, k) < CharAt(t, k)
  }

  method Strcmp(s: string, t: string) returns (r: int)
    requires NUL !in s && NUL !in t
    ensures r == 0 <==> s == t
    ensures r < 0 <==> Before(s, t)
  {
    var i := 0;
    while CharAt(s, i) != NUL && CharAt(s, i) == CharAt(t, i)
      invariant i <= |s| && i <= |t| && Agree(s, t, i)
      decreases |s| - i
    {
      i := i + 1;
    }
    r := CharAt(s, i) as int - CharAt(t, i) as int;
    ghost var a, b := CharAt(s, i), CharAt(t, i);
    if a < b {
      assert Before(s, t);
    } else {
      FirstDifference(s, t, i);
    }
  }

  lemma FirstDifference(s: string, t: string, i: nat)
    requires NUL !in s && NUL !in t
    requires i <= |s| && i <= |t| && Agree(s, t, i)
    requires CharAt(s, i) > CharAt(t, i) || i == |s|
    requires i == |s| ==> i == |t|
    ensures !Before(s, t)
  {
  }

  method Strchr(s: string, c: char) returns (r: Option<nat>)
    requires NUL !in s
    ensures r.Some? <==> c in s || c == NUL
    ensures r.Some? ==> r.value <= |s| && CharAt(s, r.value) == c && c !in s[..r.value]
  {
    var i := 0;
    while CharAt(s, i) != NUL
      invariant i <= |s| && c !in s[..i]
      decreases |s| - i
    {
      if s[i] == c {
        return Some(i);
      }
      i := i + 1;
    }
    assert s[..i] == s;
    return if c == NUL then Some(i) else None;
  }

  ghost predicate MatchAt(h: string, n: string, i: int)
  {
    0 <= i && i + |n| <= |h| && h[i..i + |n|] == n
  }

  method Strstr(haystack: string, needle: string) returns (r: Option<nat>)
    requires NUL !in haystack && NUL !in needle
    ensures r == None ==> forall i :: !MatchAt(haystack, needle, i)
    ensures r.Some? ==> MatchAt(haystack, needle, r.value)
    ensures r.Some? ==> forall i | i < r.value :: !MatchAt(haystack, needle, i)
  {
    if needle == "" {
      assert MatchAt(haystack, needle, 0);
      return Some(0);
    }
    var p := 0;
    while CharAt(haystack, p) != NUL
      invariant p <= |haystack|
      invariant forall i | i < p :: !MatchAt(haystack, needle, i)
      decreases |haystack| - p
    {
      var n := 0;
      while CharAt(haystack, p + n) == CharAt(needle, n) && CharAt(needle, n) != NUL
        invariant n <= |needle| && p + n <= |haystack| && haystack[p..p + n] == needle[..n]
        decreases |needle| - n
      {
        n := n + 1;
      }
      if CharAt(needle, n) == NUL {
        return Some(p);
      }
      MismatchAt(haystack, needle, p, n);
      p := p + 1;
    }
    return None;
  }

  lemma MismatchAt(h: string, s: string, p: nat, n: nat)
    requires n < |s| && p + n <= |h| && CharAt(h, p + n) != s[n] && s[n] != NUL
    ensures !MatchAt(h, s, p)
  {
    if p + |s| <= |h| {
      assert h[p..p + |s|][n] == h[p + n];
    }
  }

  // ----- strncpy -----

  const WORD: nat := 0x1_0000_0000_0000_0000

  /** How many bytes strncpy writes with len source characters and a count of n to go.  A copying loop
      that ends because the count is zero has moved it to 2^64 - 1 for the padding loop. */
  function StrncpyWrites(len: nat, n: nat): nat
    decreases n
  {
    if n == 0 then WORD - 1
    else if len == 0 then n
    else 1 + StrncpyWrites(len - 1, n - 1)
  }

  /** strncpy stays in n bytes exactly when the source is shorter than n. */
  lemma {:induction false} StrncpyStops(len: nat, n: nat)
    ensures StrncpyWrites(len, n) == if len < n then n else n + WORD - 1
    ensures StrncpyWrites(len, n) <= n <==> len < n
    decreases n
  {
    if n > 0 && len > 0 { StrncpyStops(len - 1, n - 1); }
  }

  /** strncpy of a source that is short enough: a C string, padded with NULs. */
  method Strncpy(dest: array<char>, src: string, n: nat)
    requires NUL !in src && |src| < n <= dest.Length
    modifies dest
    ensures StrAt(dest, 0, src)
    ensures forall k | |src| <= k < n :: dest[k] == NUL
    ensures forall k | n <= k < dest.Length :: dest[k] == old(dest[k])
  {
    var i := 0;
    while i < |src|
      invariant i <= |src|
      invariant forall k | 0 <= k < i :: dest[k] == src[k]
      invariant forall k | n <= k < dest.Length :: dest[k] == old(dest[k])
    {
      dest[i] := src[i];
      i := i + 1;
    }
    while i < n
      invariant |src| <= i <= n
      invariant forall k | 0 <= k < |src| :: dest[k] == src[k]
      invariant forall k | |src| <= k < i :: dest[k] == NUL
      invariant forall k | n <= k < dest.Length :: dest[k] == old(dest[k])
    {
      dest[i] := NUL;
      i := i + 1;
    }
  }

  // ----- numbers -----

  predicate IsDigit(c: char) { '0' <= c <= '9' }

  function Digit(d: nat): (c: char)
    requires d < 36
    ensures c != NUL
    ensures d < 10 ==> c as int == '0' as int + d
  {
    if d < 10 then '0' + d as char else 'a' + (d - 10) as char
  }

  function Digits(n: nat, base: nat): (s: string)
    requires 2 <= base <= 36
    ensures |s| >= 1 && NUL !in s
  {
    if n < base then [Digit(n)]
    else
      DivMod(n, base);
      Digits(n / base, base) + [Digit(n % base)]
  }

  /** The value of an integer literal read left to right, after acc. */
  function DigitValue(c: char): int
  {
    if c < 'a' then c as int - '0' as int else c as int - 'a' as int + 10
  }

  function Evaluate(acc: int, s: string, base: nat): int
    decreases |s|
  {
    if s == "" then acc else Evaluate(acc * base + DigitValue(s[0]), s[1..], base)
  }

  lemma EvaluateStep(acc: int, c: char, rest: string, base: nat)
    ensures Evaluate(acc, [c] + rest, base) == Evaluate(acc * base + DigitValue(c), rest, base)
  {
    assert ([c] + rest)[1..] == rest;
  }

  lemma {:induction false} DigitsEvaluate(n: nat, rest: string, base: nat)
    requires 2 <= base <= 36
    ensures Evaluate(0, Digits(n, base) + rest, base) == Evaluate(n, rest, base)
    decreases n
  {
    if n < base {
      EvaluateStep(0, Digit(n), rest, base);
    } else {
      var q, r := n / base, n % base;
      DivMod(n, base);
      DigitsEvaluate(q, [Digit(r)] + rest, base);
      EvaluateStep(q, Digit(r), rest, base);
      Regroup(Digits(q, base), [Digit(r)], rest);
    }
  }

  lemma DivMod(n: nat, base: nat)
    requires 2 <= base
    ensures n / base * base + n % base == n
    ensures 0 <= n % base < base
    ensures if n < base then n / base == 0 && n % base == n else 1 <= n / base < n
  {
    var q: int, r: int := n / base, n % base;
    assert n == q * base + r && 0 <= r < base;
    if q >= 1 { AtLeast(q, base); }
  }

  lemma {:induction false} AtLeast(q: nat, base: nat)
    requires 1 <= q && 2 <= base
    ensures q * base >= base && q * base >= 2 * q
    decreases q
  {
    if q > 1 {
      AtLeast(q - 1, base);
      assert q * base == (q - 1) * base + base;
    }
  }

  lemma Regroup(a: string, b: string, c: string)
    ensures a + b + c == a + (b + c)
  {
  }

  /** Reading back the digits gives the number: the text determines it in every base. */
  lemma DigitsRoundTrip(n: nat, base: nat)
    requires 2 <= base <= 36
    ensures Evaluate(0, Digits(n, base), base) == n
  {
    DigitsEvaluate(n, "", base);
    assert Digits(n, base) + "" == Digits(n, base);
  }

  /** The digits itoa has still to produce. */
  ghost function DigitsLeft(v: nat, base: nat): string
    requires 2 <= base <= 36
  {
    if v == 0 then "" else Digits(v, base)
  }

  lemma DigitsLeftStep(v: nat, base: nat)
    requires v > 0 && 2 <= base <= 36
    ensures DigitsLeft(v, base) == DigitsLeft(v / base, base) + [Digit(v % base)]
    ensures v / base < v
  {
    DivMod(v, base);
    var q, r := v / base, v % base;
    if v < base {
      assert q == 0 && r == v;
    } else {
      assert Digits(v, base) == Digits(q, base) + [Digit(r)];
    }
  }

  /** The digit that a negative remainder produces: it counts down from '0'. */
  function Mirrored(c: char): (r: char)
  {
    if 0 <= DigitValue(c) < 36 then ('0' as int - DigitValue(c)) as char else c
  }

  function MirroredAll(s: string): string
  {
    seq(|s|, k requires 0 <= k < |s| => Mirrored(s[k]))
  }

  function Abs(v: int): nat { if v < 0 then -v else v }

  /** What itoa writes.  C's remainder keeps the sign, so a negative number comes out without a minus
      sign and with its digits counted down from '0'. */
  function Decimal(value: int, base: nat): string
    requires 2 <= base <= 36
  {
    if value < 0 then MirroredAll(Digits(Abs(value), base)) else Digits(value, base)
  }

  /** C's division and remainder, which round towards zero. */
  function CDiv(v: int, b: nat): int
    requires b > 0
  {
    if v < 0 then -(Abs(v) / b) else v / b
  }

  function CMod(v: int, b: nat): int
    requires b > 0
  {
    if v < 0 then -(Abs(v) % b) else v % b
  }

  lemma CDigit(v: int, base: nat)
    requires 2 <= base <= 36
    ensures Abs(CMod(v, base)) == Abs(v) % base < 36 && Abs(CDiv(v, base)) == Abs(v) / base
    ensures v <= 0 ==> CMod(v, base) <= 0 && CDiv(v, base) <= 0
    ensures v >= 0 ==> CMod(v, base) >= 0 && CDiv(v, base) >= 0
  {
    DivMod(Abs(v), base);
  }

  lemma {:induction false} DigitsInRange(n: nat, base: nat)
    requires 2 <= base <= 36
    ensures forall k | 0 <= k < |Digits(n, base)| :: 0 <= DigitValue(Digits(n, base)[k]) < base
    ensures n > 0 ==> Digits(n, base)[0] != '0'
    decreases n
  {
    DivMod(n, base);
    if n >= base { DigitsInRange(n / base, base); }
  }

  /** The characters that stand for 0 to 35. */
  lemma DigitTable(d: nat)
    requires d < 36
    ensures var table := "0123456789abcdefghijklmnopqrstuvwxyz"; |table| == 36 && Digit(d) == table[d]
  {
  }

  /** A text read with every character's distance from '0' as a digit. */
  function Reading(acc: int, s: string, base: nat): int
    decreases |s|
  {
    if s == "" then acc else Reading(acc * base + (s[0] as int - '0' as int), s[1..], base)
  }

  lemma {:induction false} ReadingMirrors(acc: int, s: string, base: nat)
    requires forall k | 0 <= k < |s| :: 0 <= DigitValue(s[k]) < 36
    ensures Reading(-acc, MirroredAll(s), base) == -Evaluate(acc, s, base)
    decreases |s|
  {
    if s != "" {
      var t, d := MirroredAll(s), DigitValue(s[0]);
      assert t[1..] == MirroredAll(s[1..]) && t[0] as int - '0' as int == -d;
      assert -acc * base + -d == -(acc * base + d);
      ReadingMirrors(acc * base + d, s[1..], base);
    }
  }

  /** What itoa writes for a negative number: its digits below '0' spell the number in every base. */
  lemma NegativeDigits(v: int, base: nat)
    requires v < 0 && 2 <= base <= 36
    ensures Reading(0, Decimal(v, base), base) == v
  {
    var s := Digits(Abs(v), base);
    DigitsInRange(Abs(v), base);
    ReadingMirrors(0, s, base);
    DigitsRoundTrip(Abs(v), base);
  }

  function ItoaChar(tmp: int): char
    requires -36 < tmp < 36
  {
    if tmp < 10 then (tmp + '0' as int) as char else (tmp - 10 + 'a' as int) as char
  }

  lemma ItoaCharIs(d: nat)
    requires d < 36
    ensures ItoaChar(d) == Digit(d) && ItoaChar(0 - d) == Mirrored(Digit(d)) && Mirrored(Digit(d)) != NUL
  {
  }

  lemma NoNul(value: int, base: nat)
    requires 2 <= base <= 36
    ensures NUL !in Decimal(value, base) && |Decimal(value, base)| == |Digits(Abs(value), base)|
  {
    DigitsInRange(Abs(value), base);
  }

  method Itoa(value: int, str: array<char>, base: nat)
    requires 2 <= base <= 36
    requires |Decimal(value, base)| < str.Length
    modifies str
    ensures StrAt(str, 0, Decimal(value, base))
  {
    if value == 0 {
      str[0] := '0';
      str[1] := NUL;
      return;
    }
    NoNul(value, base);
    var ptr := PutReversed(value, str, base);
    str[ptr] := NUL;
    ReverseInPlace(str, ptr, Decimal(value, base));
  }

  /** The loop of itoa: the digits of value, the last one first. */
  method PutReversed(value: int, str: array<char>, base: nat) returns (ptr: nat)
    requires 2 <= base <= 36 && value != 0 && |Decimal(value, base)| < str.Length
    modifies str
    ensures ptr == |Decimal(value, base)|
    ensures forall j | 0 <= j < ptr :: str[j] == Decimal(value, base)[ptr - 1 - j]
  {
    hide Digits;
    NoNul(value, base);
    ghost var d, text := Digits(Abs(value), base), Decimal(value, base);
    var v := value;
    ptr := 0;
    while v != 0
      invariant if value < 0 then v <= 0 else v >= 0
      invariant ptr + |DigitsLeft(Abs(v), base)| == |d| == |text|
      invariant DigitsLeft(Abs(v), base) <= d
      invariant forall j | 0 <= j < ptr :: str[j] == text[|d| - 1 - j]
      decreases Abs(v)
    {
      DigitsLeftStep(Abs(v), base);
      CDigit(v, base);
      ItoaCharIs(Abs(CMod(v, base)));
      assert d[|d| - 1 - ptr] == Digit(Abs(v) % base);
      str[ptr] := ItoaChar(CMod(v, base));
      v, ptr := CDiv(v, base), ptr + 1;
    }
  }

  /** The two-pointer swap at the end of itoa. */
  method ReverseInPlace(str: array<char>, n: nat, ghost d: string)
    requires n == |d| < str.Length && NUL !in d && str[n] == NUL
    requires forall j | 0 <= j < n :: str[j] == d[n - 1 - j]
    modifies str
    ensures StrAt(str, 0, d)
  {
    var lo, hi := 0, n - 1;
    while lo < hi
      invariant 0 <= lo && lo + hi == n - 1 && lo <= hi + 2
      invariant forall j | lo <= j <= hi :: str[j] == d[n - 1 - j]
      invariant forall j | 0 <= j < lo :: str[j] == d[j]
      invariant forall j | hi < j < n :: str[j] == d[j]
      invariant str[n] == NUL
    {
      assert d[n - 1 - lo] == str[lo] && d[n - 1 - hi] == str[hi];
      str[lo], str[hi] := str[hi], str[lo];
      lo, hi := lo + 1, hi - 1;
    }
  }
}
