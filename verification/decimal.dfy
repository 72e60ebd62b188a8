/** Decimal text of integers as Python prints them: `str(n)`, `f"{n:,}"`
    (thousands separators, PEP 378) and `f"{n:+}"` (explicit sign). */
module Decimal {

  predicate IsDigit(c: char) {
    '0' <= c <= '9'
  }

  predicate AllDigits(s: string) {
    forall i :: 0 <= i < |s| ==> IsDigit(s[i])
  }

  function DigitChar(d: int): (c: char)
    requires 0 <= d < 10
    ensures IsDigit(c) && c as int - '0' as int == d
  {
    ('0' as int + d) as char
  }

  function DigitValue(c: char): (d: nat)
    requires IsDigit(c)
    ensures d < 10
  {
    c as int - '0' as int
  }

  /** The decimal digits of `n`, most significant first, without leading zeros. */
  function NatString(n: nat): (s: string)
    ensures 1 <= |s| && AllDigits(s)
    ensures |s| == 1 <==> n < 10
    ensures n > 0 ==> s[0] != '0'
  {
    if n < 10 then [DigitChar(n)] else NatString(n / 10) + [DigitChar(n % 10)]
  }

  /** `str(n)`. */
  function IntString(n: int): (s: string)
    ensures 1 <= |s|
    ensures s[0] == '-' <==> n < 0
    ensures if n < 0 then 2 <= |s| && AllDigits(s[1..]) else AllDigits(s)
    ensures (if n < 0 then s[1..] else s) == NatString(if n < 0 then -n else n)
  {
    if n < 0 then "-" + NatString(-n) else NatString(n)
  }

  /** Reads a string of decimal digits back as a number. */
  function ParseNat(s: string): nat
    requires AllDigits(s)
  {
    if s == [] then 0 else 10 * ParseNat(s[..|s| - 1]) + DigitValue(s[|s| - 1])
  }

  /** Reads `str(n)` back. */
  function ParseInt(s: string): int
    requires 1 <= |s|
    requires if s[0] == '-' then AllDigits(s[1..]) else AllDigits(s)
  {
    if s[0] == '-' then -(ParseNat(s[1..]) as int) else ParseNat(s)
  }

  lemma {:induction false} ParseNatString(n: nat)
    ensures ParseNat(NatString(n)) == n
  {
    if n >= 10 {
      ParseNatString(n / 10);
      var s := NatString(n);
      assert s[..|s| - 1] == NatString(n / 10);
    }
  }

  /** `str` is injective: the integer can be read back from its text. */
  lemma IntStringRoundTrip(n: int)
    ensures ParseInt(IntString(n)) == n
  {
    if n < 0 {
      ParseNatString(-n);
      assert IntString(n)[1..] == NatString(-n);
    } else {
      ParseNatString(n);
    }
  }

  lemma IntStringInjective(m: int, n: int)
    requires IntString(m) == IntString(n)
    ensures m == n
  {
    IntStringRoundTrip(m);
    IntStringRoundTrip(n);
  }

  // ------------------------------------------------------ thousands separators

  /** Removes every comma. */
  function StripCommas(s: string): string {
    if s == [] then [] else (if s[0] == ',' then [] else [s[0]]) + StripCommas(s[1..])
  }

  lemma StripCommasCons(c: char, t: string)
    ensures StripCommas([c] + t) == (if c == ',' then [] else [c]) + StripCommas(t)
  {
    assert ([c] + t)[0] == c && ([c] + t)[1..] == t;
  }

  lemma {:induction false} StripCommasAppend(a: string, b: string)
    ensures StripCommas(a + b) == StripCommas(a) + StripCommas(b)
  {
    if a == [] {
      assert a + b == b;
    } else {
      var c, rest := a[0], a[1..];
      var head := if c == ',' then [] else [c];
      assert a == [c] + rest;
      assert a + b == [c] + (rest + b);
      StripCommasAppend(rest, b);
      StripCommasCons(c, rest + b);
      StripCommasCons(c, rest);
      assert head + (StripCommas(rest) + StripCommas(b)) == (head + StripCommas(rest)) + StripCommas(b);
    }
  }

  lemma {:induction false} StripCommasDigits(s: string)
    requires AllDigits(s)
    ensures StripCommas(s) == s
  {
    if s != [] {
      StripCommasDigits(s[1..]);
    }
  }

  /** PEP 378 layout: digits, with a comma exactly at every position that has
      a multiple of four characters from it to the end, i.e. one comma before
      each full group of three digits counted from the right, and never a
      comma in front. */
  predicate CommaEveryThree(s: string) {
    && (|s| > 0 ==> IsDigit(s[0]))
    && forall i :: 0 <= i < |s| ==>
      (s[i] == ',' <==> (|s| - i) % 4 == 0) && (s[i] != ',' ==> IsDigit(s[i]))
  }

  /** Three digits of `m < 1000`, zero-padded. */
  function Pad3(m: nat): (s: string)
    requires m < 1000
    ensures |s| == 3 && AllDigits(s)
  {
    [DigitChar(m / 100), DigitChar(m / 10 % 10), DigitChar(m % 10)]
  }

  /** The last three digits of a number of at least four digits are a group. */
  lemma NatStringSplit3(n: nat)
    requires n >= 1000
    ensures NatString(n) == NatString(n / 1000) + Pad3(n % 1000)
  {
    var a, b := n / 1000, n % 1000;
    assert n / 10 == 100 * a + b / 10;
    assert n / 100 == 10 * a + b / 100;
    assert n / 10 / 10 == n / 100;
    assert n / 100 / 10 == a;
    assert n / 10 % 10 == b / 10 % 10;
    assert n / 100 % 10 == b / 100;
    assert n % 10 == b % 10;
    assert NatString(n / 10) == NatString(n / 100) + [DigitChar(n / 10 % 10)];
    assert NatString(n / 100) == NatString(a) + [DigitChar(n / 100 % 10)];
  }

  lemma NatStringShort(n: nat)
    requires n < 1000
    ensures |NatString(n)| <= 3
  {
    if n >= 10 {
      assert NatString(n) == NatString(n / 10) + [DigitChar(n % 10)];
      if n >= 100 {
        assert NatString(n / 10) == NatString(n / 100) + [DigitChar(n / 10 % 10)];
      }
    }
  }

  lemma CommaLayoutShort(s: string)
    requires 1 <= |s| <= 3 && AllDigits(s)
    ensures CommaEveryThree(s)
  {
  }

  /** Appending a comma and a group of three digits keeps the layout. */
  lemma CommaLayoutExtend(head: string, tail: string)
    requires CommaEveryThree(head) && |head| > 0
    requires |tail| == 3 && AllDigits(tail)
    ensures CommaEveryThree(head + "," + tail)
  {
    var s := head + "," + tail;
    assert s[0] == head[0];
    forall i | 0 <= i < |s|
      ensures (s[i] == ',' <==> (|s| - i) % 4 == 0) && (s[i] != ',' ==> IsDigit(s[i]))
    {
      if i < |head| {
        assert s[i] == head[i];
        assert |s| - i == (|head| - i) + 4;
      } else if i > |head| {
        assert s[i] == tail[i - |head| - 1];
      }
    }
  }

  /** `f"{n:,}"` for `n >= 0`: the decimal digits with a comma between groups
      of three, counted from the right. */
  function GroupThousands(n: nat): (s: string)
    ensures 1 <= |s|
  {
    if n < 1000 then NatString(n) else GroupThousands(n / 1000) + "," + Pad3(n % 1000)
  }

  /** Removing the commas gives `str(n)` back, and the commas sit exactly where
      PEP 378 puts them. */
  lemma {:induction false} GroupThousandsSpec(n: nat)
    ensures StripCommas(GroupThousands(n)) == NatString(n)
    ensures CommaEveryThree(GroupThousands(n))
  {
    if n < 1000 {
      StripCommasDigits(NatString(n));
      NatStringShort(n);
      CommaLayoutShort(NatString(n));
    } else {
      GroupThousandsSpec(n / 1000);
      var head, tail := GroupThousands(n / 1000), Pad3(n % 1000);
      StripCommasAppend(head + ",", tail);
      StripCommasAppend(head, ",");
      StripCommasDigits(tail);
      NatStringSplit3(n);
      CommaLayoutExtend(head, tail);
    }
  }

  /** Multiplying by a thousand appends the group ",000". */
  lemma GroupThousandsTimes1000(k: nat)
    requires k >= 1
    ensures GroupThousands(1000 * k) == GroupThousands(k) + ",000"
  {
    assert (1000 * k) / 1000 == k && (1000 * k) % 1000 == 0;
    assert Pad3(0) == "000";
  }

  /** `f"{n:,}"` for any integer: a leading minus sign, then the grouped digits. */
  function FormatThousands(n: int): (s: string)
    ensures 1 <= |s| && (s[0] == '-' <==> n < 0)
    ensures if n < 0 then 2 <= |s| && CommaEveryThree(s[1..]) else CommaEveryThree(s)
  {
    var grouped := GroupThousands(if n < 0 then -n else n);
    GroupThousandsSpec(if n < 0 then -n else n);
    assert grouped[0] != '-';
    if n < 0 then
      assert ("-" + grouped)[1..] == grouped;
      "-" + grouped
    else grouped
  }

  /** Removing the commas from `f"{n:,}"` gives `str(n)`. */
  lemma FormatThousandsDigits(n: int)
    ensures StripCommas(FormatThousands(n)) == IntString(n)
  {
    if n < 0 {
      GroupThousandsSpec(-n);
      StripCommasAppend("-", GroupThousands(-n));
    } else {
      GroupThousandsSpec(n);
    }
  }

  // --------------------------------------------------------------- signed text

  /** `f"{n:+}"`: the sign is always written, `+` for zero and above. */
  function SignedString(n: int): (s: string)
    ensures 2 <= |s| && AllDigits(s[1..])
    ensures s[0] == (if n >= 0 then '+' else '-')
    ensures s[1..] == NatString(if n >= 0 then n else -n)
    ensures (if n >= 0 then ParseNat(s[1..]) as int else -(ParseNat(s[1..]) as int)) == n
  {
    var digits := NatString(if n >= 0 then n else -n);
    ParseNatString(if n >= 0 then n else -n);
    assert ([if n >= 0 then '+' else '-'] + digits)[1..] == digits;
    [if n >= 0 then '+' else '-'] + digits
  }
}
