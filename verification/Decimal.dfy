/** Decimal numerals: digit strings, their values, and the integer widths of the sources. */
module Decimal {
  import opened Strings

  const TWO_32: int := 0x1_0000_0000
  const TWO_63: int := 0x8000_0000_0000_0000
  const TWO_64: int := 0x1_0000_0000_0000_0000

  type int64 = i: int | -0x8000_0000_0000_0000 <= i < 0x8000_0000_0000_0000
  type uint64 = i: int | 0 <= i < 0x1_0000_0000_0000_0000
  type int32 = i: int | -0x8000_0000 <= i < 0x8000_0000
  type uint32 = i: int | 0 <= i < 0x1_0000_0000

  predicate IsDigit(c: char) { '0' <= c <= '9' }

  function DigitOf(c: char): (d: nat)
    requires IsDigit(c)
    ensures d < 10
  {
    c as int - '0' as int
  }

  function DigitChar(d: nat): (c: char)
    requires d < 10
    ensures IsDigit(c) && DigitOf(c) == d
  {
    (d + '0' as int) as char
  }

  predicate AllDigits(s: string) {
    forall i :: 0 <= i < |s| ==> IsDigit(s[i])
  }

  /** The number a digit string denotes, read left to right. */
  function Value(s: string): nat
    requires AllDigits(s)
    decreases |s|
  {
    if s == "" then 0 else Value(s[..|s| - 1]) * 10 + DigitOf(s[|s| - 1])
  }

  /** The canonical numeral of a natural number. */
  function Digits(n: nat): (s: string)
    ensures s != "" && AllDigits(s)
    decreases n
  {
    if n < 10 then [DigitChar(n)] else Digits(n / 10) + [DigitChar(n % 10)]
  }

  /** The canonical numeral of an integer. */
  function Dec(i: int): string {
    if i < 0 then "-" + Digits(-i) else Digits(i)
  }

  function Pow10(n: nat): (p: nat)
    ensures p >= 1
    decreases n
  {
    if n == 0 then 1 else 10 * Pow10(n - 1)
  }

  lemma {:induction false} Scaled(a: nat, b: nat, q: nat)
    requires a < b
    ensures a * q + q <= b * q
    decreases b
  {
    assert b * q == (b - 1) * q + q;
    if a < b - 1 { Scaled(a, b - 1, q); }
  }

  lemma {:induction false} ValueDigits(n: nat)
    ensures Value(Digits(n)) == n
    decreases n
  {
    if n >= 10 {
      ValueDigits(n / 10);
      var s := Digits(n);
      assert s[..|s| - 1] == Digits(n / 10);
    }
  }

  lemma {:induction false} ValueFront(s: string)
    requires AllDigits(s) && s != ""
    ensures Value(s) == DigitOf(s[0]) * Pow10(|s| - 1) + Value(s[1..])
    decreases |s|
  {
    if |s| > 1 {
      var p, t := s[..|s| - 1], s[1..];
      ValueFront(p);
      assert t[..|t| - 1] == p[1..];
      var d, q, v, e := DigitOf(s[0]), Pow10(|p| - 1), Value(p[1..]), DigitOf(s[|s| - 1]);
      assert Value(t) == v * 10 + e && Value(s) == (d * q + v) * 10 + e && Pow10(|s| - 1) == 10 * q;
      hide Value, Pow10;
      TenTimes(d, q, v);
    } else {
      assert s[1..] == "" && s[..0] == "";
    }
  }

  lemma TenTimes(d: nat, q: nat, v: nat)
    ensures (d * q + v) * 10 == d * (10 * q) + v * 10
  {
  }

  lemma {:induction false} ValueBelow(s: string)
    requires AllDigits(s)
    ensures Value(s) < Pow10(|s|)
    decreases |s|
  {
    if s != "" {
      ValueBelow(s[..|s| - 1]);
    }
  }

  lemma {:induction false} PowMonotone(a: nat, b: nat)
    requires a <= b
    ensures Pow10(a) <= Pow10(b)
    decreases b
  {
    if a < b { PowMonotone(a, b - 1); }
  }

  /** A digit string with no superfluous leading zero. */
  predicate CanonicalNat(s: string) {
    AllDigits(s) && s != "" && (s[0] == '0' ==> s == "0")
  }

  /** A canonical numeral: no plus sign, no leading zeros, no "-0". */
  predicate Canonical(s: string) {
    CanonicalNat(s) || (s != "" && s[0] == '-' && CanonicalNat(s[1..]) && s != "-0")
  }

  /** The integer a canonical numeral denotes. */
  function IntOf(s: string): int
    requires Canonical(s)
  {
    if s[0] == '-' then 0 - Value(s[1..]) else Value(s)
  }

  lemma {:induction false} DigitsCanonical(n: nat)
    ensures CanonicalNat(Digits(n))
    ensures n > 0 ==> Digits(n)[0] != '0'
    decreases n
  {
    if n >= 10 { DigitsCanonical(n / 10); }
  }

  /** A leading digit other than zero bounds the value from below. */
  lemma LeadingDigit(s: string)
    requires AllDigits(s) && s != "" && s[0] != '0'
    ensures Value(s) >= Pow10(|s| - 1)
  {
    ValueFront(s);
    Scaled(0, DigitOf(s[0]), Pow10(|s| - 1));
  }

  lemma {:induction false} CanonicalDigits(s: string)
    requires CanonicalNat(s)
    ensures Digits(Value(s)) == s
    decreases |s|
  {
    if |s| == 1 {
      assert s[..0] == "";
      assert s == [s[0]];
    } else {
      var p := s[..|s| - 1];
      assert p[0] == s[0];
      CanonicalDigits(p);
      LeadingDigit(p);
      DigitsStep(Value(p), DigitOf(s[|s| - 1]));
      assert s == p + [s[|s| - 1]];
    }
  }

  lemma DigitsStep(n: nat, d: nat)
    requires n > 0 && d < 10
    ensures Digits(n * 10 + d) == Digits(n) + [DigitChar(d)]
  {
    var v := n * 10 + d;
    assert v / 10 == n && v % 10 == d;
  }

  /** `Dec` and `IntOf` are inverse bijections between integers and canonical numerals. */
  lemma DecCanonical(i: int)
    ensures Canonical(Dec(i)) && IntOf(Dec(i)) == i
  {
    if i < 0 {
      DigitsCanonical(-i);
      ValueDigits(-i);
      assert Dec(i)[1..] == Digits(-i);
    } else {
      DigitsCanonical(i);
      ValueDigits(i);
    }
  }

  lemma CanonicalDec(s: string)
    requires Canonical(s)
    ensures Dec(IntOf(s)) == s
  {
    if s[0] == '-' {
      var t := s[1..];
      assert s == "-" + t;
      CanonicalDigits(t);
      LeadingDigit(t);
    } else {
      CanonicalDigits(s);
    }
  }

  /** On digit strings of one length, string order is numeric order. */
  lemma {:induction false} SameLengthOrder(s: string, t: string)
    requires AllDigits(s) && AllDigits(t) && |s| == |t|
    ensures Less(s, t) <==> Value(s) < Value(t)
    ensures s == t <==> Value(s) == Value(t)
    decreases |s|
  {
    if s != "" {
      var x, y := s[1..], t[1..];
      SameLengthOrder(x, y);
      assert s == [s[0]] + x && t == [t[0]] + y;
      var a, b, q := DigitOf(s[0]), DigitOf(t[0]), Pow10(|s| - 1);
      assert Value(s) == a * q + Value(x) && Value(t) == b * q + Value(y) by {
        ValueFront(s);
        ValueFront(t);
      }
      ValueBelow(x);
      ValueBelow(y);
      if a < b {
        Scaled(a, b, q);
      } else if b < a {
        Scaled(b, a, q);
      }
    }
  }

  /** A longer canonical numeral denotes a larger number. */
  lemma LengthOrder(s: string, t: string)
    requires CanonicalNat(s) && CanonicalNat(t) && |s| < |t|
    ensures Value(s) < Value(t)
  {
    ValueBelow(s);
    LeadingDigit(t);
    PowMonotone(|s|, |t| - 1);
  }

  lemma TwentyDigits(u: uint64, twenty: nat)
    requires twenty == 20
    ensures u < Pow10(twenty)
  {
    assert Pow10(twenty - 20) == 1;
    hide Pow10;
    PowTen(twenty - 4);
    PowTen(twenty - 8);
    PowTen(twenty - 12);
    PowTen(twenty - 16);
    PowTen(twenty - 20);
  }

  lemma PowTen(n: nat)
    ensures Pow10(n + 4) == 10_000 * Pow10(n)
  {
    assert Pow10(n + 4) == 10 * Pow10(n + 3);
    assert Pow10(n + 3) == 10 * Pow10(n + 2);
    assert Pow10(n + 2) == 10 * Pow10(n + 1);
  }
}
