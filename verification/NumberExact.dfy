/** The typed number parser is exact: 32 bits, then 64 bits, then doubles, with no wrap-around in between. */
module NumberExact {
  import opened Decimal
  import opened ReaderSpec
  import E = Events

  /** Digits `w` read onto `i`. */
  function Joined(i: nat, w: string): (n: nat)
    requires AllDigits(w)
    ensures n >= i
    decreases |w|
  {
    if w == "" then i else Joined(i * 10 + DigitOf(w[0]), w[1..])
  }

  lemma {:induction false} JoinedSnoc(i: nat, w: string, c: char)
    requires AllDigits(w) && IsDigit(c)
    ensures Joined(i, w + [c]) == Joined(i, w) * 10 + DigitOf(c)
    decreases |w|
  {
    if w == "" {
      assert (w + [c])[1..] == "";
    } else {
      JoinedSnoc(i * 10 + DigitOf(w[0]), w[1..], c);
      assert (w + [c])[1..] == w[1..] + [c];
    }
  }

  lemma {:induction false} JoinedIsValue(w: string)
    requires AllDigits(w)
    ensures Joined(0, w) == Value(w)
    decreases |w|
  {
    if w != "" {
      var p := w[..|w| - 1];
      JoinedIsValue(p);
      JoinedSnoc(0, p, w[|w| - 1]);
      assert p + [w[|w| - 1]] == w;
    }
  }

  lemma OverflowTest(i: nat, d: nat, max: nat)
    requires d < 10
    ensures (i >= max / 10 && (i != max / 10 || d > max % 10)) <==> i * 10 + d > max
  {
    assert max == max / 10 * 10 + max % 10;
  }

  /** One accumulation loop on the digits `w` and then something else: the exact number when it fits, and
      otherwise a stop before a digit with nothing lost. */
  lemma {:induction false} AccumulateExact(i: nat, w: string, k: string, max: nat) returns (left: string)
    requires AllDigits(w) && !IsDigit(Peek(k)) && i <= max
    ensures Joined(i, w) <= max ==> Accumulate(i, w + k, max) == Accumulated(Joined(i, w), k, false)
    ensures Joined(i, w) > max ==> var a := Accumulate(i, w + k, max);
      a.overflow && AllDigits(left) && left != "" && a.rest == left + k && Joined(a.i, left) == Joined(i, w)
    decreases |w|
  {
    left := w;
    if w == "" {
      assert w + k == k;
    } else {
      var s := w + k;
      assert s[1..] == w[1..] + k && s[0] == w[0];
      OverflowTest(i, DigitOf(w[0]), max);
      if i * 10 + DigitOf(w[0]) <= max {
        left := AccumulateExact(i * 10 + DigitOf(w[0]), w[1..], k, max);
      }
    }
  }

  /** What may follow an integer: no digit, no fraction, no exponent. */
  predicate EndsInteger(k: string) {
    var c := Peek(k);
    !IsDigit(c) && c != '.' && c != 'e' && c != 'E'
  }

  /** The phases on a canonical numeral of any length; `left` are the digits left to the double path. */
  lemma PhasesExact(minus: bool, n: nat, k: string) returns (left: string)
    requires !IsDigit(Peek(k))
    ensures n <= Max64(minus) ==> IntegerPhases(minus, Digits(n) + k) == IntPhase(n, n > Max32(minus), false, k)
    ensures n > Max64(minus) ==> var p := IntegerPhases(minus, Digits(n) + k);
      p.IntPhase? && p.try64 && p.useDouble && AllDigits(left) && p.rest == left + k && Joined(p.i, left) == n
  {
    hide Accumulate;
    var w := Digits(n);
    DigitsCanonical(n);
    ValueDigits(n);
    JoinedIsValue(w);
    var s := w + k;
    assert s[0] == w[0] && s[1..] == w[1..] + k;
    if w[0] == '0' {
      assert w == "0" && w[1..] + k == k;
      assert n == 0 by { assert Value("0") == Value("0"[..0]) * 10 + 0; }
      left := "";
    } else {
      var d := DigitOf(w[0]);
      assert Joined(d, w[1..]) == n;
      left := AccumulateExact(d, w[1..], k, Max32(minus));
      if n > Max32(minus) {
        var a := Accumulate(d, w[1..] + k, Max32(minus));
        left := AccumulateExact(a.i, left, k, Max64(minus));
      }
    }
  }

  /** A number read on by at least one digit, and its tens. */
  lemma {:induction false} JoinedTens(i: nat, w: string)
    requires AllDigits(w) && w != ""
    ensures Joined(i, w) / 10 >= i && (|w| == 1 ==> Joined(i, w) / 10 == i)
    decreases |w|
  {
    if |w| == 1 {
      assert w[1..] == "";
    } else {
      JoinedTens(i * 10 + DigitOf(w[0]), w[1..]);
    }
  }

  /** The double path goes on with the same number, and rejects it exactly when a digit is left after 1e307 is
      reached: when its tens reach 1e307. */
  lemma {:induction false} BigDigitsExact(i: nat, w: string, k: string)
    requires AllDigits(w) && w != "" && !IsDigit(Peek(k))
    ensures var f := BigDigits(i as real, w + k); var n := Joined(i, w);
      if (n / 10) as real < Power(307) then f == Float(n as real, k) else f.FloatErr? && f.error == NumberTooBig
    decreases |w|
  {
    hide Power;
    var s := w + k;
    var j := i * 10 + DigitOf(w[0]);
    JoinedTens(i, w);
    assert s[1..] == w[1..] + k && s[0] == w[0];
    if i as real < Power(307) {
      if |w| == 1 {
        assert w[1..] == "" && w[1..] + k == k;
      } else {
        BigDigitsExact(j, w[1..], k);
      }
    }
  }

  /** The largest power of ten the double path can pass. */
  function TenTo308(): nat { Pow10(308) }

  lemma LimitInTens(n: nat, low: nat, high: nat)
    requires low == 307 && high == 308
    ensures n < Pow10(high) <==> n / 10 < Pow10(low)
    ensures Pow10(high) > 0xFFFF_FFFF_FFFF_FFFF
  {
    assert Pow10(high) == 10 * Pow10(low);
    var twenty := 20;
    TwentyDigits(0xFFFF_FFFF_FFFF_FFFF, twenty);
    PowMonotone(twenty, high);
  }

  /** The numeral of `n` with an optional minus. */
  function Numeral(minus: bool, n: nat): string {
    if minus then "-" + Digits(n) else Digits(n)
  }

  /** The event an integer should cause: the narrowest type that holds it, else a double. */
  function ExactEvent(minus: bool, n: nat): E.Event {
    if n > Max64(minus) then E.Double(if minus then 0.0 - n as real else n as real)
    else if minus then
      if n <= 0x8000_0000 then E.Int(0 - n) else E.Int64(0 - n)
    else
      if n <= 0xFFFF_FFFF then E.Uint(n) else E.Uint64(n)
  }

  lemma TailExact(minus: bool, p: IntPhase, n: nat, k: string)
    requires EndsInteger(k) && p.IntPhase? && p.i <= Max64(minus) && (!p.try64 ==> p.i <= Max32(minus))
    requires p.useDouble <==> n > Max64(minus)
    requires !p.useDouble ==> p.i == n && (p.try64 <==> n > Max32(minus))
    ensures NumberTail(minus, p.i, p.try64, p.useDouble, n as real, k) == Ok([ExactEvent(minus, n)], k)
  {
    Unscaled(minus, n);
    NoTail(n as real, k);
    hide FractionPart, ExponentPart, DoubleEvent, Power;
  }

  lemma Unscaled(minus: bool, n: nat)
    ensures DoubleEvent(minus, n as real, 0) == E.Double(if minus then 0.0 - n as real else n as real)
  {
    assert Power(0) == 1.0;
  }

  lemma NoTail(d: real, k: string)
    requires EndsInteger(k)
    ensures FractionPart(d, k) == Fraction(d, 0, k) && ExponentPart(k) == Exponent(0, k)
  {
  }

  lemma Limit(n: nat)
    ensures n < TenTo308() <==> (n / 10) as real < Power(307)
    ensures TenTo308() > 0xFFFF_FFFF_FFFF_FFFF
  {
    var low, high := 307, 308;
    assert TenTo308() == Pow10(high) && Power(307) == Pow10(low) as real;
    hide TenTo308, Power, Pow10;
    LimitInTens(n, low, high);
  }

  /** Every canonical integer text of any length yields exactly its value: in 32 bits when those suffice, else in
      64 bits when those suffice, else as a double below 10^308; from there on, and only there, it is rejected. */
  lemma NumericIsExact(minus: bool, n: nat, k: string)
    requires EndsInteger(k)
    ensures var r := NumericNumber(Numeral(minus, n) + k);
      if n < TenTo308() then r == Ok([ExactEvent(minus, n)], k) else r.Err? && r.error == NumberTooBig
  {
    hide IntegerPhases, BigDigits, Digits, NumberTail, NumericNumber, TenTo308, Power, Pow10, AllDigits;
    Limit(n);
    var left := PhasesExact(minus, n, k);
    SignedText(minus, n, k);
    var p := IntegerPhases(minus, Digits(n) + k);
    TailExact(minus, p, n, k);
    if n > Max64(minus) { BigDigitsExact(p.i, left, k); }
  }

  /** The sign is taken off before the phases begin. */
  lemma SignedText(minus: bool, n: nat, k: string)
    ensures NumericNumber(Numeral(minus, n) + k) ==
      match IntegerPhases(minus, Digits(n) + k)
      case NoDigit(left) => Err([], ExpectValue, left)
      case IntPhase(i, try64, useDouble, rest) =>
        if useDouble then
          match BigDigits(i as real, rest)
          case FloatErr(e, left) => Err([], e, left)
          case Float(d, rest1) => NumberTail(minus, i, try64, useDouble, d, rest1)
        else NumberTail(minus, i, try64, useDouble, i as real, rest)
  {
    DigitsCanonical(n);
    hide IntegerPhases, BigDigits, Digits, NumberTail;
    var s := Numeral(minus, n) + k;
    assert (if minus then Next(s) else s) == Digits(n) + k;
    assert Peek(s) == '-' <==> minus;
  }

  // ---- fractions and exponents ----

  /** An optional fraction and an optional exponent, as written: digits behind a point; a mark, an optional sign and
      digits. */
  datatype Decimals = Decimals(fraction: string, mark: string, sign: string, exponent: string)

  /** The standard's form, with an exponent of at most 308. */
  predicate Proper(x: Decimals) {
    && AllDigits(x.fraction) && AllDigits(x.exponent)
    && (if x.exponent == "" then x.mark == "" && x.sign == "" else x.mark == "e" || x.mark == "E")
    && (x.sign == "" || x.sign == "+" || x.sign == "-")
  }

  function FractionText(f: string): string { if f == "" then "" else "." + f }

  function DecimalText(x: Decimals): string { FractionText(x.fraction) + x.mark + x.sign + x.exponent }

  /** The digits of a fraction that count. */
  function Counted(f: string): (t: string)
    ensures t <= f
  {
    if |f| > 16 then f[..16] else f
  }

  /** `v` is `m` with the point moved by `x` places to the right, or 0 when that leaves the table of powers. */
  predicate Shifted(v: real, m: nat, x: int) {
    if x >= 0 then v == m as real * Pow10(x) as real
    else if x >= -308 then v * Pow10(-x) as real == m as real
    else v == 0.0
  }

  lemma {:induction false} FractionDigitsExact(i: nat, c: nat, f: string, k: string) returns (used: string)
    requires AllDigits(f) && !IsDigit(Peek(k)) && 1 <= c <= 16
    ensures used == if |f| > 16 - c then f[..16 - c] else f
    ensures FractionDigits(i as real, 0 - c, f + k) == Fraction(Joined(i, used) as real, 0 - (c + |used|), k)
    decreases |f|
  {
    var s := f + k;
    if f == "" {
      used := "";
      assert s == k;
    } else {
      assert s[0] == f[0] && s[1..] == f[1..] + k;
      if c < 16 {
        var rest := FractionDigitsExact(i * 10 + DigitOf(f[0]), c + 1, f[1..], k);
        used := [f[0]] + rest;
        assert used[1..] == rest;
      } else {
        var rest := FractionDigitsExact(i, c, f[1..], k);
        used := "";
      }
    }
  }

  lemma NextDigit(n: nat, d: nat)
    ensures n as real * 10.0 + d as real == (n * 10 + d) as real
  {
  }

  lemma FractionUnfold(n: nat, f: string, k: string)
    requires AllDigits(f) && f != ""
    ensures FractionPart(n as real, "." + f + k) == FractionDigits((n * 10 + DigitOf(f[0])) as real, -1, f[1..] + k)
  {
    var s := "." + f + k;
    assert s[1..] == f + k && (f + k)[1..] == f[1..] + k && (f + k)[0] == f[0];
    NextDigit(n, DigitOf(f[0]));
    hide FractionDigits;
  }

  lemma JoinedCons(n: nat, c: char, w: string)
    requires IsDigit(c) && AllDigits(w)
    ensures AllDigits([c] + w) && Joined(n, [c] + w) == Joined(n * 10 + DigitOf(c), w)
  {
    assert ([c] + w)[1..] == w;
  }

  lemma NoFraction(n: nat, k: string)
    requires Peek(k) != '.'
    ensures FractionPart(n as real, FractionText("") + k) == Fraction(Joined(n, Counted("")) as real, 0 - |Counted("")|, k)
  {
    assert FractionText("") + k == k;
  }

  lemma CountedCons(f: string)
    requires f != ""
    ensures Counted(f) == [f[0]] + (if |f[1..]| > 15 then f[1..][..15] else f[1..])
  {
  }

  lemma FractionExact(n: nat, f: string, k: string)
    requires AllDigits(f) && !IsDigit(Peek(k)) && Peek(k) != '.'
    ensures FractionPart(n as real, FractionText(f) + k) == Fraction(Joined(n, Counted(f)) as real, 0 - |Counted(f)|, k)
  {
    if f == "" {
      NoFraction(n, k);
    } else {
      FractionUnfold(n, f, k);
      CountedCons(f);
      assert IsDigit(f[0]) && AllDigits(f[1..]);
      hide FractionPart, FractionDigits, AllDigits, Joined, IsDigit, Counted;
      var used := FractionDigitsExact(n * 10 + DigitOf(f[0]), 1, f[1..], k);
      assert AllDigits(used) by { UsedDigits(f[1..]); }
      JoinedCons(n, f[0], used);
    }
  }

  lemma UsedDigits(f: string)
    requires AllDigits(f)
    ensures AllDigits(if |f| > 15 then f[..15] else f)
  {
  }

  lemma {:induction false} ExponentDigitsExact(i: nat, e: string, k: string)
    requires AllDigits(e) && !IsDigit(Peek(k)) && i <= 308
    ensures var x := ExponentDigits(i, e + k);
      if Joined(i, e) <= 308 then x == Exponent(Joined(i, e), k) else x.ExponentErr? && x.error == NumberTooBig
    decreases |e|
  {
    var s := e + k;
    if e == "" {
      assert s == k;
    } else {
      assert s[0] == e[0] && s[1..] == e[1..] + k;
      if i * 10 + DigitOf(e[0]) <= 308 { ExponentDigitsExact(i * 10 + DigitOf(e[0]), e[1..], k); }
    }
  }

  /** A sign before digits is taken, none is left alone. */
  lemma SignTaken(sign: string, t: string)
    requires (sign == "" || sign == "+" || sign == "-") && t != "" && IsDigit(t[0])
    ensures var s := sign + t;
      (Peek(s) == '-' <==> sign == "-") && (if Peek(s) == '+' || Peek(s) == '-' then Next(s) else s) == t
  {
    var s := sign + t;
    if sign == "" { assert s == t; } else { assert s[0] == sign[0] && s[1..] == t; }
  }

  lemma ExponentUnfold(x: Decimals, k: string)
    requires Proper(x) && x.exponent != ""
    ensures var e := x.exponent;
      var r := ExponentDigits(DigitOf(e[0]), e[1..] + k);
      ExponentPart(x.mark + x.sign + e + k) == if r.Exponent? && x.sign == "-" then r.(exp := 0 - r.exp) else r
  {
    var e := x.exponent;
    var s, t := x.mark + x.sign + e + k, e + k;
    assert HasExponent(s) && s[1..] == x.sign + t;
    assert t[1..] == e[1..] + k && t[0] == e[0];
    SignTaken(x.sign, t);
    hide ExponentDigits, AllDigits, HasExponent, Proper;
  }

  lemma ExponentExact(x: Decimals, k: string)
    requires Proper(x) && EndsInteger(k)
    ensures var r := ExponentPart(x.mark + x.sign + x.exponent + k);
      if Value(x.exponent) > 308 then r.ExponentErr? && r.error == NumberTooBig
      else r == Exponent(if x.sign == "-" then 0 - Value(x.exponent) else Value(x.exponent), k)
  {
    JoinedIsValue(x.exponent);
    var e := x.exponent;
    if e == "" {
      assert x.mark + x.sign + e + k == k;
    } else {
      ExponentUnfold(x, k);
      assert AllDigits(e[1..]);
      hide ExponentPart, ExponentDigits, Value, AllDigits;
      ExponentDigitsExact(DigitOf(e[0]), e[1..], k);
    }
  }

  lemma ShiftedUp(m: nat, x: int)
    requires 0 <= x <= 308
    ensures Shifted(m as real * DoublePow10(x), m, x)
  {
    hide Pow10;
  }

  lemma DownPower(x: int)
    requires -308 <= x < 0
    ensures DoublePow10(x) == 1.0 / (Pow10(-x) as real)
  {
    hide Pow10;
  }

  lemma ShiftedBy(v: real, m: nat, x: int)
    requires -308 <= x < 0 && v * (Pow10(-x) as real) == m as real
    ensures Shifted(v, m, x)
  {
    hide Pow10;
  }

  lemma ShiftedDown(m: nat, x: int)
    requires -308 <= x < 0
    ensures Shifted(m as real * DoublePow10(x), m, x)
  {
    hide *;
    DownPower(x);
    Divided(m as real, Pow10(-x) as real);
    ShiftedBy(m as real * DoublePow10(x), m, x);
  }

  lemma ShiftedOut(m: nat, x: int)
    requires x < -308
    ensures Shifted(m as real * DoublePow10(x), m, x)
  {
    hide Pow10, Power;
  }

  lemma ShiftedEvent(minus: bool, m: nat, x: int)
    requires x <= 308
    ensures exists v :: Shifted(v, m, x) && DoubleEvent(minus, m as real, x) == E.Double(if minus then 0.0 - v else v)
  {
    var v := m as real * DoublePow10(x);
    hide DoublePow10, Shifted;
    if x >= 0 { ShiftedUp(m, x); } else if x >= -308 { ShiftedDown(m, x); } else { ShiftedOut(m, x); }
    assert DoubleEvent(minus, m as real, x) == E.Double(if minus then 0.0 - v else v);
  }

  lemma Divided(m: real, p: real)
    requires p > 0.0
    ensures m * (1.0 / p) * p == m
  {
    assert 1.0 / p * p == 1.0;
    assert m * (1.0 / p) * p == m * (1.0 / p * p);
  }

  /** The exponent less the number of counted digits. */
  function ShiftOf(x: Decimals): int
    requires Proper(x)
  {
    (if x.sign == "-" then 0 - Value(x.exponent) else Value(x.exponent)) - |Counted(x.fraction)|
  }

  lemma TailEnds(minus: bool, p: IntPhase, d: real, s: string, d1: real, e1: int, s1: string, e2: int, rest: string)
    requires p.IntPhase? && p.i <= Max64(minus) && (!p.try64 ==> p.i <= Max32(minus))
    requires FractionPart(d, s) == Fraction(d1, e1, s1) && (Peek(s) == '.' || HasExponent(s1))
    requires ExponentPart(s1) == Exponent(e2, rest)
    ensures e1 + e2 <= 308 && NumberTail(minus, p.i, p.try64, p.useDouble, d, s) == Ok([DoubleEvent(minus, d1, e1 + e2)], rest)
  {
    hide FractionPart, ExponentPart, DoubleEvent, IntegerEvent;
  }

  lemma TailTooBig(minus: bool, p: IntPhase, d: real, s: string, d1: real, e1: int, s1: string)
    requires p.IntPhase? && p.i <= Max64(minus) && (!p.try64 ==> p.i <= Max32(minus))
    requires FractionPart(d, s) == Fraction(d1, e1, s1) && ExponentPart(s1).ExponentErr?
    ensures var r := NumberTail(minus, p.i, p.try64, p.useDouble, d, s); r.Err? && r.error == ExponentPart(s1).error
  {
    hide FractionPart, ExponentPart, DoubleEvent, IntegerEvent;
  }

  /** What the tail makes of a number with a fraction or an exponent. */
  lemma DecimalTail(minus: bool, p: IntPhase, n: nat, x: Decimals, k: string)
    requires p.IntPhase? && p.i <= Max64(minus) && (!p.try64 ==> p.i <= Max32(minus))
    requires Proper(x) && EndsInteger(k) && (x.fraction != "" || x.exponent != "")
    ensures var r := NumberTail(minus, p.i, p.try64, p.useDouble, n as real, DecimalText(x) + k);
      if Value(x.exponent) > 308 then r.Err? && r.error == NumberTooBig
      else r == Ok([DoubleEvent(minus, Joined(n, Counted(x.fraction)) as real, ShiftOf(x))], k)
  {
    hide *;
    var s, t := x.mark + x.sign + x.exponent + k, DecimalText(x) + k;
    TailStarts(x, k);
    TextOfTail(x, k);
    ShiftIs(x);
    DecimalParts(n, x, k, s, t);
    var m, c, e: int := Joined(n, Counted(x.fraction)) as real, |Counted(x.fraction)|, Value(x.exponent);
    if e > 308 {
      TailTooBig(minus, p, n as real, t, m, 0 - c, s);
    } else {
      TailEnds(minus, p, n as real, t, m, 0 - c, s, if x.sign == "-" then 0 - e else e, k);
    }
  }

  lemma DecimalParts(n: nat, x: Decimals, k: string, s: string, t: string)
    requires Proper(x) && EndsInteger(k) && s == x.mark + x.sign + x.exponent + k && t == DecimalText(x) + k
    ensures AllDigits(Counted(x.fraction)) && AllDigits(x.exponent)
    ensures FractionPart(n as real, t) == Fraction(Joined(n, Counted(x.fraction)) as real, 0 - |Counted(x.fraction)|, s)
    ensures var r := ExponentPart(s);
      if Value(x.exponent) > 308 then r.ExponentErr? && r.error == NumberTooBig
      else r == Exponent(if x.sign == "-" then 0 - Value(x.exponent) else Value(x.exponent), k)
  {
    TailStarts(x, k);
    TextOfTail(x, k);
    hide FractionPart, ExponentPart, Value, Joined, DecimalText, FractionText, AllDigits, Proper, EndsInteger;
    FractionExact(n, x.fraction, s);
    ExponentExact(x, k);
  }

  lemma ShiftIs(x: Decimals)
    requires Proper(x)
    ensures ShiftOf(x) == 0 - |Counted(x.fraction)| + (if x.sign == "-" then 0 - Value(x.exponent) else Value(x.exponent))
  {
  }

  lemma TextOfTail(x: Decimals, k: string)
    ensures DecimalText(x) + k == FractionText(x.fraction) + (x.mark + x.sign + x.exponent + k)
    ensures x.fraction != "" ==> Peek(DecimalText(x) + k) == '.'
  {
  }

  lemma TailStarts(x: Decimals, k: string)
    requires Proper(x) && EndsInteger(k)
    ensures var s := x.mark + x.sign + x.exponent + k;
      !IsDigit(Peek(s)) && Peek(s) != '.' && (HasExponent(s) <==> x.exponent != "")
  {
    var s := x.mark + x.sign + x.exponent + k;
    if x.exponent == "" { assert s == k; } else { assert s[0] == x.mark[0]; }
  }

  /** A number with a fraction or an exponent is the double it spells: the integer and the first sixteen digits of
      the fraction, shifted by the exponent less their number; an exponent beyond 308, or an integer from 10^308 on,
      is rejected. */
  lemma DecimalIsExact(minus: bool, n: nat, x: Decimals, k: string)
    requires Proper(x) && EndsInteger(k) && (x.fraction != "" || x.exponent != "")
    ensures var r := NumericNumber(Numeral(minus, n) + (DecimalText(x) + k));
      var m := Joined(n, Counted(x.fraction));
      if n >= TenTo308() || Value(x.exponent) > 308 then r.Err? && r.error == NumberTooBig
      else exists v :: Shifted(v, m, ShiftOf(x)) && r == Ok([E.Double(if minus then 0.0 - v else v)], k)
  {
    var t := DecimalText(x) + k;
    DecimalStarts(x, k);
    Limit(n);
    var left := PhasesExact(minus, n, t);
    SignedText(minus, n, t);
    var p := IntegerPhases(minus, Digits(n) + t);
    hide IntegerPhases, BigDigits, Digits, NumberTail, NumericNumber, TenTo308, Power, Pow10, AllDigits, DoubleEvent, Shifted,
      Value, Joined, DecimalText, EndsInteger, ShiftOf, IsDigit;
    if n > Max64(minus) { BigDigitsExact(p.i, left, t); }
    if n < TenTo308() {
      DecimalTail(minus, p, n, x, k);
      if Value(x.exponent) <= 308 { ShiftedEvent(minus, Joined(n, Counted(x.fraction)), ShiftOf(x)); }
    }
  }

  lemma DecimalStarts(x: Decimals, k: string)
    requires Proper(x) && EndsInteger(k)
    ensures !IsDigit(Peek(DecimalText(x) + k))
  {
    TailStarts(x, k);
    var s := x.mark + x.sign + x.exponent + k;
    assert DecimalText(x) + k == FractionText(x.fraction) + s;
    if x.fraction == "" { assert "" + s == s; }
  }

  lemma JoinedNone(n: nat)
    ensures Joined(n, "") == n
  {
  }

  /** The digits that count spell the number itself. */
  lemma {:induction false} JoinedText(n: nat, f: string)
    requires AllDigits(f)
    ensures AllDigits(Digits(n) + f) && Joined(n, f) == Value(Digits(n) + f)
    decreases |f|
  {
    hide Digits, Joined;
    if f == "" {
      assert Digits(n) + f == Digits(n);
      ValueDigits(n);
      JoinedNone(n);
    } else {
      var g := f[..|f| - 1];
      JoinedText(n, g);
      JoinedSnoc(n, g, f[|f| - 1]);
      assert g + [f[|f| - 1]] == f;
      var t := Digits(n) + f;
      assert t[..|t| - 1] == Digits(n) + g;
    }
  }

  /** A sign without a digit, a point without one, and an exponent without one: reported where the digit is missing. */
  lemma DigitErrors(minus: bool, n: nat, mark: char, sign: string, k: string)
    requires !IsDigit(Peek(k)) && n < TenTo308() && (mark == 'e' || mark == 'E') && sign in ["", "+", "-"]
    requires sign == "" ==> Peek(k) != '+' && Peek(k) != '-'
    ensures (minus || Peek(k) != '-') ==> NumericNumber((if minus then "-" else "") + k) == Err([], ExpectValue, |k|)
    ensures NumericNumber(Numeral(minus, n) + ("." + k)) == Err([], NoFractionDigit, |k|)
    ensures NumericNumber(Numeral(minus, n) + ([mark] + sign + k)) == Err([], NoExponentDigit, |k|)
  {
    Limit(n);
    var t, u := "." + k, [mark] + sign + k;
    if minus || Peek(k) != '-' { NoDigit(minus, k); }
    FractionMissing(n, k);
    ExponentMissing(n, mark, sign, k);
    TailFails(minus, n, t);
    TailFails(minus, n, u);
    hide NumericNumber, FractionPart, ExponentPart, TenTo308, Power;
  }

  lemma NoDigit(minus: bool, k: string)
    requires !IsDigit(Peek(k)) && (minus || Peek(k) != '-')
    ensures NumericNumber((if minus then "-" else "") + k) == Err([], ExpectValue, |k|)
  {
    var s := (if minus then "-" else "") + k;
    if minus { assert s[1..] == k; } else { assert s == k; }
    hide NumberTail, BigDigits, Accumulate;
  }

  lemma FractionMissing(n: nat, k: string)
    requires !IsDigit(Peek(k))
    ensures FractionPart(n as real, "." + k) == FractionErr(|k|)
  {
    assert ("." + k)[1..] == k;
    hide FractionDigits;
  }

  lemma ExponentMissing(n: nat, mark: char, sign: string, k: string)
    requires !IsDigit(Peek(k)) && (mark == 'e' || mark == 'E') && sign in ["", "+", "-"]
    requires sign == "" ==> Peek(k) != '+' && Peek(k) != '-'
    ensures var s := [mark] + sign + k;
      FractionPart(n as real, s) == Fraction(n as real, 0, s) && ExponentPart(s) == ExponentErr(NoExponentDigit, |k|)
  {
    var s := [mark] + sign + k;
    assert s[1..] == sign + k;
    if sign == "" { assert sign + k == k; } else { assert (sign + k)[0] == sign[0] && (sign + k)[1..] == k; }
    hide FractionDigits, ExponentDigits;
  }

  /** What the tail rejects, the whole number parser rejects. */
  lemma TailFails(minus: bool, n: nat, t: string)
    requires !IsDigit(Peek(t)) && n < TenTo308()
    ensures var f := FractionPart(n as real, t);
      (f.FractionErr? ==> NumericNumber(Numeral(minus, n) + t) == Err([], NoFractionDigit, f.left)) &&
      (f.Fraction? && ExponentPart(f.rest).ExponentErr? ==>
        NumericNumber(Numeral(minus, n) + t) == Err([], ExponentPart(f.rest).error, ExponentPart(f.rest).left))
  {
    Limit(n);
    var left := PhasesExact(minus, n, t);
    SignedText(minus, n, t);
    var p := IntegerPhases(minus, Digits(n) + t);
    hide IntegerPhases, BigDigits, Digits, NumericNumber, TenTo308, Power, Pow10, AllDigits, DoubleEvent, IntegerEvent,
      FractionPart, ExponentPart, Joined;
    if n > Max64(minus) { BigDigitsExact(p.i, left, t); }
  }
}
