/** `revision_num_t`: a number, an identifier and the string form that keys documents. */
module Revision {
  import opened Strings
  import opened Decimal

  datatype Rev = Rev(num: uint32, uniq: string, text: string) {
    /** `empty()`. */
    predicate Empty() { num == 0 }
  }

  const EMPTY: Rev := Rev(0, "", "")

  /** `karma::int_` prints a 32-bit signed integer, whatever width it is given. */
  function AsInt32(n: uint32): int32 {
    if n >= 0x8000_0000 then n - 0x1_0000_0000 else n
  }

  /** The constructor from a number and an identifier. */
  function MakeRev(num: uint32, uniq: string): Rev {
    Rev(num, uniq, Dec(AsInt32(num)) + "-" + uniq)
  }

  /** Index of the first `c`, or the length. */
  function Find(s: string, c: char): (i: nat)
    ensures i <= |s| && Without(s[..i], c) && (i < |s| ==> s[i] == c)
    decreases |s|
  {
    if s == "" || s[0] == c then 0
    else
      var i := 1 + Find(s[1..], c);
      assert s[..i] == [s[0]] + s[1..][..i - 1];
      i
  }

  /** `atoi` on digits: a saturating `long`, cut to 32 bits. */
  function Atoi(digits: string): uint32
    requires AllDigits(digits)
  {
    var v := Value(digits);
    (if v >= 0x8000_0000_0000_0000 then 0x7FFF_FFFF_FFFF_FFFF else v) % 0x1_0000_0000
  }

  /** The constructor from a string; none where it raises `sWrongRevision`. */
  function ParseRev(s: string): Option<Rev> {
    if s == "" then Some(EMPTY)
    else
      var pos := Find(s, '-');
      if pos == |s| || pos == 0 || pos == |s| - 1 then None
      else if !AllDigits(s[..pos]) then None
      else Some(Rev(Atoi(s[..pos]), s[pos + 1..], s))
  }

  lemma FindFirst(x: string, c: char, u: string)
    requires Without(x, c)
    ensures Find(x + [c] + u, c) == |x|
  {
    var s := x + [c] + u;
    var i := Find(s, c);
    assert s[|x|] == c;
    forall k | 0 <= k < i ensures s[k] != c { assert s[..i][k] == s[k]; }
    forall k | 0 <= k < |x| ensures s[k] != c { assert s[k] == x[k]; }
  }

  lemma DigitsWithoutDash(n: nat)
    ensures Without(Digits(n), '-')
  {
  }

  /** A revision made from a number and an identifier reads back as itself exactly when the number fits 31
      bits and the identifier is not empty. */
  lemma ParseMake(num: uint32, uniq: string)
    ensures ParseRev(MakeRev(num, uniq).text) == Some(MakeRev(num, uniq)) <==> num < 0x8000_0000 && uniq != ""
  {
    if num < 0x8000_0000 {
      ParsePositive(num, uniq);
    } else {
      var d := Digits(0x1_0000_0000 - num);
      assert MakeRev(num, uniq).text == "" + ['-'] + (d + "-" + uniq);
      FindFirst("", '-', d + "-" + uniq);
    }
  }

  lemma ParsePositive(n: uint32, u: string)
    requires n < 0x8000_0000
    ensures ParseRev(Digits(n) + "-" + u) == if u == "" then None else Some(Rev(n, u, Digits(n) + "-" + u))
  {
    hide Digits;
    var s := Digits(n) + "-" + u;
    DigitsWithoutDash(n);
    FindFirst(Digits(n), '-', u);
    ValueDigits(n);
    assert s[..|Digits(n)|] == Digits(n) && s[|Digits(n)| + 1..] == u;
  }

  /** Digits, a dash and an identifier; the number is that of the digits, at most 2^63-1, cut to 32 bits. */
  ghost predicate Reads(s: string, digits: string, r: Rev) {
    && s == digits + "-" + r.uniq && digits != "" && r.uniq != "" && AllDigits(digits) && r.text == s
    && r.num == (if Value(digits) < 0x8000_0000_0000_0000 then Value(digits) else 0x7FFF_FFFF_FFFF_FFFF) % 0x1_0000_0000
  }

  /** Which strings the constructor takes, and as what. */
  lemma ParseRevExactly(s: string, r: Rev)
    ensures ParseRev(s) == Some(r) <==> if s == "" then r == Rev(0, "", "") else exists digits :: Reads(s, digits, r)
  {
    if s != "" && ParseRev(s) == Some(r) {
      var pos := Find(s, '-');
      assert s == s[..pos] + "-" + s[pos + 1..];
      assert Reads(s, s[..pos], r);
    }
    if digits :| Reads(s, digits, r) {
      DashAfterDigits(digits);
      FindFirst(digits, '-', r.uniq);
      assert s[..|digits|] == digits && s[|digits| + 1..] == r.uniq;
    }
  }

  lemma DashAfterDigits(digits: string)
    requires AllDigits(digits)
    ensures Without(digits, '-')
  {
  }

  /** Different revisions have different strings. */
  lemma TextInjective(n: uint32, u: string, m: uint32, v: string)
    requires MakeRev(n, u).text == MakeRev(m, v).text
    ensures n == m && u == v
  {
    DecDashInjective(AsInt32(n), u, AsInt32(m), v);
  }

  // ---- what every revision object is ----

  /** Read back from its own string. */
  predicate ReadsBack(r: Rev) { ParseRev(r.text) == Some(r) }

  /** The constructors' invariant: made from a number and an identifier, or read from a string, the empty one included. */
  predicate Legit(r: Rev) { r == MakeRev(r.num, r.uniq) || ReadsBack(r) }

  lemma MadeUnreadable(num: uint32, uniq: string)
    requires num >= 0x8000_0000 || uniq == ""
    ensures ParseRev(MakeRev(num, uniq).text) == None
  {
    if num < 0x8000_0000 {
      ParsePositive(num, uniq);
    } else {
      var d := Digits(0x1_0000_0000 - num);
      hide Digits;
      assert MakeRev(num, uniq).text == "" + ['-'] + (d + "-" + uniq);
      FindFirst("", '-', d + "-" + uniq);
    }
  }

  /** A revision's string is read as that revision or not at all. */
  lemma LegitReads(r: Rev)
    requires Legit(r)
    ensures ReadsBack(r) || ParseRev(r.text) == None
  {
    hide MakeRev, ParseRev;
    if r == MakeRev(r.num, r.uniq) {
      ParseMake(r.num, r.uniq);
      if r.num >= 0x8000_0000 || r.uniq == "" { MadeUnreadable(r.num, r.uniq); }
    }
  }

  /** So the string says which revision it is. */
  lemma LegitTextInjective(r: Rev, s: Rev)
    requires Legit(r) && Legit(s) && r.text == s.text
    ensures r == s
  {
    LegitReads(r);
    LegitReads(s);
    if r == MakeRev(r.num, r.uniq) && s == MakeRev(s.num, s.uniq) {
      TextInjective(r.num, r.uniq, s.num, s.uniq);
    }
  }

  function Magnitude(a: int): nat { if a < 0 then 0 - a else a }

  lemma DecDash(a: int, u: string)
    ensures var s := Dec(a) + "-" + u;
      s != "" && (s[0] == '-' <==> a < 0) && (if a < 0 then s[1..] else s) == Digits(Magnitude(a)) + ['-'] + u
  {
    var d := Digits(Magnitude(a));
    assert IsDigit(d[0]);
    hide Digits;
    if a < 0 { assert ("-" + d + "-" + u)[1..] == d + ['-'] + u; }
  }

  lemma DecDashInjective(a: int, u: string, b: int, v: string)
    requires Dec(a) + "-" + u == Dec(b) + "-" + v
    ensures a == b && u == v
  {
    hide Dec, Digits, Value;
    var x, y := Magnitude(a), Magnitude(b);
    DecDash(a, u);
    DecDash(b, v);
    DigitsWithoutDash(x);
    DigitsWithoutDash(y);
    SplitAtFirst(Digits(x), u, Digits(y), v, '-');
    ValueDigits(x);
    ValueDigits(y);
  }

  // ---- the winner between two revisions ----

  /** `is_left_rev_winning`: the higher number, then the shorter, then the smaller identifier. */
  predicate Wins(left: Rev, right: Rev) {
    if left.num != right.num then left.num > right.num
    else if |left.uniq| != |right.uniq| then |left.uniq| < |right.uniq|
    else Less(left.uniq, right.uniq)
  }

  /** `operator==`: the string form does not count. */
  predicate Same(l: Rev, r: Rev) {
    l.num == r.num && l.uniq == r.uniq
  }

  lemma WinsTrichotomy(l: Rev, r: Rev)
    ensures (Wins(l, r) && !Wins(r, l) && !Same(l, r)) || (!Wins(l, r) && Wins(r, l) && !Same(l, r))
         || (!Wins(l, r) && !Wins(r, l) && Same(l, r))
  {
    LessTrichotomy(l.uniq, r.uniq);
  }

  lemma WinsTransitive(a: Rev, b: Rev, c: Rev)
    requires Wins(a, b) && Wins(b, c)
    ensures Wins(a, c)
  {
    if a.num == b.num == c.num && |a.uniq| == |b.uniq| == |c.uniq| {
      LessTransitive(a.uniq, b.uniq, c.uniq);
    }
  }

  /** The smaller character at the first difference. */
  ghost predicate FirstSmaller(a: string, b: string) {
    exists i :: 0 <= i < |a| && i < |b| && a[..i] == b[..i] && a[i] < b[i]
  }

  /** Who wins, in words: the higher number; for equal numbers the shorter identifier; for equal lengths the one
      with the smaller character where they first differ. */
  ghost predicate Beats(l: Rev, r: Rev) {
    || l.num > r.num
    || (l.num == r.num && |l.uniq| < |r.uniq|)
    || (l.num == r.num && |l.uniq| == |r.uniq| && FirstSmaller(l.uniq, r.uniq))
  }

  lemma WinsExactly(l: Rev, r: Rev)
    ensures Wins(l, r) <==> Beats(l, r)
  {
    LessExactly(l.uniq, r.uniq);
    if |l.uniq| == |r.uniq| { EqualLengths(l.uniq, r.uniq); }
  }

  lemma EqualLengths(a: string, b: string)
    requires |a| == |b|
    ensures Precedes(a, b) <==> FirstSmaller(a, b)
  {
    if Precedes(a, b) {
      var i :| 0 <= i <= |a| && i < |b| && a[..i] == b[..i] && (i < |a| ==> a[i] < b[i]);
      assert 0 <= i < |a| && a[..i] == b[..i];
    }
    if FirstSmaller(a, b) {
      var i :| 0 <= i < |a| && i < |b| && a[..i] == b[..i] && a[i] < b[i];
      assert 0 <= i <= |a| && a[..i] == b[..i];
    }
  }

  /** With equal numbers and lengths, one smaller character decides, whatever follows it. */
  lemma WinsByCharacter(num: uint32, p: string, x: char, s: string, y: char, t: string)
    requires |s| == |t| && x < y
    ensures Wins(MakeRev(num, p + [x] + s), MakeRev(num, p + [y] + t))
    ensures !Wins(MakeRev(num, p + [y] + t), MakeRev(num, p + [x] + s))
  {
    FirstDifferenceDecides(p, x, s, y, t);
  }
}
