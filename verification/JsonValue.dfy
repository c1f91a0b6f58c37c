/** The nine-way JSON variant, big decimal numbers and integer normalisation. */
module JsonValue {
  import opened Strings
  import opened Decimal

  /** The digits of a big number; `digits_.at(0)` is read before anything else, so there is at least one. */
  type Numeral = s: string | s != "" witness "0"

  /** `json_value`. Doubles are finite reals; a map is its key-sorted list of entries. */
  datatype Json =
    | Null
    | Bool(b: bool)
    | Int(i: int64)
    | Double(r: real)
    | Str(s: string)
    | Big(digits: Numeral)
    | Map(entries: seq<Entry>)
    | List(items: seq<Json>)
    | Graft(target: Json)

  /** One key and its value in a `submap_t`. */
  datatype Entry = Entry(key: string, value: Json)

  /** What the program gets from the C library: reading a double (`sscanf "%lf"`) and showing one (`"%.20g"`). */
  datatype Libc = Libc(scan: string -> real, show: real -> string)

  /** The tag order of `json_disc`. */
  function Disc(v: Json): nat {
    match v
    case Null => 0
    case Bool(_) => 1
    case Int(_) => 2
    case Double(_) => 3
    case Str(_) => 4
    case Big(_) => 5
    case Map(_) => 6
    case List(_) => 7
    case Graft(_) => 8
  }

  /** Keys in strictly increasing order, as a `std::map` keeps them. */
  predicate SortedKeys(entries: seq<Entry>) {
    forall i, j :: 0 <= i < j < |entries| ==> Less(entries[i].key, entries[j].key)
  }

  /** Every map at every depth is key-sorted: what the type `submap_t` guarantees. */
  ghost predicate WellFormed(v: Json) {
    match v
    case Map(es) => SortedKeys(es) && forall i :: 0 <= i < |es| ==> WellFormed(es[i].value)
    case List(xs) => forall i :: 0 <= i < |xs| ==> WellFormed(xs[i])
    case Graft(t) => WellFormed(t)
    case _ => true
  }

  // ---- big numbers ----

  predicate Negative(n: Numeral) { n[0] == '-' }

  /** `operator<` on `bignum_t`: sign, then length, then text. */
  predicate BigLess(l: Numeral, r: Numeral) {
    if Negative(l) && !Negative(r) then true
    else if !Negative(l) && Negative(r) then false
    else if |l| != |r| then
      if Negative(l) then |l| > |r| else |l| < |r|
    else if Negative(l) then Less(r, l)
    else Less(l, r)
  }

  const MAX_INT_DECIMAL: Numeral := "9223372036854775807"
  const MIN_INT_DECIMAL: Numeral := "-9223372036854775808"

  /** The window in which `normalize_int` turns a big number into an int. */
  predicate InWindow(n: Numeral) {
    (BigLess(MIN_INT_DECIMAL, n) || n == MIN_INT_DECIMAL) &&
    (BigLess(n, MAX_INT_DECIMAL) || n == MAX_INT_DECIMAL)
  }

  predicate IsSpace(c: char) { c == ' ' || '\t' <= c <= '\r' }

  /** The longest prefix of digits. */
  function DigitPrefix(s: string): (p: string)
    ensures AllDigits(p)
    decreases |s|
  {
    if s != "" && IsDigit(s[0]) then [s[0]] + DigitPrefix(s[1..]) else ""
  }

  function Clamp(i: int): int64 {
    if i < -TWO_63 then -TWO_63 else if i >= TWO_63 then TWO_63 - 1 else i
  }

  /** `atoll`: blanks, an optional sign, then the digits that follow, saturating. */
  function Atoll(s: string): int64
    decreases |s|
  {
    if s == "" then 0
    else if IsSpace(s[0]) then Atoll(s[1..])
    else if s[0] == '-' then Clamp(0 - Value(DigitPrefix(s[1..])))
    else if s[0] == '+' then Clamp(Value(DigitPrefix(s[1..])))
    else Clamp(Value(DigitPrefix(s)))
  }

  /** `normalize_int` on a big number. */
  function NormalizeInt(n: Numeral): Json {
    if InWindow(n) then Int(Atoll(n)) else Big(n)
  }

  // ---- big numbers are a total order, and the order of the integers they spell ----

  lemma BigTrichotomy(l: Numeral, r: Numeral)
    ensures (BigLess(l, r) && !BigLess(r, l) && l != r)
         || (!BigLess(l, r) && BigLess(r, l) && l != r)
         || (!BigLess(l, r) && !BigLess(r, l) && l == r)
  {
    LessTrichotomy(l, r);
  }

  lemma BigTransitive(a: Numeral, b: Numeral, c: Numeral)
    requires BigLess(a, b) && BigLess(b, c)
    ensures BigLess(a, c)
  {
    if |a| == |b| == |c| {
      if Negative(a) && Negative(c) {
        if Negative(b) { LessTransitive(c, b, a); }
      } else if !Negative(a) && !Negative(b) && !Negative(c) {
        LessTransitive(a, b, c);
      }
    }
  }

  lemma NatOrder(a: nat, b: nat)
    ensures |Digits(a)| == |Digits(b)| ==> (Less(Digits(a), Digits(b)) <==> a < b)
    ensures |Digits(a)| < |Digits(b)| ==> a < b
  {
    ValueDigits(a);
    ValueDigits(b);
    DigitsCanonical(a);
    DigitsCanonical(b);
    if |Digits(a)| == |Digits(b)| {
      SameLengthOrder(Digits(a), Digits(b));
    } else if |Digits(a)| < |Digits(b)| {
      LengthOrder(Digits(a), Digits(b));
    }
  }

  lemma DecSign(i: int)
    ensures Dec(i) != "" && (Dec(i)[0] == '-' <==> i < 0)
  {
    DigitsCanonical(if i < 0 then -i else i);
  }

  /** On canonical numerals of any length the order of big numbers is the order of the integers. */
  lemma BigLessIsIntegerOrder(a: int, b: int)
    ensures Dec(a) != "" && Dec(b) != ""
    ensures BigLess(Dec(a), Dec(b)) <==> a < b
  {
    DecSign(a);
    DecSign(b);
    if a >= 0 && b >= 0 {
      NatOrder(a, b);
      NatOrder(b, a);
    } else if a < 0 && b < 0 {
      NatOrder(-a, -b);
      NatOrder(-b, -a);
      assert Dec(a)[1..] == Digits(-a) && Dec(b)[1..] == Digits(-b);
    }
  }

  lemma WindowBounds(lo: int, hi: int)
    requires lo == -TWO_63 && hi == TWO_63 - 1
    ensures Dec(lo) == MIN_INT_DECIMAL && Dec(hi) == MAX_INT_DECIMAL
  {
    hide Value, Digits;
    var t := MIN_INT_DECIMAL[1..];
    assert MIN_INT_DECIMAL == "-" + t && t == "9223372036854775808";
    MaxNumeral(MAX_INT_DECIMAL);
    MinNumeral(t);
    hide CanonicalNat;
    CanonicalDigits(MAX_INT_DECIMAL);
    CanonicalDigits(t);
  }

  /** The value of a numeral one digit longer. */
  lemma ValueSnoc(s: string, c: char)
    requires AllDigits(s) && IsDigit(c)
    ensures AllDigits(s + [c]) && Value(s + [c]) == Value(s) * 10 + DigitOf(c)
  {
    var t := s + [c];
    assert t[..|t| - 1] == s;
  }

  lemma MaxNumeral(s: string)
    requires s == "9223372036854775807"
    ensures CanonicalNat(s) && Value(s) == 9223372036854775807
  {
    CommonNumeral();
    ValueSnoc("922337203685477580", '7');
    assert s == "922337203685477580" + "7";
  }

  lemma MinNumeral(s: string)
    requires s == "9223372036854775808"
    ensures CanonicalNat(s) && Value(s) == 9223372036854775808
  {
    CommonNumeral();
    ValueSnoc("922337203685477580", '8');
    assert s == "922337203685477580" + "8";
  }

  lemma CommonNumeral()
    ensures AllDigits("922337203685477580") && Value("922337203685477580") == 922337203685477580
  {
    var s := "";
    s := Extend(s, 0, '9'); s := Extend(s, 9, '2'); s := Extend(s, 92, '2'); s := Extend(s, 922, '3');
    s := Extend(s, 9223, '3'); s := Extend(s, 92233, '7'); s := Extend(s, 922337, '2'); s := Extend(s, 9223372, '0');
    s := Extend(s, 92233720, '3'); s := Extend(s, 922337203, '6'); s := Extend(s, 9223372036, '8');
    s := Extend(s, 92233720368, '5'); s := Extend(s, 922337203685, '4'); s := Extend(s, 9223372036854, '7');
    s := Extend(s, 92233720368547, '7'); s := Extend(s, 922337203685477, '5'); s := Extend(s, 9223372036854775, '8');
    s := Extend(s, 92233720368547758, '0');
    assert s == "922337203685477580";
  }

  lemma Extend(s: string, v: nat, c: char) returns (t: string)
    requires AllDigits(s) && Value(s) == v && IsDigit(c)
    ensures t == s + [c] && AllDigits(t) && Value(t) == v * 10 + DigitOf(c)
  {
    t := s + [c];
    ValueSnoc(s, c);
  }

  lemma {:induction false} DigitPrefixAll(s: string)
    requires AllDigits(s)
    ensures DigitPrefix(s) == s
    decreases |s|
  {
    if s != "" {
      DigitPrefixAll(s[1..]);
      assert s == [s[0]] + s[1..];
    }
  }

  lemma AtollDec(i: int)
    ensures Atoll(Dec(i)) == Clamp(i)
  {
    DecCanonical(i);
    DecSign(i);
    if i < 0 {
      assert Dec(i)[1..] == Digits(-i);
      DigitPrefixAll(Digits(-i));
      ValueDigits(-i);
    } else {
      DigitPrefixAll(Digits(i));
      ValueDigits(i);
    }
  }

  /** `normalize_int` of a canonical numeral of any length is the int of that value exactly when it fits. */
  lemma NormalizeIsExact(i: int)
    ensures Dec(i) != ""
    ensures -TWO_63 <= i < TWO_63 ==> NormalizeInt(Dec(i)) == Int(i)
    ensures !(-TWO_63 <= i < TWO_63) ==> NormalizeInt(Dec(i)) == Big(Dec(i))
  {
    var lo, hi := -TWO_63, TWO_63 - 1;
    InWindowDec(i, lo, hi);
    AtollDec(i);
  }

  lemma InWindowDec(i: int, lo: int, hi: int)
    requires lo == -TWO_63 && hi == TWO_63 - 1
    ensures Dec(i) != "" && (InWindow(Dec(i)) <==> lo <= i <= hi)
  {
    WindowBounds(lo, hi);
    BigLessIsIntegerOrder(lo, i);
    BigLessIsIntegerOrder(i, hi);
    DecCanonical(lo);
    DecCanonical(hi);
    DecCanonical(i);
  }
}
