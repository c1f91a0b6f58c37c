/** What `GenericReader` does with a text: a recursive-descent parser from the characters still unread
    to the events it delivers and the characters left over. */
module ReaderSpec {
  import opened Decimal
  import opened Events

  datatype ParseError =
    | OnlyWhitespace
    | BadRoot
    | TrailingContent
    | NameNotString
    | MissingColon
    | BadMemberEnd
    | BadElementEnd
    | InvalidValue
    | BadHexDigit
    | MissingLowSurrogate
    | BadLowSurrogate
    | UnknownEscape
    | UnterminatedString
    | ControlCharacter
    | ExpectValue
    | NumberTooBig
    | NoFractionDigit
    | NoExponentDigit

  /** Events delivered, then either the characters left, or the error and where it is reported: the number
      of characters from its offset to the end of the text. */
  datatype Parsed =
    | Ok(log: seq<Event>, rest: string)
    | Err(log: seq<Event>, error: ParseError, left: nat)

  /** The two compile-time variants of `ParseNumber`. */
  datatype NumberMode = Lexemes | Numeric

  // ---- the saturating cursor ----

  /** The current character; the text ends in '\0'. */
  function Peek(s: string): char { if s == "" then '\0' else s[0] }

  /** The characters left after taking one; at the end the cursor stays. */
  function Next(s: string): (t: string)
    ensures |t| <= |s| && (s != "" ==> |t| == |s| - 1)
  {
    if s == "" then "" else s[1..]
  }

  predicate IsBlank(c: char) { c == ' ' || c == '\n' || c == '\r' || c == '\t' }

  function SkipWhitespace(s: string): (t: string)
    ensures |t| <= |s|
    decreases |s|
  {
    if IsBlank(Peek(s)) then SkipWhitespace(Next(s)) else s
  }

  // ---- strings ----

  const BACKSPACE: char := '\U{08}'
  const FORM_FEED: char := '\U{0C}'

  /** The reader's escape table; '\0' where it has no entry. */
  function Unescape(e: char): char {
    match e
    case '"' => '"'
    case '/' => '/'
    case '\\' => '\\'
    case 'b' => BACKSPACE
    case 'f' => FORM_FEED
    case 'n' => '\n'
    case 'r' => '\r'
    case 't' => '\t'
    case _ => '\0'
  }

  predicate IsHexDigit(c: char) { IsDigit(c) || 'A' <= c <= 'F' || 'a' <= c <= 'f' }

  function HexValue(c: char): (d: nat)
    requires IsHexDigit(c)
    ensures d < 16
  {
    if IsDigit(c) then DigitOf(c)
    else if 'A' <= c <= 'F' then c as int - 'A' as int + 10
    else c as int - 'a' as int + 10
  }

  datatype Hex = HexOk(codepoint: nat, rest: string) | HexBad(left: nat)

  function Pow16(n: nat): nat {
    if n == 0 then 1 else 16 * Pow16(n - 1)
  }

  /** `n` more hex digits onto `acc`. */
  function HexDigits(s: string, n: nat, acc: nat): (h: Hex)
    ensures h.HexOk? ==> |h.rest| + n <= |s| && h.codepoint < (acc + 1) * Pow16(n)
    ensures h.HexBad? ==> h.left <= |s| + 1
    decreases n
  {
    if n == 0 then HexOk(acc, s)
    else if IsHexDigit(Peek(s)) then
      var d := HexValue(Peek(s));
      HexStep(acc, d, Pow16(n - 1));
      HexDigits(Next(s), n - 1, acc * 16 + d)
    else HexBad(|Next(s)| + 1)
  }

  lemma HexStep(acc: nat, d: nat, p: nat)
    requires d < 16
    ensures (acc * 16 + d + 1) * p <= (acc + 1) * (16 * p)
  {
    assert (acc + 1) * (16 * p) == (acc * 16 + 16) * p;
    assert (acc * 16 + 16) * p == (acc * 16 + d + 1) * p + (15 - d) * p;
  }

  function Hex4(s: string): (h: Hex)
    ensures h.HexOk? ==> |h.rest| + 4 <= |s| && h.codepoint < 0x1_0000
    ensures h.HexBad? ==> h.left <= |s| + 1
  {
    assert Pow16(4) == 0x1_0000;
    HexDigits(s, 4, 0)
  }

  function Byte(n: nat): char
    requires n < 256
  {
    n as char
  }

  /** `UTF8::Encode`; the bit operations are written as divisions, remainders and sums of disjoint bits. */
  function Utf8(codepoint: nat): string
    requires codepoint <= 0x10FFFF
  {
    if codepoint <= 0x7F then
      [Byte(codepoint)]
    else if codepoint <= 0x7FF then
      [Byte(0xC0 + codepoint / 0x40), Byte(0x80 + codepoint % 0x40)]
    else if codepoint <= 0xFFFF then
      [Byte(0xE0 + codepoint / 0x1000), Byte(0x80 + codepoint / 0x40 % 0x40), Byte(0x80 + codepoint % 0x40)]
    else
      [Byte(0xF0 + codepoint / 0x4_0000), Byte(0x80 + codepoint / 0x1000 % 0x40),
       Byte(0x80 + codepoint / 0x40 % 0x40), Byte(0x80 + codepoint % 0x40)]
  }

  datatype Scan = Scanned(chars: string, rest: string) | Bad(error: ParseError, left: nat)

  /** Puts `pre` before what a scan found. */
  function Put(pre: string, r: Scan): Scan {
    match r
    case Scanned(chars, rest) => Scanned(pre + chars, rest)
    case Bad(_, _) => r
  }

  /** A `\u` escape, after the 'u': the code point, its low surrogate if it needs one, and its UTF-8 form. */
  function ScanUnicode(s: string): (r: Scan)
    ensures r.Scanned? ==> |r.rest| <= |s|
    ensures r.Bad? ==> r.left <= |s| + 1
  {
    match Hex4(s)
    case HexBad(left) => Bad(BadHexDigit, left)
    case HexOk(cp, s1) =>
      if 0xD800 <= cp <= 0xDBFF then
        var s2 := Next(s1);
        if Peek(s1) != '\\' then Bad(MissingLowSurrogate, |s2| + 2)
        else if Peek(s2) != 'u' then Bad(MissingLowSurrogate, |Next(s2)| + 2)
        else match Hex4(Next(s2))
          case HexBad(left) => Bad(BadHexDigit, left)
          case HexOk(cp2, s3) =>
            if cp2 < 0xDC00 || cp2 > 0xDFFF then Bad(BadLowSurrogate, |s3| + 2)
            else Scanned(Utf8((cp - 0xD800) * 0x400 + (cp2 - 0xDC00) + 0x1_0000), s3)
      else Scanned(Utf8(cp), s1)
  }

  /** One step inside a string: an escape or an ordinary character. */
  function ScanChar(s: string): (r: Scan)
    requires Peek(s) != '"'
    ensures r.Scanned? ==> |r.rest| < |s|
    ensures r.Bad? ==> r.left <= |s| + 1
  {
    var c := Peek(s);
    if c == '\\' then
      var s1 := Next(s);
      var s2 := Next(s1);
      var e := Peek(s1);
      if Unescape(e) != '\0' then Scanned([Unescape(e)], s2)
      else if e == 'u' then ScanUnicode(s2)
      else Bad(UnknownEscape, |s2| + 1)
    else if c == '\0' then Bad(UnterminatedString, |s| + 1)
    else if c < ' ' then Bad(ControlCharacter, |s| + 1)
    else Scanned([c], Next(s))
  }

  /** The string body up to and including the closing quote, with the terminator it puts. */
  function ScanString(s: string): (r: Scan)
    ensures r.Scanned? ==> |r.rest| < |s|
    ensures r.Bad? ==> r.left <= |s| + 1
    decreases |s|
  {
    if Peek(s) == '"' then Scanned("\0", Next(s))
    else
      match ScanChar(s)
      case Bad(e, left) => Bad(e, left)
      case Scanned(chars, rest) => Put(chars, ScanString(rest))
  }

  /** A whole string, quotes included; the event carries it without the terminator. */
  function ParseString(s: string): (p: Parsed)
    requires Peek(s) == '"'
    ensures p.Ok? ==> |p.rest| < |s| && |p.log| == 1 && p.log[0].String?
    ensures p.Err? ==> p.left <= |s|
  {
    match ScanString(Next(s))
    case Bad(e, left) => Err([], e, left)
    case Scanned(chars, rest) =>
      if chars == "" then Ok([String("")], rest)
      else Ok([String(chars[..|chars| - 1])], rest)
  }

  // ---- numbers, variant 1: the lenient lexer ----

  predicate IsNumberChar(c: char) {
    IsDigit(c) || c == 'E' || c == 'e' || c == '.' || c == '-' || c == '+'
  }

  function Lexeme(s: string): (l: string)
    ensures |l| <= |s|
    decreases |s|
  {
    if IsNumberChar(Peek(s)) then [Peek(s)] + Lexeme(Next(s)) else ""
  }

  // ---- numbers, variant 2: two-phase integers, then doubles (as reals) ----

  /** Digits accumulated onto `i` until a non-digit, or until the next digit would pass `max`. */
  datatype Accumulated = Accumulated(i: nat, rest: string, overflow: bool)

  function Accumulate(i: nat, s: string, max: nat): (a: Accumulated)
    requires i <= max
    ensures a.i <= max && |a.rest| <= |s|
    decreases |s|
  {
    if !IsDigit(Peek(s)) then Accumulated(i, s, false)
    else if i >= max / 10 && (i != max / 10 || DigitOf(Peek(s)) > max % 10) then Accumulated(i, s, true)
    else Accumulate(i * 10 + DigitOf(Peek(s)), Next(s), max)
  }

  function Power(n: nat): real {
    Pow10(n) as real
  }

  /** `internal::Pow10`. */
  function DoublePow10(n: int): real
    requires n <= 308
  {
    if n < -308 then 0.0 else if n >= 0 then Power(n) else 1.0 / Power(-n)
  }

  datatype Float = Float(d: real, rest: string) | FloatErr(error: ParseError, left: nat)

  /** The digits of a number that no longer fits 64 bits. */
  function BigDigits(d: real, s: string): (f: Float)
    ensures f.Float? ==> |f.rest| <= |s|
    ensures f.FloatErr? ==> f.left <= |s|
    decreases |s|
  {
    if !IsDigit(Peek(s)) then Float(d, s)
    else if d >= Power(307) then FloatErr(NumberTooBig, |s|)
    else BigDigits(d * 10.0 + DigitOf(Peek(s)) as real, Next(s))
  }

  datatype Fraction = Fraction(d: real, exp: int, rest: string) | FractionErr(left: nat)

  /** Further fraction digits: the first sixteen count, the rest are skipped. */
  function FractionDigits(d: real, exp: int, s: string): (f: Fraction)
    requires exp <= 0
    ensures f.Fraction? && |f.rest| <= |s| && f.exp <= exp
    decreases |s|
  {
    if !IsDigit(Peek(s)) then Fraction(d, exp, s)
    else if exp > -16 then FractionDigits(d * 10.0 + DigitOf(Peek(s)) as real, exp - 1, Next(s))
    else FractionDigits(d, exp, Next(s))
  }

  /** An optional fraction. */
  function FractionPart(d: real, s: string): (f: Fraction)
    ensures f.Fraction? ==> |f.rest| <= |s| && f.exp <= 0
    ensures f.FractionErr? ==> f.left <= |s|
  {
    var s1 := Next(s);
    if Peek(s) != '.' then Fraction(d, 0, s)
    else if !IsDigit(Peek(s1)) then FractionErr(|s1|)
    else FractionDigits(d * 10.0 + DigitOf(Peek(s1)) as real, -1, Next(s1))
  }

  datatype Exponent = Exponent(exp: int, rest: string) | ExponentErr(error: ParseError, left: nat)

  function ExponentDigits(exp: nat, s: string): (x: Exponent)
    requires exp <= 308
    ensures x.Exponent? ==> |x.rest| <= |s| && 0 <= x.exp <= 308
    ensures x.ExponentErr? ==> x.left <= |s|
    decreases |s|
  {
    if !IsDigit(Peek(s)) then Exponent(exp, s)
    else
      var e := exp * 10 + DigitOf(Peek(s));
      if e > 308 then ExponentErr(NumberTooBig, |Next(s)|) else ExponentDigits(e, Next(s))
  }

  predicate HasExponent(s: string) { Peek(s) == 'e' || Peek(s) == 'E' }

  /** An optional exponent, with its sign. */
  function ExponentPart(s: string): (x: Exponent)
    ensures x.Exponent? ==> |x.rest| <= |s| && x.exp <= 308
    ensures x.ExponentErr? ==> x.left <= |s|
  {
    if !HasExponent(s) then Exponent(0, s)
    else
      var s1 := Next(s);
      var minus := Peek(s1) == '-';
      var s2 := if Peek(s1) == '+' || minus then Next(s1) else s1;
      if !IsDigit(Peek(s2)) then ExponentErr(NoExponentDigit, |s2|)
      else
        var x := ExponentDigits(DigitOf(Peek(s2)), Next(s2));
        if x.Exponent? && minus then x.(exp := 0 - x.exp) else x
  }

  /** Two's complement negation at 32 and 64 bits. */
  function Negate32(u: uint32): int32
    requires u <= 0x8000_0000
  {
    if u == 0x8000_0000 then -0x8000_0000 else 0 - u
  }

  function Negate64(u: uint64): int64
    requires u <= 0x8000_0000_0000_0000
  {
    if u == 0x8000_0000_0000_0000 then -0x8000_0000_0000_0000 else 0 - u
  }

  function Max32(minus: bool): nat { if minus then 0x8000_0000 else 0xFFFF_FFFF }
  function Max64(minus: bool): nat { if minus then 0x8000_0000_0000_0000 else 0xFFFF_FFFF_FFFF_FFFF }

  /** The integer phases: 32 bits, then 64 bits, then the flag that sends the number to the double path. */
  datatype IntPhase =
    | IntPhase(i: nat, try64: bool, useDouble: bool, rest: string)
    | NoDigit(left: nat)

  function IntegerPhases(minus: bool, s: string): (p: IntPhase)
    ensures p.IntPhase? ==> |p.rest| < |s|
    ensures p.NoDigit? ==> p.left <= |s|
    ensures p.IntPhase? ==> p.i <= Max64(minus) && (!p.try64 ==> p.i <= Max32(minus))
  {
    if Peek(s) == '0' then IntPhase(0, false, false, Next(s))
    else if '1' <= Peek(s) <= '9' then
      var a := Accumulate(DigitOf(Peek(s)), Next(s), Max32(minus));
      if a.overflow then
        var b := Accumulate(a.i, a.rest, Max64(minus));
        IntPhase(b.i, true, b.overflow, b.rest)
      else IntPhase(a.i, false, false, a.rest)
    else NoDigit(|s|)
  }

  /** The event for an integer that went through the phases. */
  function IntegerEvent(minus: bool, try64: bool, i: nat): Event
    requires i <= Max64(minus) && (!try64 ==> i <= Max32(minus))
  {
    if try64 then
      if minus then Int64(Negate64(i)) else Uint64(i)
    else
      if minus then Int(Negate32(i)) else Uint(i)
  }

  /** Fraction and exponent, then the event. `d` counts once a double is called for. */
  function NumberTail(minus: bool, i: nat, try64: bool, useDouble: bool, d: real, s: string): (r: Parsed)
    requires i <= Max64(minus) && (!try64 ==> i <= Max32(minus))
    ensures r.Ok? ==> |r.rest| <= |s| && |r.log| == 1 && IsNumber(r.log[0]) && !r.log[0].BigNum?
    ensures r.Err? ==> r.left <= |s|
  {
    match FractionPart(d, s)
    case FractionErr(left) => Err([], NoFractionDigit, left)
    case Fraction(d1, exp, s1) =>
      match ExponentPart(s1)
      case ExponentErr(e, left) => Err([], e, left)
      case Exponent(x, s2) =>
        if useDouble || Peek(s) == '.' || HasExponent(s1) then Ok([DoubleEvent(minus, d1, exp + x)], s2)
        else Ok([IntegerEvent(minus, try64, i)], s2)
  }

  function DoubleEvent(minus: bool, d: real, exp: int): Event
    requires exp <= 308
  {
    var r := d * DoublePow10(exp);
    Double(if minus then -r else r)
  }

  function NumericNumber(s: string): (r: Parsed)
    ensures r.Ok? ==> |r.rest| <= |s| && |r.log| == 1 && IsNumber(r.log[0]) && !r.log[0].BigNum?
    ensures r.Err? ==> r.left <= |s|
  {
    var minus := Peek(s) == '-';
    match IntegerPhases(minus, if minus then Next(s) else s)
    case NoDigit(left) => Err([], ExpectValue, left)
    case IntPhase(i, try64, useDouble, rest) =>
      if useDouble then
        match BigDigits(i as real, rest)
        case FloatErr(e, left) => Err([], e, left)
        case Float(d, rest1) => NumberTail(minus, i, try64, useDouble, d, rest1)
      else NumberTail(minus, i, try64, useDouble, i as real, rest)
  }

  function ParseNumber(mode: NumberMode, s: string): (p: Parsed)
    ensures p.Ok? ==> |p.rest| <= |s| && |p.log| == 1 && IsNumber(p.log[0])
    ensures p.Err? ==> p.left <= |s|
  {
    match mode
    case Lexemes => Ok([BigNum(Lexeme(s))], s[|Lexeme(s)|..])
    case Numeric => NumericNumber(s)
  }

  // ---- values ----

  /** The characters left after taking as many as agree with `word`, plus the first that does not. */
  datatype Taken = Taken(all: bool, rest: string)

  function TakeWord(s: string, word: string): (t: Taken)
    ensures |t.rest| <= |s|
    decreases |word|
  {
    if word == "" then Taken(true, s)
    else if Peek(s) == word[0] then TakeWord(Next(s), word[1..])
    else Taken(false, Next(s))
  }

  /** A literal after its first letter; `back` is how far before the cursor an error is reported. */
  function ParseWord(s: string, word: string, event: Event, back: nat): (p: Parsed)
    requires back <= 1
    ensures p.Ok? ==> |p.rest| <= |s| && p.log == [event]
    ensures p.Err? ==> p.left <= |s| + 1
  {
    var t := TakeWord(s, word);
    if t.all then Ok([event], t.rest) else Err([], InvalidValue, |t.rest| + back)
  }

  /** Puts earlier events before a result. */
  function After(log: seq<Event>, p: Parsed): Parsed {
    p.(log := log + p.log)
  }

  function ParseValue(mode: NumberMode, s: string): (p: Parsed)
    ensures p.Ok? ==> |p.rest| <= |s|
    ensures p.Err? ==> p.left <= |s|
    decreases |s|, 2
  {
    match Peek(s)
    case 'n' => ParseWord(Next(s), "ull", Null, 1)
    case 't' => ParseWord(Next(s), "rue", Bool(true), 0)
    case 'f' => ParseWord(Next(s), "alse", Bool(false), 1)
    case '"' => ParseString(s)
    case '{' => ParseObject(mode, s)
    case '[' => ParseArray(mode, s)
    case _ => ParseNumber(mode, s)
  }

  function ParseArray(mode: NumberMode, s: string): (p: Parsed)
    requires Peek(s) == '['
    ensures p.Ok? ==> |p.rest| < |s|
    ensures p.Err? ==> p.left <= |s|
    decreases |s|, 1
  {
    var s1 := SkipWhitespace(Next(s));
    if Peek(s1) == ']' then Ok([StartArray, EndArray(0)], Next(s1))
    else After([StartArray], ParseElements(mode, s1, 0))
  }

  /** Elements from here to the closing bracket, `count` of them delivered before. */
  function ParseElements(mode: NumberMode, s: string, count: nat): (p: Parsed)
    ensures p.Ok? ==> |p.rest| <= |s|
    ensures p.Err? ==> p.left <= |s|
    decreases |s|, 3
  {
    var v := ParseValue(mode, s);
    if v.Err? then v
    else
      var s1 := SkipWhitespace(v.rest);
      var s2 := Next(s1);
      if Peek(s1) == ',' then After(v.log, ParseElements(mode, SkipWhitespace(s2), count + 1))
      else if Peek(s1) == ']' then Ok(v.log + [EndArray(count + 1)], s2)
      else Err(v.log, BadElementEnd, |s2|)
  }

  function ParseObject(mode: NumberMode, s: string): (p: Parsed)
    requires Peek(s) == '{'
    ensures p.Ok? ==> |p.rest| < |s|
    ensures p.Err? ==> p.left <= |s|
    decreases |s|, 1
  {
    var s1 := SkipWhitespace(Next(s));
    if Peek(s1) == '}' then Ok([StartObject, EndObject(0)], Next(s1))
    else After([StartObject], ParseMembers(mode, s1, 0))
  }

  /** A member's name and its colon, up to the value. */
  function ParseName(s: string): (p: Parsed)
    ensures p.Ok? ==> |p.rest| < |s| && |p.log| == 1 && p.log[0].String?
    ensures p.Err? ==> p.left <= |s|
  {
    if Peek(s) != '"' then Err([], NameNotString, |s|)
    else
      var k := ParseString(s);
      if k.Err? then k
      else
        var s1 := SkipWhitespace(k.rest);
        if Peek(s1) != ':' then Err(k.log, MissingColon, |Next(s1)|)
        else Ok(k.log, SkipWhitespace(Next(s1)))
  }

  function ParseMember(mode: NumberMode, s: string): (p: Parsed)
    ensures p.Ok? ==> |p.rest| <= |s|
    ensures p.Err? ==> p.left <= |s|
    decreases |s|, 3
  {
    var n := ParseName(s);
    if n.Err? then n else After(n.log, ParseValue(mode, n.rest))
  }

  /** Members from here to the closing brace, `count` of them delivered before. */
  function ParseMembers(mode: NumberMode, s: string, count: nat): (p: Parsed)
    ensures p.Ok? ==> |p.rest| <= |s|
    ensures p.Err? ==> p.left <= |s|
    decreases |s|, 4
  {
    var m := ParseMember(mode, s);
    if m.Err? then m
    else
      var s1 := SkipWhitespace(m.rest);
      var s2 := Next(s1);
      if Peek(s1) == ',' then After(m.log, ParseMembers(mode, SkipWhitespace(s2), count + 1))
      else if Peek(s1) == '}' then Ok(m.log + [EndObject(count + 1)], s2)
      else Err(m.log, BadMemberEnd, |s2|)
  }

  /** `Parse`: one object or array, and nothing after it unless trailing text is ignored. */
  function ParseText(mode: NumberMode, ignoreTrailing: bool, text: string): (p: Parsed)
    ensures p.Ok? ==> |p.rest| <= |text|
    ensures p.Err? ==> p.left <= |text|
  {
    var s := SkipWhitespace(text);
    if Peek(s) == '\0' then Err([], OnlyWhitespace, |s|)
    else if Peek(s) != '{' && Peek(s) != '[' then Err([], BadRoot, |s|)
    else
      var r := if Peek(s) == '{' then ParseObject(mode, s) else ParseArray(mode, s);
      if r.Err? then r
      else
        var t := SkipWhitespace(r.rest);
        if !ignoreTrailing && Peek(t) != '\0' then Err(r.log, TrailingContent, |t|)
        else Ok(r.log, t)
  }
}
