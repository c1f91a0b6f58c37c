/** `GenericReader` over a `BufReadStream`: cursor, string stack and handler, in place. Each method is proved
    to do what the functions of `ReaderSpec` say for the characters from the cursor on. */
module JsonReader {
  import opened Strings
  import opened Decimal
  import opened ReaderSpec
  import opened Events

  /** What `RAPIDJSON_PARSE_ERROR` records before its jump. */
  datatype Failure = Failure(error: ParseError, offset: int)

  // One unfolding of each loop's function.

  lemma HexUnfold(s: string, n: nat, acc: nat)
    ensures n == 0 ==> HexDigits(s, n, acc) == HexOk(acc, s)
    ensures n > 0 && IsHexDigit(Peek(s)) ==> HexDigits(s, n, acc) == HexDigits(Next(s), n - 1, acc * 16 + HexValue(Peek(s)))
    ensures n > 0 && !IsHexDigit(Peek(s)) ==> HexDigits(s, n, acc) == HexBad(|Next(s)| + 1)
    ensures Hex4(s) == HexDigits(s, 4, 0)
  {
  }

  lemma ScanUnfold(put: string, s: string)
    ensures Peek(s) == '"' ==> ReaderSpec.Put(put, ScanString(s)) == Scanned(put + "\0", Next(s))
    ensures Peek(s) != '"' ==>
      match ScanChar(s)
      case Bad(e, left) => ReaderSpec.Put(put, ScanString(s)) == Bad(e, left)
      case Scanned(chars, rest) => ReaderSpec.Put(put, ScanString(s)) == ReaderSpec.Put(put + chars, ScanString(rest))
  {
    hide ScanChar;
    if Peek(s) != '"' && ScanChar(s).Scanned? {
      var r := ScanString(ScanChar(s).rest);
      if r.Scanned? { assert put + (ScanChar(s).chars + r.chars) == put + ScanChar(s).chars + r.chars; }
    }
  }

  lemma AccumulateUnfold(i: nat, s: string, max: nat)
    requires i <= max
    ensures !IsDigit(Peek(s)) ==> Accumulate(i, s, max) == Accumulated(i, s, false)
    ensures IsDigit(Peek(s)) && i >= max / 10 && (i != max / 10 || DigitOf(Peek(s)) > max % 10) ==>
      Accumulate(i, s, max) == Accumulated(i, s, true)
    ensures IsDigit(Peek(s)) && !(i >= max / 10 && (i != max / 10 || DigitOf(Peek(s)) > max % 10)) ==>
      i * 10 + DigitOf(Peek(s)) <= max && Accumulate(i, s, max) == Accumulate(i * 10 + DigitOf(Peek(s)), Next(s), max)
  {
  }

  lemma LexemeUnfold(taken: string, s: string)
    ensures taken + Lexeme(s) == if IsNumberChar(Peek(s)) then taken + [Peek(s)] + Lexeme(Next(s)) else taken
    ensures IsNumberChar(Peek(s)) ==> s != "" && Next(s) == s[1..]
  {
    if IsNumberChar(Peek(s)) {
      assert taken + ([Peek(s)] + Lexeme(Next(s))) == taken + [Peek(s)] + Lexeme(Next(s));
    } else {
      assert taken + "" == taken;
    }
  }

  lemma PutNothing(r: Scan)
    ensures ReaderSpec.Put("", r) == r
  {
    if r.Scanned? { assert "" + r.chars == r.chars; }
  }

  class Reader {
    const mode: NumberMode
    const text: string
    var cursor: nat
    /** Characters of the string being decoded, above whatever was there before. */
    var stack: string
    /** The events the handler has received. */
    var log: seq<Event>

    ghost predicate Valid()
      reads this`cursor
    {
      cursor <= |text|
    }

    function Rest(): string
      requires Valid()
      reads this`cursor
    {
      text[cursor..]
    }

    constructor (mode: NumberMode, text: string)
      ensures this.mode == mode && this.text == text
      ensures Valid() && Rest() == text && stack == "" && log == []
    {
      this.mode := mode;
      this.text := text;
      cursor, stack, log := 0, "", [];
    }

    // ---- the stream ----

    method Current() returns (c: char)
      requires Valid()
      ensures c == Peek(Rest())
    {
      c := if cursor < |text| then text[cursor] else '\0';
    }

    /** `Take`: the cursor saturates at the end of the buffer. */
    method Take() returns (c: char)
      requires Valid()
      modifies this`cursor
      ensures Valid() && c == Peek(old(Rest())) && Rest() == Next(old(Rest()))
    {
      c := Current();
      if cursor < |text| { cursor := cursor + 1; }
    }

    /** An error reported `back` characters before the cursor. */
    function Fail(error: ParseError, back: nat): Option<Failure>
      reads this`cursor
    {
      Some(Failure(error, cursor - back))
    }

    /** The machine after a step whose specification is `p`: events appended, and then either the cursor moved and
        the stack at its entry height, or the error with its offset. */
    ghost predicate Did(log0: seq<Event>, stack0: string, p: Parsed, fail: Option<Failure>)
      reads this
    {
      Valid() && log == log0 + p.log &&
      match p
      case Ok(_, rest) => fail == None && Rest() == rest && stack == stack0
      case Err(_, error, left) => fail == Some(Failure(error, |text| - left))
    }

    method SkipBlanks()
      requires Valid()
      modifies this`cursor
      ensures Valid() && Rest() == SkipWhitespace(old(Rest()))
    {
      var c := Current();
      while IsBlank(c)
        invariant Valid() && c == Peek(Rest())
        invariant SkipWhitespace(Rest()) == SkipWhitespace(old(Rest()))
        decreases |text| - cursor
      {
        var _ := Take();
        c := Current();
      }
    }

    // ---- strings ----

    method Push(c: char)
      modifies this`stack
      ensures stack == old(stack) + [c]
    {
      stack := stack + [c];
    }

    method PushAll(s: string)
      modifies this`stack
      ensures stack == old(stack) + s
    {
      for i := 0 to |s|
        invariant stack == old(stack) + s[..i]
      {
        Push(s[i]);
        assert s[..i + 1] == s[..i] + [s[i]];
      }
      assert s[..|s|] == s;
    }

    /** `Pop`: the top `n` characters, taken off. */
    method Pop(n: nat) returns (s: string)
      requires n <= |stack|
      modifies this`stack
      ensures stack == old(stack[..|stack| - n]) && s == old(stack[|stack| - n..])
    {
      s := stack[|stack| - n..];
      stack := stack[..|stack| - n];
    }

    method ParseHex4() returns (fail: Option<Failure>, codepoint: nat)
      requires Valid()
      modifies this`cursor
      ensures Valid()
      ensures match Hex4(old(Rest()))
        case HexOk(cp, rest) => fail == None && codepoint == cp && Rest() == rest
        case HexBad(left) => fail == Some(Failure(BadHexDigit, |text| - left))
    {
      hide HexDigits, Hex4;
      codepoint, fail := 0, None;
      HexUnfold(Rest(), 4, 0);
      for i := 0 to 4
        invariant Valid() && fail == None
        invariant HexDigits(Rest(), 4 - i, codepoint) == Hex4(old(Rest()))
      {
        HexUnfold(Rest(), 4 - i, codepoint);
        var c := Take();
        codepoint := codepoint * 16;
        if IsHexDigit(c) {
          codepoint := codepoint + HexValue(c);
        } else {
          fail := Fail(BadHexDigit, 1);
          return;
        }
      }
      HexUnfold(Rest(), 0, codepoint);
    }

    /** A `\u` escape, after its 'u'. The code point handed to `Encode` never exceeds U+10FFFF. */
    method ParseUnicode() returns (fail: Option<Failure>)
      requires Valid()
      modifies this`cursor, this`stack
      ensures Valid()
      ensures match ScanUnicode(old(Rest()))
        case Scanned(chars, rest) => fail == None && stack == old(stack) + chars && Rest() == rest
        case Bad(e, left) => fail == Some(Failure(e, |text| - left))
    {
      hide Hex4, Utf8;
      var codepoint;
      fail, codepoint := ParseHex4();
      if fail != None { return; }
      if 0xD800 <= codepoint <= 0xDBFF {
        var c := Take();
        if c != '\\' { fail := Fail(MissingLowSurrogate, 2); return; }
        c := Take();
        if c != 'u' { fail := Fail(MissingLowSurrogate, 2); return; }
        var codepoint2;
        fail, codepoint2 := ParseHex4();
        if fail != None { return; }
        if codepoint2 < 0xDC00 || codepoint2 > 0xDFFF {
          fail := Fail(BadLowSurrogate, 2);
          return;
        }
        codepoint := (codepoint - 0xD800) * 0x400 + (codepoint2 - 0xDC00) + 0x1_0000;
      }
      PushAll(Utf8(codepoint));
    }

    /** One round of the loop in `ParseStringToStream`, at anything but the closing quote. */
    method ParseChar() returns (fail: Option<Failure>)
      requires Valid() && Peek(Rest()) != '"'
      modifies this`cursor, this`stack
      ensures Valid()
      ensures match ScanChar(old(Rest()))
        case Scanned(chars, rest) => fail == None && stack == old(stack) + chars && Rest() == rest
        case Bad(e, left) => fail == Some(Failure(e, |text| - left))
    {
      hide ScanUnicode;
      fail := None;
      var c := Current();
      if c == '\\' {
        var _ := Take();
        var e := Take();
        if Unescape(e) != '\0' {
          Push(Unescape(e));
        } else if e == 'u' {
          fail := ParseUnicode();
        } else {
          fail := Fail(UnknownEscape, 1);
        }
      } else if c == '\0' {
        fail := Fail(UnterminatedString, 1);
      } else if c < ' ' {
        fail := Fail(ControlCharacter, 1);
      } else {
        var taken := Take();
        Push(taken);
      }
    }

    /** `ParseStringToStream` after the opening quote; `length` counts what it put, terminator included. */
    method ParseStringToStream() returns (fail: Option<Failure>, length: nat)
      requires Valid()
      modifies this`cursor, this`stack
      ensures Valid()
      ensures match ScanString(old(Rest()))
        case Scanned(chars, rest) => fail == None && stack == old(stack) + chars && length == |chars| && Rest() == rest
        case Bad(e, left) => fail == Some(Failure(e, |text| - left))
    {
      hide ScanChar, ScanString, ReaderSpec.Put;
      PutNothing(ScanString(Rest()));
      ghost var put := "";
      var base := |stack|;
      fail := None;
      var c := Current();
      while c != '"'
        invariant Valid() && c == Peek(Rest()) && fail == None
        invariant stack == old(stack) + put
        invariant ReaderSpec.Put(put, ScanString(Rest())) == ScanString(old(Rest()))
        decreases |text| - cursor
      {
        ghost var step := ScanChar(Rest());
        ScanUnfold(put, Rest());
        fail := ParseChar();
        if fail != None {
          length := 0;
          return;
        }
        Regroup(old(stack), put, step.chars);
        put := put + step.chars;
        c := Current();
      }
      ScanUnfold(put, Rest());
      Regroup(old(stack), put, "\0");
      var _ := Take();
      Push('\0');
      length := |stack| - base;
    }

    method ParseString() returns (fail: Option<Failure>)
      requires Valid() && Peek(Rest()) == '"'
      modifies this
      ensures Did(old(log), old(stack), ReaderSpec.ParseString(old(Rest())), fail)
    {
      hide ScanString;
      var _ := Take();
      var length;
      fail, length := ParseStringToStream();
      if fail == None {
        var s := Pop(length);
        assert stack == old(stack);
        log := log + [String(if s == "" then "" else s[..length - 1])];
      } else {
        assert log + [] == log;
      }
    }

    // ---- numbers ----

    /** The lenient variant: number characters onto the stack, a terminator, and one `BigNum` event. */
    method ParseLexeme()
      requires Valid()
      modifies this
      ensures Valid() && stack == old(stack)
      ensures log == old(log) + [BigNum(Lexeme(old(Rest())))] && Rest() == old(Rest())[|Lexeme(old(Rest()))|..]
    {
      hide Lexeme, IsNumberChar;
      ghost var taken, all := "", Lexeme(Rest());
      LexemeUnfold("", Rest());
      assert "" + all == all;
      var base := |stack|;
      var ch := Current();
      while IsNumberChar(ch)
        invariant Valid() && ch == Peek(Rest())
        invariant stack == old(stack) + taken && log == old(log)
        invariant taken + Lexeme(Rest()) == all
        invariant |taken| <= |old(Rest())| && Rest() == old(Rest())[|taken|..]
        decreases |text| - cursor
      {
        LexemeUnfold(taken, Rest());
        var c := Take();
        Push(c);
        taken := taken + [c];
        ch := Current();
      }
      LexemeUnfold(taken, Rest());
      Push('\0');
      var s := Pop(|stack| - base);
      assert stack == old(stack) && s == taken + "\0" && s[..|s| - 1] == taken;
      log := log + [BigNum(s[..|s| - 1])];
    }

    /** The four integer loops: digits onto `i` while the next one stays within `max`. The products are
        computed modulo `width`, and never reach it. */
    method AccumulateDigits(start: nat, max: nat, width: nat) returns (i: nat, overflow: bool)
      requires Valid() && start <= max < width
      modifies this`cursor
      ensures Valid()
      ensures var a := Accumulate(start, old(Rest()), max); a == Accumulated(i, Rest(), overflow)
    {
      hide Accumulate;
      i, overflow := start, false;
      var c := Current();
      while IsDigit(c)
        invariant Valid() && c == Peek(Rest()) && i <= max && !overflow
        invariant Accumulate(i, Rest(), max) == Accumulate(start, old(Rest()), max)
        decreases |text| - cursor
      {
        AccumulateUnfold(i, Rest(), max);
        if i >= max / 10 {
          if i != max / 10 || DigitOf(c) > max % 10 {
            overflow := true;
            return;
          }
        }
        WithinMax(i, DigitOf(c), max, width);
        i := (i * 10 + DigitOf(c)) % width;
        var _ := Take();
        c := Current();
      }
      AccumulateUnfold(i, Rest(), max);
    }

    method BigDigitsLoop(start: real) returns (fail: Option<Failure>, d: real)
      requires Valid()
      modifies this`cursor
      ensures Valid()
      ensures match BigDigits(start, old(Rest()))
        case Float(r, rest) => fail == None && d == r && Rest() == rest
        case FloatErr(e, left) => fail == Some(Failure(e, |text| - left))
    {
      hide Power;
      fail, d := None, start;
      var c := Current();
      while IsDigit(c)
        invariant Valid() && c == Peek(Rest()) && fail == None
        invariant BigDigits(d, Rest()) == BigDigits(start, old(Rest()))
        decreases |text| - cursor
      {
        if d >= Power(307) {
          fail := Fail(NumberTooBig, 0);
          return;
        }
        d := d * 10.0 + DigitOf(c) as real;
        var _ := Take();
        c := Current();
      }
    }

    method FractionLoop(start: real) returns (d: real, exp: int)
      requires Valid()
      modifies this`cursor
      ensures Valid() && FractionDigits(start, -1, old(Rest())) == Fraction(d, exp, Rest())
    {
      d, exp := start, -1;
      var c := Current();
      while IsDigit(c)
        invariant Valid() && c == Peek(Rest()) && exp <= -1
        invariant FractionDigits(d, exp, Rest()) == FractionDigits(start, -1, old(Rest()))
        decreases |text| - cursor
      {
        if exp > -16 {
          d := d * 10.0 + DigitOf(c) as real;
          exp := exp - 1;
        }
        var _ := Take();
        c := Current();
      }
    }

    method ExponentLoop(start: nat) returns (fail: Option<Failure>, exp: nat)
      requires Valid() && start <= 308
      modifies this`cursor
      ensures Valid() && exp <= 308 + 3090
      ensures match ExponentDigits(start, old(Rest()))
        case Exponent(e, rest) => fail == None && exp == e && Rest() == rest
        case ExponentErr(e, left) => fail == Some(Failure(e, |text| - left))
    {
      fail, exp := None, start;
      var c := Current();
      while IsDigit(c)
        invariant Valid() && c == Peek(Rest()) && exp <= 308 && fail == None
        invariant ExponentDigits(exp, Rest()) == ExponentDigits(start, old(Rest()))
        decreases |text| - cursor
      {
        var digit := Take();
        exp := exp * 10 + DigitOf(digit);
        if exp > 308 {
          fail := Fail(NumberTooBig, 0);
          return;
        }
        c := Current();
      }
    }

    /** "Parse frac". */
    method ParseFraction(start: real) returns (fail: Option<Failure>, d: real, exp: int)
      requires Valid()
      modifies this`cursor
      ensures Valid()
      ensures match FractionPart(start, old(Rest()))
        case Fraction(r, e, rest) => fail == None && d == r && exp == e && Rest() == rest
        case FractionErr(left) => fail == Some(Failure(NoFractionDigit, |text| - left))
    {
      hide FractionDigits;
      fail, d, exp := None, start, 0;
      var c := Current();
      if c == '.' {
        var _ := Take();
        c := Current();
        if !IsDigit(c) {
          fail := Fail(NoFractionDigit, 0);
          return;
        }
        var _ := Take();
        d, exp := FractionLoop(d * 10.0 + DigitOf(c) as real);
      }
    }

    /** "Parse exp". */
    method ParseExponent() returns (fail: Option<Failure>, exp: int)
      requires Valid()
      modifies this`cursor
      ensures Valid()
      ensures match ExponentPart(old(Rest()))
        case Exponent(e, rest) => fail == None && exp == e && Rest() == rest
        case ExponentErr(e, left) => fail == Some(Failure(e, |text| - left))
    {
      hide ExponentDigits;
      fail, exp := None, 0;
      var c := Current();
      if c == 'e' || c == 'E' {
        var _ := Take();
        c := Current();
        var expMinus := false;
        if c == '+' {
          var _ := Take();
        } else if c == '-' {
          var _ := Take();
          expMinus := true;
        }
        c := Current();
        if !IsDigit(c) {
          fail := Fail(NoExponentDigit, 0);
          return;
        }
        var _ := Take();
        var e;
        fail, e := ExponentLoop(DigitOf(c));
        exp := e;
        if expMinus { exp := -exp; }
      }
    }

    /** The integer phases of `ParseNumber`, after the optional minus. */
    method ParseInteger(minus: bool) returns (fail: Option<Failure>, i: nat, try64: bool, useDouble: bool)
      requires Valid()
      modifies this`cursor
      ensures Valid()
      ensures match IntegerPhases(minus, old(Rest()))
        case IntPhase(n, t, u, rest) => fail == None && i == n && try64 == t && useDouble == u && Rest() == rest
        case NoDigit(left) => fail == Some(Failure(ExpectValue, |text| - left))
    {
      hide Accumulate;
      fail, i, try64, useDouble := None, 0, false, false;
      var c := Current();
      if c == '0' {
        var _ := Take();
      } else if '1' <= c <= '9' {
        var digit := Take();
        i, try64 := AccumulateDigits(DigitOf(digit), Max32(minus), TWO_32);
        if try64 {
          i, useDouble := AccumulateDigits(i, Max64(minus), TWO_64);
        }
      } else {
        fail := Fail(ExpectValue, 0);
      }
    }

    /** Fraction, exponent and event. */
    method FinishNumber(minus: bool, i: nat, try64: bool, useDouble: bool, double: real) returns (fail: Option<Failure>)
      requires Valid() && i <= Max64(minus) && (!try64 ==> i <= Max32(minus))
      modifies this
      ensures Did(old(log), old(stack), NumberTail(minus, i, try64, useDouble, double, old(Rest())), fail)
    {
      hide FractionPart, ExponentPart, DoubleEvent, IntegerEvent;
      assert log + [] == log;
      var isDouble := useDouble;
      var c := Current();
      if c == '.' { isDouble := true; }
      var d, frac, exp;
      fail, d, frac := ParseFraction(double);
      if fail != None { return; }
      c := Current();
      if c == 'e' || c == 'E' { isDouble := true; }
      fail, exp := ParseExponent();
      if fail != None { return; }
      if isDouble {
        log := log + [DoubleEvent(minus, d, frac + exp)];
      } else {
        log := log + [IntegerEvent(minus, try64, i)];
      }
    }

    /** `ParseNumber` under `DO_PARSE_NUM`. */
    method ParseNumeric() returns (fail: Option<Failure>)
      requires Valid()
      modifies this
      ensures Did(old(log), old(stack), NumericNumber(old(Rest())), fail)
    {
      hide IntegerPhases, BigDigits, NumberTail;
      assert log + [] == log;
      var c := Current();
      var minus := c == '-';
      if minus {
        var _ := Take();
      }
      var i, try64, useDouble;
      fail, i, try64, useDouble := ParseInteger(minus);
      if fail != None { return; }
      var d := i as real;
      if useDouble {
        fail, d := BigDigitsLoop(d);
        if fail != None { return; }
      }
      fail := FinishNumber(minus, i, try64, useDouble, d);
    }

    method ParseNumber() returns (fail: Option<Failure>)
      requires Valid()
      modifies this
      ensures Did(old(log), old(stack), ReaderSpec.ParseNumber(mode, old(Rest())), fail)
    {
      hide NumericNumber, Lexeme;
      if mode.Lexemes? {
        ParseLexeme();
        fail := None;
      } else {
        fail := ParseNumeric();
      }
    }

    // ---- values ----

    /** `ParseNull`, `ParseTrue` and `ParseFalse`: the first letter, then `&&`-chained takes. */
    method ParseWord(word: string, event: Event, back: nat) returns (fail: Option<Failure>)
      requires Valid() && back <= 1
      modifies this
      ensures Did(old(log), old(stack), ReaderSpec.ParseWord(Next(old(Rest())), word, event, back), fail)
    {
      WordUnfold(Next(Rest()), word, event, back);
      hide TakeWord, Peek, Next, ReaderSpec.ParseWord;
      fail := None;
      assert log + [] == log;
      var _ := Take();
      ghost var start := Rest();
      TakeStart(start, word);
      for i := 0 to |word|
        invariant Valid() && stack == old(stack) && log == old(log) && fail == None
        invariant TakeWord(Rest(), word[i..]) == TakeWord(start, word)
      {
        TakeUnfold(Rest(), word, i);
        var c := Take();
        if c != word[i] {
          fail := Fail(InvalidValue, back);
          return;
        }
      }
      TakeUnfold(Rest(), word, |word|);
      log := log + [event];
    }

    method ParseValue() returns (fail: Option<Failure>)
      requires Valid()
      modifies this
      ensures Did(old(log), old(stack), ReaderSpec.ParseValue(mode, old(Rest())), fail)
      decreases |text| - cursor, 2
    {
      ValueUnfold(mode, Rest());
      hide ReaderSpec.ParseValue, ReaderSpec.ParseWord, ReaderSpec.ParseString, ReaderSpec.ParseNumber,
        ReaderSpec.ParseArray, ReaderSpec.ParseObject;
      var c := Current();
      match c
      case 'n' => fail := ParseWord("ull", Null, 1);
      case 't' => fail := ParseWord("rue", Bool(true), 0);
      case 'f' => fail := ParseWord("alse", Bool(false), 1);
      case '"' => fail := ParseString();
      case '{' => fail := ParseObject();
      case '[' => fail := ParseArray();
      case _ => fail := ParseNumber();
    }

    method ParseArray() returns (fail: Option<Failure>)
      requires Valid() && Peek(Rest()) == '['
      modifies this
      ensures Did(old(log), old(stack), ReaderSpec.ParseArray(mode, old(Rest())), fail)
      decreases |text| - cursor, 1
    {
      hide ParseElements, SkipWhitespace;
      fail := None;
      var _ := Take();
      log := log + [StartArray];
      SkipBlanks();
      var c := Current();
      if c == ']' {
        var _ := Take();
        log := log + [EndArray(0)];
        assert log == old(log) + [StartArray, EndArray(0)];
      } else {
        ghost var p := ParseElements(mode, Rest(), 0);
        fail := ElementsLoop();
        assert old(log) + [StartArray] + p.log == old(log) + ([StartArray] + p.log);
      }
    }

    /** The loop of `ParseArray`. */
    method ElementsLoop() returns (fail: Option<Failure>)
      requires Valid()
      modifies this
      ensures Did(old(log), old(stack), ParseElements(mode, old(Rest()), 0), fail)
      decreases |text| - cursor, 3
    {
      hide ParseElements, ReaderSpec.ParseValue, SkipWhitespace, After;
      var elementCount := 0;
      ghost var done, p := [], ParseElements(mode, Rest(), 0);
      AfterNothing(p);
      while true
        invariant Valid() && stack == old(stack) && log == old(log) + done
        invariant cursor >= old(cursor)
        invariant After(done, ParseElements(mode, Rest(), elementCount)) == p
        decreases |text| - cursor
      {
        ghost var s := Rest();
        ElementsUnfold(mode, s, elementCount, done);
        fail := ParseValue();
        Regroup(old(log), done, ReaderSpec.ParseValue(mode, s).log);
        done := done + ReaderSpec.ParseValue(mode, s).log;
        if fail != None { return; }
        elementCount := elementCount + 1;
        SkipBlanks();
        var c := Take();
        if c == ',' {
          SkipBlanks();
        } else if c == ']' {
          Regroup(old(log), done, [EndArray(elementCount)]);
          log := log + [EndArray(elementCount)];
          return;
        } else {
          fail := Fail(BadElementEnd, 0);
          return;
        }
      }
    }

    method ParseObject() returns (fail: Option<Failure>)
      requires Valid() && Peek(Rest()) == '{'
      modifies this
      ensures Did(old(log), old(stack), ReaderSpec.ParseObject(mode, old(Rest())), fail)
      decreases |text| - cursor, 1
    {
      hide ParseMembers, SkipWhitespace;
      fail := None;
      var _ := Take();
      log := log + [StartObject];
      SkipBlanks();
      var c := Current();
      if c == '}' {
        var _ := Take();
        log := log + [EndObject(0)];
        assert log == old(log) + [StartObject, EndObject(0)];
      } else {
        ghost var p := ParseMembers(mode, Rest(), 0);
        fail := MembersLoop();
        assert old(log) + [StartObject] + p.log == old(log) + ([StartObject] + p.log);
      }
    }

    /** The loop of `ParseObject`. */
    method MembersLoop() returns (fail: Option<Failure>)
      requires Valid()
      modifies this
      ensures Did(old(log), old(stack), ParseMembers(mode, old(Rest()), 0), fail)
      decreases |text| - cursor, 5
    {
      hide ParseMembers, ReaderSpec.ParseMember, SkipWhitespace, After;
      var memberCount := 0;
      ghost var done, p := [], ParseMembers(mode, Rest(), 0);
      AfterNothing(p);
      while true
        invariant Valid() && stack == old(stack) && log == old(log) + done
        invariant cursor >= old(cursor)
        invariant After(done, ParseMembers(mode, Rest(), memberCount)) == p
        decreases |text| - cursor
      {
        ghost var s := Rest();
        MembersUnfold(mode, s, memberCount, done);
        fail := ParseMember();
        Regroup(old(log), done, ReaderSpec.ParseMember(mode, s).log);
        done := done + ReaderSpec.ParseMember(mode, s).log;
        if fail != None { return; }
        memberCount := memberCount + 1;
        SkipBlanks();
        var c := Take();
        if c == ',' {
          SkipBlanks();
        } else if c == '}' {
          Regroup(old(log), done, [EndObject(memberCount)]);
          log := log + [EndObject(memberCount)];
          return;
        } else {
          fail := Fail(BadMemberEnd, 0);
          return;
        }
      }
    }

    /** Name, colon and value: the loop body of `ParseObject` up to the separator. */
    method ParseMember() returns (fail: Option<Failure>)
      requires Valid()
      modifies this
      ensures Did(old(log), old(stack), ReaderSpec.ParseMember(mode, old(Rest())), fail)
      decreases |text| - cursor, 3
    {
      hide ReaderSpec.ParseValue, ReaderSpec.ParseName;
      fail := ParseName();
      if fail != None { return; }
      ghost var n, v := ReaderSpec.ParseName(old(Rest())), ReaderSpec.ParseValue(mode, Rest());
      fail := ParseValue();
      assert old(log) + n.log + v.log == old(log) + (n.log + v.log);
    }

    method ParseName() returns (fail: Option<Failure>)
      requires Valid()
      modifies this
      ensures Did(old(log), old(stack), ReaderSpec.ParseName(old(Rest())), fail)
    {
      hide ReaderSpec.ParseString, SkipWhitespace;
      assert log + [] == log;
      var c := Current();
      if c != '"' {
        fail := Fail(NameNotString, 0);
        return;
      }
      fail := ParseString();
      if fail != None { return; }
      SkipBlanks();
      c := Take();
      if c != ':' {
        fail := Fail(MissingColon, 0);
        return;
      }
      SkipBlanks();
    }

    /** `Parse`. After an error the string stack is cleared. */
    method Parse(ignoreTrailing: bool) returns (fail: Option<Failure>)
      requires Valid()
      modifies this
      ensures Valid() && var p := ParseText(mode, ignoreTrailing, old(Rest()));
        log == old(log) + p.log &&
        match p
        case Ok(_, rest) => fail == None && Rest() == rest && stack == old(stack)
        case Err(_, error, left) => fail == Some(Failure(error, |text| - left)) && stack == ""
    {
      hide ReaderSpec.ParseObject, ReaderSpec.ParseArray, SkipWhitespace, ReaderSpec.ParseMembers, ParseElements;
      assert log + [] == log;
      SkipBlanks();
      var c := Current();
      if c == '\0' {
        fail := Fail(OnlyWhitespace, 0);
        stack := "";
        return;
      }
      match c {
        case '{' => fail := ParseObject();
        case '[' => fail := ParseArray();
        case _ => fail := Fail(BadRoot, 0);
      }
      if fail == None {
        SkipBlanks();
        c := Current();
        if !ignoreTrailing && c != '\0' {
          fail := Fail(TrailingContent, 0);
        }
      }
      if fail != None { stack := ""; }
    }
  }

  lemma WordUnfold(s: string, word: string, event: Event, back: nat)
    requires back <= 1
    ensures ReaderSpec.ParseWord(s, word, event, back) ==
      var t := TakeWord(s, word);
      if t.all then Ok([event], t.rest) else Err([], InvalidValue, |t.rest| + back)
  {
  }

  lemma TakeStart(s: string, word: string)
    ensures TakeWord(s, word[0..]) == TakeWord(s, word)
  {
    assert word[0..] == word;
  }

  lemma TakeUnfold(s: string, word: string, i: nat)
    requires i <= |word|
    ensures i == |word| ==> TakeWord(s, word[i..]) == Taken(true, s)
    ensures i < |word| && Peek(s) == word[i] ==> TakeWord(s, word[i..]) == TakeWord(Next(s), word[i + 1..])
    ensures i < |word| && Peek(s) != word[i] ==> TakeWord(s, word[i..]) == Taken(false, Next(s))
  {
    assert i < |word| ==> word[i..][1..] == word[i + 1..];
  }

  lemma ValueUnfold(mode: NumberMode, s: string)
    ensures ReaderSpec.ParseValue(mode, s) ==
      match Peek(s)
      case 'n' => ReaderSpec.ParseWord(Next(s), "ull", Null, 1)
      case 't' => ReaderSpec.ParseWord(Next(s), "rue", Bool(true), 0)
      case 'f' => ReaderSpec.ParseWord(Next(s), "alse", Bool(false), 1)
      case '"' => ReaderSpec.ParseString(s)
      case '{' => ReaderSpec.ParseObject(mode, s)
      case '[' => ReaderSpec.ParseArray(mode, s)
      case _ => ReaderSpec.ParseNumber(mode, s)
  {
    hide ReaderSpec.ParseWord, ReaderSpec.ParseString, ReaderSpec.ParseNumber, ReaderSpec.ParseArray, ReaderSpec.ParseObject;
  }

  lemma ElementsUnfold(mode: NumberMode, s: string, count: nat, done: seq<Event>)
    ensures var v := ReaderSpec.ParseValue(mode, s);
      After(done, ParseElements(mode, s, count)) ==
      if v.Err? then Err(done + v.log, v.error, v.left)
      else
        var s1 := SkipWhitespace(v.rest);
        if Peek(s1) == ',' then After(done + v.log, ParseElements(mode, SkipWhitespace(Next(s1)), count + 1))
        else if Peek(s1) == ']' then Ok(done + v.log + [EndArray(count + 1)], Next(s1))
        else Err(done + v.log, BadElementEnd, |Next(s1)|)
  {
    hide ReaderSpec.ParseValue, SkipWhitespace;
    var v := ReaderSpec.ParseValue(mode, s);
    if v.Ok? {
      var s1 := SkipWhitespace(v.rest);
      if Peek(s1) == ',' {
        AfterAfter(done, v.log, ParseElements(mode, SkipWhitespace(Next(s1)), count + 1));
      } else {
        assert done + (v.log + [EndArray(count + 1)]) == done + v.log + [EndArray(count + 1)];
      }
    }
  }

  lemma Regroup<T>(a: seq<T>, b: seq<T>, c: seq<T>)
    ensures a + b + c == a + (b + c)
  {
  }

  lemma AfterNothing(p: Parsed)
    ensures After([], p) == p
  {
    assert [] + p.log == p.log;
  }

  lemma AfterAfter(a: seq<Event>, b: seq<Event>, p: Parsed)
    ensures After(a, After(b, p)) == After(a + b, p)
  {
    assert a + (b + p.log) == a + b + p.log;
  }

  lemma MembersUnfold(mode: NumberMode, s: string, count: nat, done: seq<Event>)
    ensures var v := ReaderSpec.ParseMember(mode, s);
      After(done, ParseMembers(mode, s, count)) ==
      if v.Err? then Err(done + v.log, v.error, v.left)
      else
        var s1 := SkipWhitespace(v.rest);
        if Peek(s1) == ',' then After(done + v.log, ParseMembers(mode, SkipWhitespace(Next(s1)), count + 1))
        else if Peek(s1) == '}' then Ok(done + v.log + [EndObject(count + 1)], Next(s1))
        else Err(done + v.log, BadMemberEnd, |Next(s1)|)
  {
    hide ReaderSpec.ParseMember, SkipWhitespace;
    var v := ReaderSpec.ParseMember(mode, s);
    if v.Ok? {
      var s1 := SkipWhitespace(v.rest);
      if Peek(s1) == ',' {
        AfterAfter(done, v.log, ParseMembers(mode, SkipWhitespace(Next(s1)), count + 1));
      } else {
        assert done + (v.log + [EndObject(count + 1)]) == done + v.log + [EndObject(count + 1)];
      }
    }
  }

  lemma WithinMax(i: nat, d: nat, max: nat, width: nat)
    requires d < 10 && max < width && !(i >= max / 10 && (i != max / 10 || d > max % 10))
    ensures i * 10 + d <= max && (i * 10 + d) % width == i * 10 + d
  {
    assert max == max / 10 * 10 + max % 10;
    SmallRemainder(i * 10 + d, width);
  }

  lemma SmallRemainder(n: nat, width: nat)
    requires n < width
    ensures n % width == n
  {
  }
}
