/** What a `\u` escape becomes, against UTF-8 as RFC 3629 defines it. */
module Unicode {
  import opened Strings
  import opened ReaderSpec

  /** A Unicode scalar value: any code point but the surrogates. */
  predicate Scalar(cp: nat) { cp <= 0x10FFFF && !(0xD800 <= cp <= 0xDFFF) }

  /** The number of bytes that the table in section 3 of RFC 3629 gives a code point. */
  function ByteCount(cp: nat): nat {
    if cp < 0x80 then 1 else if cp < 0x800 then 2 else if cp < 0x1_0000 then 3 else 4
  }

  predicate Tail(c: char) { 0x80 <= c as int < 0xC0 }

  function TailBits(c: char): nat
    requires Tail(c)
  {
    c as int - 0x80
  }

  /** The number in bytes laid out as in that table. */
  function Bits(s: string): Option<nat> {
    if |s| == 1 && s[0] as int < 0x80 then Some(s[0] as int)
    else if |s| == 2 && 0xC0 <= s[0] as int < 0xE0 && Tail(s[1]) then Some((s[0] as int - 0xC0) * 0x40 + TailBits(s[1]))
    else if |s| == 3 && 0xE0 <= s[0] as int < 0xF0 && Tail(s[1]) && Tail(s[2]) then
      Some((s[0] as int - 0xE0) * 0x1000 + TailBits(s[1]) * 0x40 + TailBits(s[2]))
    else if |s| == 4 && 0xF0 <= s[0] as int < 0xF8 && Tail(s[1]) && Tail(s[2]) && Tail(s[3]) then
      Some((s[0] as int - 0xF0) * 0x4_0000 + TailBits(s[1]) * 0x1000 + TailBits(s[2]) * 0x40 + TailBits(s[3]))
    else None
  }

  /** One character decoded by section 3 of RFC 3629, which forbids surrogates and longer forms than needed. */
  function DecodeUtf8(s: string): Option<nat> {
    match Bits(s)
    case Some(cp) => if Scalar(cp) && |s| == ByteCount(cp) then Some(cp) else None
    case None => None
  }

  // ---- the encoder ----

  /** A number split at six bits, and its high part at six more. */
  lemma SixBits(cp: nat)
    ensures cp == cp / 0x40 * 0x40 + cp % 0x40
    ensures cp / 0x40 == cp / 0x1000 * 0x40 + cp / 0x40 % 0x40
    ensures cp / 0x1000 == cp / 0x4_0000 * 0x40 + cp / 0x1000 % 0x40
  {
  }

  /** Numbers of at most four bytes, byte by byte. */
  lemma BytesHold(a: nat, b: nat, c: nat, d: nat)
    requires b < 0x40 && c < 0x40 && d < 0x40
    ensures a < 0x20 ==> Bits([Byte(0xC0 + a), Byte(0x80 + b)]) == Some(a * 0x40 + b)
    ensures a < 0x10 ==> Bits([Byte(0xE0 + a), Byte(0x80 + b), Byte(0x80 + c)]) == Some(a * 0x1000 + b * 0x40 + c)
    ensures a < 0x08 ==>
      Bits([Byte(0xF0 + a), Byte(0x80 + b), Byte(0x80 + c), Byte(0x80 + d)]) == Some(a * 0x4_0000 + b * 0x1000 + c * 0x40 + d)
  {
  }

  lemma Utf8Holds(cp: nat)
    requires cp <= 0x10FFFF
    ensures Bits(Utf8(cp)) == Some(cp) && |Utf8(cp)| == ByteCount(cp)
  {
    SixBits(cp);
    if cp <= 0x7F {
    } else if cp <= 0x7FF {
      BytesHold(cp / 0x40, cp % 0x40, 0, 0);
    } else if cp <= 0xFFFF {
      BytesHold(cp / 0x1000, cp / 0x40 % 0x40, cp % 0x40, 0);
    } else {
      BytesHold(cp / 0x4_0000, cp / 0x1000 % 0x40, cp / 0x40 % 0x40, cp % 0x40);
    }
  }

  /** Bytes of one length hold one number in one way. */
  lemma BitsInjective(s: string, t: string)
    requires Bits(s).Some? && Bits(s) == Bits(t) && |s| == |t|
    ensures s == t
  {
    if |s| == 1 {
      assert s[0] == t[0];
    } else if |s| == 2 {
      SixBitsDiffer(s[0] as int - 0xC0, TailBits(s[1]), t[0] as int - 0xC0, TailBits(t[1]));
    } else {
      var high := if |s| == 3 then 0xE0 else 0xF0;
      var a, b := s[0] as int - high, t[0] as int - high;
      var c, d := a * 0x40 + TailBits(s[1]), b * 0x40 + TailBits(t[1]);
      if |s| == 4 {
        SixBitsDiffer(c * 0x40 + TailBits(s[2]), TailBits(s[3]), d * 0x40 + TailBits(t[2]), TailBits(t[3]));
      }
      SixBitsDiffer(c, TailBits(s[2]), d, TailBits(t[2]));
      SixBitsDiffer(a, TailBits(s[1]), b, TailBits(t[1]));
    }
  }

  lemma SixBitsDiffer(a: int, x: nat, b: int, y: nat)
    requires x < 0x40 && y < 0x40 && a * 0x40 + x == b * 0x40 + y
    ensures a == b && x == y
  {
  }

  /** `UTF8::Encode` gives a scalar value the bytes that are decoded as it, and a surrogate bytes that are
      forbidden; no other bytes are decoded at all. */
  lemma Utf8Inverse(cp: nat)
    requires cp <= 0x10FFFF
    ensures DecodeUtf8(Utf8(cp)) == if Scalar(cp) then Some(cp) else None
    ensures forall s :: DecodeUtf8(s) == Some(cp) ==> s == Utf8(cp)
  {
    hide Bits;
    Utf8Holds(cp);
    forall s | DecodeUtf8(s) == Some(cp) ensures s == Utf8(cp) { BitsInjective(s, Utf8(cp)); }
  }

  // ---- escapes ----

  /** Four hexadecimal digits, in either case, that spell a number. */
  predicate Spells(u: string, n: nat) {
    && |u| == 4 && (forall i :: 0 <= i < 4 ==> IsHexDigit(u[i]))
    && n == ((HexValue(u[0]) * 16 + HexValue(u[1])) * 16 + HexValue(u[2])) * 16 + HexValue(u[3])
  }

  lemma Hex4Reads(u: string, n: nat, k: string)
    requires Spells(u, n)
    ensures Hex4(u + k) == HexOk(n, k)
  {
    var s := u + k;
    assert s[1..] == u[1..] + k && s[1..][1..] == u[2..] + k && s[1..][1..][1..] == u[3..] + k;
    assert s[1..][1..][1..][1..] == k;
    var a, b, c, d := HexValue(u[0]), HexValue(u[1]), HexValue(u[2]), HexValue(u[3]);
    hide HexValue, IsHexDigit;
    assert HexDigits(k, 0, ((a * 16 + b) * 16 + c) * 16 + d) == HexOk(n, k);
    assert HexDigits(u[3..] + k, 1, (a * 16 + b) * 16 + c) == HexOk(n, k);
    assert HexDigits(u[2..] + k, 2, a * 16 + b) == HexOk(n, k);
    assert HexDigits(u[1..] + k, 3, a) == HexOk(n, k);
  }

  /** What follows "\\u" to escape a scalar value, by section 2.5 of RFC 4627: its four digits, or, beyond sixteen
      bits, those of a surrogate pair. */
  predicate Escapes(text: string, cp: nat) {
    if cp < 0x1_0000 then Spells(text, cp)
    else
      && |text| == 10 && text[4..6] == "\\u"
      && Spells(text[..4], 0xD800 + (cp - 0x1_0000) / 0x400)
      && Spells(text[6..], 0xDC00 + (cp - 0x1_0000) % 0x400)
  }

  /** Every scalar value, escaped in any way, is read as its UTF-8 form. */
  lemma EscapeReads(text: string, cp: nat, k: string)
    requires Scalar(cp) && Escapes(text, cp)
    ensures ScanUnicode(text + k) == Scanned(Utf8(cp), k)
  {
    hide Spells, Utf8, Hex4;
    if cp < 0x1_0000 {
      Hex4Reads(text, cp, k);
    } else {
      var hi, lo := (cp - 0x1_0000) / 0x400, (cp - 0x1_0000) % 0x400;
      assert text == text[..4] + text[4..6] + text[6..];
      var s1 := "\\u" + text[6..] + k;
      assert text + k == text[..4] + s1;
      Hex4Reads(text[..4], 0xD800 + hi, s1);
      Hex4Reads(text[6..], 0xDC00 + lo, k);
      assert Next(Next(s1)) == text[6..] + k;
    }
  }

  /** A successful escape gives the UTF-8 form of a scalar value, unless its first code unit is a low surrogate, and
      then it gives forbidden bytes: the code does not ask for a high one before it. */
  lemma EscapeIsUtf8Exactly(s: string)
    requires ScanUnicode(s).Scanned?
    ensures Hex4(s).HexOk?
    ensures DecodeUtf8(ScanUnicode(s).chars) == None <==> 0xDC00 <= Hex4(s).codepoint <= 0xDFFF
  {
    hide Hex4, Utf8, DecodeUtf8;
    var cp := Hex4(s).codepoint;
    if 0xD800 <= cp <= 0xDBFF {
      var cp2 := Hex4(Next(Next(Hex4(s).rest))).codepoint;
      Utf8Inverse((cp - 0xD800) * 0x400 + (cp2 - 0xDC00) + 0x1_0000);
    } else {
      Utf8Inverse(cp);
    }
  }

  /** For instance. */
  lemma LoneLowSurrogate(k: string)
    ensures ScanUnicode("DC00" + k).Scanned? && DecodeUtf8(ScanUnicode("DC00" + k).chars) == None
  {
    hide Utf8, Hex4, DecodeUtf8;
    assert Spells("DC00", 0xDC00);
    Hex4Reads("DC00", 0xDC00, k);
    EscapeIsUtf8Exactly("DC00" + k);
  }
}
