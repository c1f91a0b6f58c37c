/** Which error the reader reports for texts that leave the grammar, and at which offset: a text's length less the
    number of characters said to be left there. */
module Errors {
  import opened Grammar
  import opened ReaderSpec
  import opened Parsing
  import opened Unicode
  import opened Completeness
  import E = Events

  predicate Fails(text: string, error: ParseError, left: nat) {
    var p := ParseText(Lexemes, false, text);
    p.Err? && p.error == error && p.left == left
  }

  // ---- around the root ----

  /** Nothing but blanks: at their end. */
  lemma BlankText(before: string, tail: string)
    requires Gap(before) && (tail != "" ==> tail[0] == '\0')
    ensures Fails(before + tail, OnlyWhitespace, |tail|)
  {
    GapIsBlanks(before);
    hide SkipWhitespace, ParseObject, ParseArray;
    SkipBlanks(before, tail);
  }

  /** Another root than a container: at its first character. */
  lemma OtherRoot(before: string, c: char, k: string)
    requires Gap(before) && !Gap([c]) && c != '\0' && c != '{' && c != '['
    ensures Fails(before + ([c] + k), BadRoot, |k| + 1)
  {
    GapIsBlanks(before);
    assert IsBlank(c) ==> Gap([c]);
    hide SkipWhitespace, ParseObject, ParseArray;
    SkipBlanks(before, [c] + k);
  }

  /** Something behind the root: at its first character. */
  lemma TextAfterRoot(d: Doc, c: char, k: string)
    requires LegalDoc(d) && !Gap([c]) && c != '\0'
    ensures Fails(DocText(d) + ([c] + k), TrailingContent, |k| + 1)
  {
    GapIsBlanks(d.before);
    GapIsBlanks(d.after);
    assert IsBlank(c) ==> Gap([c]);
    hide ParseObject, ParseArray, SkipWhitespace, Written, Tree, Gap;
    var tail := [c] + k;
    var r := d.after + tail;
    var s := Written(d.root) + r;
    assert DocText(d) + tail == d.before + s;
    SkipBlanks(d.after, tail);
    if d.root.Arr? { ArrReads(d.root, r); } else { ObjReads(d.root, r); }
    SkipBlanks(d.before, s);
  }

  // ---- in an array ----

  lemma RootArray(before: string, t: string)
    requires Gap(before) && Peek(t) == '[' && ParseArray(Lexemes, t).Err?
    ensures ParseText(Lexemes, false, before + t) == ParseArray(Lexemes, t)
  {
    GapIsBlanks(before);
    hide SkipWhitespace, ParseArray, ParseObject, Gap;
    SkipBlanks(before, t);
  }

  lemma ArrayOfItems(gap: string, s: string)
    requires Gap(gap) && s != "" && !IsBlank(s[0]) && s[0] != ']'
    ensures Peek("[" + (gap + s)) == '['
    ensures ParseArray(Lexemes, "[" + (gap + s)) == After([E.StartArray], ParseElements(Lexemes, s, 0))
  {
    GapIsBlanks(gap);
    hide SkipWhitespace, ParseElements, Gap;
    SkipBlanks(gap, s);
    assert ("[" + (gap + s))[1..] == gap + s;
  }

  /** An error among the items. */
  lemma ItemsFail(before: string, gap: string, s: string)
    requires Gap(before) && Gap(gap) && s != "" && !IsBlank(s[0]) && s[0] != ']' && ParseElements(Lexemes, s, 0).Err?
    ensures var p := ParseElements(Lexemes, s, 0);
      Fails(before + ("[" + (gap + s)), p.error, p.left)
  {
    hide *;
    var t := "[" + (gap + s);
    ArrayOfItems(gap, s);
    AfterFails([E.StartArray], ParseElements(Lexemes, s, 0));
    RootArray(before, t);
    FailsBy(before + t, ParseArray(Lexemes, t));
  }

  lemma AfterFails(log: seq<E.Event>, p: Parsed)
    requires p.Err?
    ensures After(log, p).Err? && After(log, p).error == p.error && After(log, p).left == p.left
  {
  }

  lemma FailsBy(text: string, p: Parsed)
    requires ParseText(Lexemes, false, text) == p && p.Err?
    ensures Fails(text, p.error, p.left)
  {
  }

  lemma FirstValueFails(s: string)
    requires ParseValue(Lexemes, s).Err?
    ensures ParseElements(Lexemes, s, 0) == ParseValue(Lexemes, s)
  {
    hide ParseValue;
  }

  lemma FirstItemEnds(v: Node, gap: string, c: char, k: string)
    requires Legal(v) && Gap(gap) && !Gap([c]) && c != ',' && c != ']' && !NumberLetter(c) && v != Number("")
    ensures ParseElements(Lexemes, Written(v) + (gap + ([c] + k)), 0) == Err(E.TreeEvents(Tree(v)), BadElementEnd, |k|)
  {
    var tail := [c] + k;
    ReadsBefore(v, gap, c, k);
    GapIsBlanks(gap);
    assert IsBlank(c) ==> Gap([c]);
    assert tail[1..] == k;
    hide SkipWhitespace, ParseValue, Gap, Legal, Written, Tree, E.TreeEvents;
    SkipBlanks(gap, tail);
  }

  /** Something else than a comma or a bracket behind an item: one past it. */
  lemma ItemEndFails(before: string, x: Item, c: char, k: string)
    requires Gap(before) && LegalItem(x) && !Gap([c]) && c != ',' && c != ']' && !NumberLetter(c) && x.value != Number("")
    ensures Fails(before + ("[" + (ItemText(x) + ([c] + k))), BadElementEnd, |k|)
  {
    var s := Written(x.value) + (x.after + ([c] + k));
    ValueStarts(x.value, x.after + ([c] + k));
    FirstItemEnds(x.value, x.after, c, k);
    assert ItemText(x) == x.before + Written(x.value) + x.after;
    hide ParseElements, Fails, Legal, Gap, Written, ItemText;
    ItemsFail(before, x.before, s);
    Assembled(x.before, Written(x.value), x.after, [c] + k);
  }

  /** A value stops before anything that is no letter of numbers, too. */
  lemma ReadsBefore(v: Node, gap: string, c: char, k: string)
    requires Legal(v) && Gap(gap) && !NumberLetter(c) && v != Number("")
    ensures ParseValue(Lexemes, Written(v) + (gap + ([c] + k))) == Ok(E.TreeEvents(Tree(v)), gap + ([c] + k))
  {
    var r := gap + ([c] + k);
    hide ParseValue, StringText, Chars, ItemsText, MembersText;
    match v
    case NullWord => WordInverse(r);
    case TrueWord => WordInverse(r);
    case FalseWord => WordInverse(r);
    case Number(l) => assert Stops(r); NumberInverse(l, r);
    case Text(ps) => StringReads(ps, r); StringValue(StringText(ps) + r);
    case Arr(_, _) => ArrReads(v, r); ContainerValue(Written(v) + r);
    case Obj(_, _) => ObjReads(v, r); ContainerValue(Written(v) + r);
  }

  // ---- in a string ----

  /** An error behind good pieces is the error of what follows. */
  lemma {:induction false} PiecesThen(ps: seq<Piece>, s: string)
    requires LegalString(ps)
    ensures ScanString(PiecesText(ps) + s) == ReaderSpec.Put(Chars(ps), ScanString(s))
    decreases |ps|
  {
    hide ScanChar, PieceText, PieceChars, LegalPiece;
    if ps == [] {
      assert "" + s == s;
      if ScanString(s).Scanned? { assert "" + ScanString(s).chars == ScanString(s).chars; }
    } else {
      var t := PiecesText(ps[1..]) + s;
      PiecesThen(ps[1..], s);
      PieceReads(ps[0], t);
      assert PiecesText(ps) + s == PieceText(ps[0]) + t;
      if ScanString(s).Scanned? {
        assert PieceChars(ps[0]) + (Chars(ps[1..]) + ScanString(s).chars) == Chars(ps) + ScanString(s).chars;
      }
    }
  }

  /** A string that goes wrong behind good pieces, as the first item of an array. */
  lemma StringFails(before: string, gap: string, ps: seq<Piece>, s: string, error: ParseError, left: nat)
    requires Gap(before) && Gap(gap) && LegalString(ps) && ScanString(s) == Bad(error, left)
    ensures Fails(before + ("[" + (gap + ("\"" + (PiecesText(ps) + s)))), error, left)
  {
    hide *;
    var t := "\"" + (PiecesText(ps) + s);
    StringThen(ps, s, error, left);
    FirstValueFails(t);
    QuoteStarts(PiecesText(ps) + s);
    ItemsFail(before, gap, t);
  }

  lemma QuoteStarts(s: string)
    ensures var t := "\"" + s; t != "" && !IsBlank(t[0]) && t[0] != ']'
  {
  }

  lemma StringThen(ps: seq<Piece>, s: string, error: ParseError, left: nat)
    requires LegalString(ps) && ScanString(s) == Bad(error, left)
    ensures ParseValue(Lexemes, "\"" + (PiecesText(ps) + s)) == Err([], error, left)
  {
    var t := "\"" + (PiecesText(ps) + s);
    PiecesThen(ps, s);
    hide ScanString, PiecesText, Chars, ParseValue, LegalString;
    assert t[1..] == PiecesText(ps) + s;
    StringValue(t);
  }

  lemma BadChar(s: string)
    requires Peek(s) != '"' && ScanChar(s).Bad?
    ensures ScanString(s) == ScanChar(s)
  {
    hide ScanChar;
  }

  /** What goes wrong in a string: its end is missing, or a control character is not escaped. */
  lemma StringErrors(c: char, k: string)
    requires c as int < 0x20
    ensures ScanString("") == Bad(UnterminatedString, 1)
    ensures ScanString([c] + k) == Bad(if c == '\0' then UnterminatedString else ControlCharacter, |k| + 2)
  {
    var s := [c] + k;
    assert Peek(s) == c && |s| == |k| + 1;
    assert ScanChar(s) == Bad(if c == '\0' then UnterminatedString else ControlCharacter, |k| + 2) by {
      hide ScanUnicode, Unescape;
    }
    assert ScanChar("") == Bad(UnterminatedString, 1);
    hide ScanChar, ScanString;
    BadChar(s);
    BadChar("");
  }

  /** An unknown escape. */
  lemma EscapeErrors(c: char, k: string)
    requires c !in "\"\\/bfnrtu"
    ensures ScanString(['\\', c] + k) == Bad(UnknownEscape, |k| + 1)
  {
    var s := ['\\', c] + k;
    TwoTaken('\\', c, k);
    NoEscape(c);
    assert ScanChar(s) == Bad(UnknownEscape, |k| + 1) by { hide Unescape, ScanUnicode, Next, Peek; }
    hide ScanChar, ScanString, Next, Unescape;
    BadChar(s);
  }

  lemma NoEscape(c: char)
    requires c !in "\"\\/bfnrtu"
    ensures Unescape(c) == '\0' && c != 'u'
  {
    var all := "\"\\/bfnrtu";
    assert all[0] == '"' && all[1] == '\\' && all[2] == '/' && all[3] == 'b' && all[4] == 'f' && all[5] == 'n';
    assert all[6] == 'r' && all[7] == 't' && all[8] == 'u';
  }

  /** A wrong hexadecimal digit. */
  lemma HexErrors(u: string, c: char, k: string)
    requires |u| < 4 && (forall i :: 0 <= i < |u| ==> IsHexDigit(u[i])) && !IsHexDigit(c)
    ensures ScanString("\\u" + (u + ([c] + k))) == Bad(BadHexDigit, |k| + 1)
  {
    var s := u + ([c] + k);
    var t := ['\\', 'u'] + s;
    assert "\\u" + s == t;
    TwoTaken('\\', 'u', s);
    UnicodeEscape('a', t);
    HexFails(u, c, k, 4, 0);
    assert ScanUnicode(s) == Bad(BadHexDigit, |k| + 1) by { hide HexDigits; HexFour(s); }
    assert Peek(t) == '\\';
    hide *;
    BadChar(t);
  }

  lemma {:induction false} HexFails(u: string, c: char, k: string, n: nat, acc: nat)
    requires |u| < n && (forall i :: 0 <= i < |u| ==> IsHexDigit(u[i])) && !IsHexDigit(c)
    ensures HexDigits(u + ([c] + k), n, acc) == HexBad(|k| + 1)
    decreases |u|
  {
    var s := u + ([c] + k);
    if u == "" {
      assert s == [c] + k;
    } else {
      assert s[1..] == u[1..] + ([c] + k);
      HexFails(u[1..], c, k, n - 1, acc * 16 + HexValue(u[0]));
    }
  }

  /** A high surrogate without an escape behind it, or with one that is no low surrogate. */
  lemma SurrogateErrors(hi: string, cp: nat, lo: string, cp2: nat, c: char, k: string)
    requires Spells(hi, cp) && 0xD800 <= cp <= 0xDBFF && Spells(lo, cp2)
    ensures c != '\\' ==> ScanUnicode(hi + ([c] + k)) == Bad(MissingLowSurrogate, |k| + 2)
    ensures c != 'u' ==> ScanUnicode(hi + (['\\', c] + k)) == Bad(MissingLowSurrogate, |k| + 2)
    ensures !(0xDC00 <= cp2 <= 0xDFFF) ==> ScanUnicode(hi + (['\\', 'u'] + (lo + k))) == Bad(BadLowSurrogate, |k| + 2)
  {
    Hex4Reads(hi, cp, [c] + k);
    Hex4Reads(hi, cp, ['\\', c] + k);
    Hex4Reads(hi, cp, ['\\', 'u'] + (lo + k));
    Hex4Reads(lo, cp2, k);
    TwoTaken('\\', c, k);
    TwoTaken('\\', 'u', lo + k);
    hide Hex4, Utf8, Spells;
  }

  // ---- words ----

  /** A word that goes wrong behind a good beginning; "true" is reported one further on than the others. */
  lemma WordFails(letter: char, rest: string, good: string, c: char, k: string)
    requires (letter, rest) == ('n', "ull") || (letter, rest) == ('t', "rue") || (letter, rest) == ('f', "alse")
    requires good < rest && c != rest[|good|]
    ensures ParseValue(Lexemes, [letter] + (good + ([c] + k))) == Err([], InvalidValue, |k| + if letter == 't' then 0 else 1)
  {
    var s := [letter] + (good + ([c] + k));
    assert s[1..] == good + ([c] + k);
    WordValue(s);
    TakeFails(good, rest, c, k);
    hide ParseValue, TakeWord;
  }

  lemma {:induction false} TakeFails(good: string, rest: string, c: char, k: string)
    requires good < rest && c != rest[|good|]
    ensures TakeWord(good + ([c] + k), rest) == Taken(false, k)
    decreases |good|
  {
    var s := good + ([c] + k);
    if good == "" {
      assert s == [c] + k;
    } else {
      assert s[1..] == good[1..] + ([c] + k) && rest[1..][|good| - 1] == rest[|good|];
      TakeFails(good[1..], rest[1..], c, k);
    }
  }

  // ---- in an object ----

  lemma RootObject(before: string, t: string)
    requires Gap(before) && Peek(t) == '{' && ParseObject(Lexemes, t).Err?
    ensures ParseText(Lexemes, false, before + t) == ParseObject(Lexemes, t)
  {
    GapIsBlanks(before);
    hide SkipWhitespace, ParseArray, ParseObject, Gap;
    SkipBlanks(before, t);
  }

  lemma ObjectOfMembers(gap: string, s: string)
    requires Gap(gap) && s != "" && !IsBlank(s[0]) && s[0] != '}'
    ensures Peek("{" + (gap + s)) == '{'
    ensures ParseObject(Lexemes, "{" + (gap + s)) == After([E.StartObject], ParseMembers(Lexemes, s, 0))
  {
    GapIsBlanks(gap);
    hide SkipWhitespace, ParseMembers, Gap;
    SkipBlanks(gap, s);
    assert ("{" + (gap + s))[1..] == gap + s;
  }

  /** An error among the members. */
  lemma MembersFail(before: string, gap: string, s: string)
    requires Gap(before) && Gap(gap) && s != "" && !IsBlank(s[0]) && s[0] != '}' && ParseMembers(Lexemes, s, 0).Err?
    ensures var p := ParseMembers(Lexemes, s, 0);
      Fails(before + ("{" + (gap + s)), p.error, p.left)
  {
    hide *;
    var t := "{" + (gap + s);
    ObjectOfMembers(gap, s);
    AfterFails([E.StartObject], ParseMembers(Lexemes, s, 0));
    RootObject(before, t);
    FailsBy(before + t, ParseObject(Lexemes, t));
  }

  /** A member that does not begin with a string: at its start. */
  lemma NameFails(s: string, count: nat)
    requires Peek(s) != '"'
    ensures ParseMembers(Lexemes, s, count) == Err([], NameNotString, |s|)
  {
    hide ParseValue;
  }

  /** Something else than a colon behind a name: one past it. */
  lemma ColonFails(name: seq<Piece>, gap: string, c: char, k: string, count: nat)
    requires LegalString(name) && Gap(gap) && !Gap([c]) && c != ':'
    ensures ParseMembers(Lexemes, StringText(name) + (gap + ([c] + k)), count) == Err([E.String(Chars(name))], MissingColon, |k|)
  {
    var tail := [c] + k;
    assert IsBlank(c) ==> Gap([c]);
    StringReads(name, gap + tail);
    GapIsBlanks(gap);
    assert tail[1..] == k;
    hide ParseValue, ParseString, StringText, Chars, SkipWhitespace, Gap, LegalString;
    SkipBlanks(gap, tail);
  }

  /** Something else than a comma or a brace behind a member: one past it. */
  lemma MemberEndFails(m: Member, c: char, k: string, count: nat)
    requires LegalMember(m) && m.before == "" && m.value != Number("")
    requires !Gap([c]) && c != ',' && c != '}' && !NumberLetter(c)
    ensures var p := ParseMembers(Lexemes, MemberText(m) + ([c] + k), count);
      p.Err? && p.error == BadMemberEnd && p.left == |k|
  {
    var s, tail := MemberText(m) + ([c] + k), [c] + k;
    var x := Written(m.value) + (m.after + tail);
    NameReads(m, tail);
    SkipsNothing(m, tail);
    AfterColon(m, tail);
    ReadsBefore(m.value, m.after, c, k);
    GapIsBlanks(m.after);
    assert IsBlank(c) ==> Gap([c]);
    assert tail[1..] == k;
    hide ParseValue, ParseName, Legal, Gap, MemberText, Written, Tree, Chars, SkipWhitespace, ParseMembers, ItemText;
    SkipBlanks(m.after, tail);
    MembersSplit(Lexemes, s, count);
  }

  lemma SkipsNothing(m: Member, tail: string)
    requires m.before == ""
    ensures SkipWhitespace(MemberText(m) + tail) == MemberText(m) + tail
  {
    assert StringText(m.name)[0] == '"';
    assert MemberText(m)[0] == '"';
    hide MemberText;
  }

  lemma AfterColon(m: Member, tail: string)
    requires LegalMember(m) && m.value != Number("")
    ensures SkipWhitespace(ItemText(Item(m.afterColon, m.value, m.after)) + tail) == Written(m.value) + (m.after + tail)
  {
    GapIsBlanks(m.afterColon);
    ValueStarts(m.value, m.after + tail);
    hide Gap, Legal, Written, SkipWhitespace;
    Assembled(m.afterColon, Written(m.value), m.after, tail);
    SkipBlanks(m.afterColon, Written(m.value) + (m.after + tail));
  }
}
