/** The reader undoes the writers: strings, numbers, separators, and whole values. */
module Parsing {
  import opened Decimal
  import opened JsonValue
  import opened Render
  import opened ReaderSpec
  import E = Events
  import Sound = ReaderSound

  // ---- string escaping ----

  lemma HexInverse(c: char, k: string)
    requires c < ' '
    ensures Hex4(['0', '0', HEX_DIGITS[c as int / 16 % 16], HEX_DIGITS[c as int % 16]] + k) == HexOk(c as int, k)
  {
    hide Hex4;
    HexDigitValue(c as int / 16 % 16);
    HexDigitValue(c as int % 16);
    HexPair(HEX_DIGITS[c as int / 16 % 16], HEX_DIGITS[c as int % 16], k);
  }

  lemma HexPair(h: char, l: char, k: string)
    requires IsHexDigit(h) && IsHexDigit(l)
    ensures Hex4(['0', '0', h, l] + k) == HexOk(HexValue(h) * 16 + HexValue(l), k)
  {
    assert IsHexDigit('0') && HexValue('0') == 0;
    HexFour(['0', '0', h, l] + k);
    hide *;
    HexStepOne('0', ['0', h, l] + k, 4, 0);
    HexStepOne('0', [h, l] + k, 3, 0);
    HexStepOne(h, [l] + k, 2, 0);
    HexStepOne(l, k, 1, HexValue(h));
    Cons('0', ['0', h, l], k);
    Cons('0', [h, l], k);
    Cons(h, [l], k);
    HexNone(k, HexValue(h) * 16 + HexValue(l));
  }

  lemma Cons(c: char, s: string, k: string)
    ensures ([c] + s) + k == [c] + (s + k)
  {
  }

  lemma HexFour(s: string)
    ensures Hex4(s) == HexDigits(s, 4, 0)
  {
  }

  lemma HexStepOne(c: char, k: string, n: nat, acc: nat)
    requires IsHexDigit(c) && n > 0
    ensures HexDigits([c] + k, n, acc) == HexDigits(k, n - 1, acc * 16 + HexValue(c))
  {
    assert ([c] + k)[1..] == k;
  }

  lemma HexNone(k: string, acc: nat)
    ensures HexDigits(k, 0, acc) == HexOk(acc, k)
  {
  }

  lemma HexDigitValue(d: nat)
    requires d < 16
    ensures IsHexDigit(HEX_DIGITS[d]) && HexValue(HEX_DIGITS[d]) == d
  {
  }

  lemma TwoTaken(a: char, b: char, k: string)
    ensures var s := [a, b] + k; Peek(s) == a && Peek(Next(s)) == b && Next(Next(s)) == k
  {
    assert ([a, b] + k)[1..] == [b] + k;
    assert ([b] + k)[1..] == k;
  }

  /** The escapes that are one letter. */
  lemma LetterInverse(c: char, k: string)
    requires EscapeOf(c) != '\0' && EscapeOf(c) != 'u'
    ensures ScanChar(['\\', EscapeOf(c)] + k) == Scanned([c], k)
  {
    TwoTaken('\\', EscapeOf(c), k);
    assert Unescape(EscapeOf(c)) == c != '\0';
    hide Peek, Next, EscapeOf, Unescape, ScanUnicode;
  }

  lemma UnicodeParts(x: char, y: char, k: string)
    ensures "\\u00" + [x, y] + k == ['\\', 'u'] + (['0', '0', x, y] + k)
  {
  }

  lemma UnicodeScanned(s: string, c: char, k: string)
    requires Hex4(s) == HexOk(c as int, k) && c < ' '
    ensures ScanUnicode(s) == Scanned([c], k)
  {
    hide Hex4;
  }

  lemma UnicodeEscape(c: char, s: string)
    ensures EscapeOf(c) == 'u' ==> EscapeChar(c) == "\\u00" + [HEX_DIGITS[c as int / 16 % 16], HEX_DIGITS[c as int % 16]] && c < ' '
    ensures Peek(s) == '\\' && Peek(Next(s)) == 'u' ==> ScanChar(s) == ScanUnicode(Next(Next(s)))
  {
    hide ScanUnicode;
    assert Unescape('u') == '\0';
  }

  /** The escapes that spell out four hexadecimal digits. */
  lemma UnicodeInverse(c: char, k: string)
    requires EscapeOf(c) == 'u'
    ensures ScanChar(EscapeChar(c) + k) == Scanned([c], k)
  {
    var x, y := HEX_DIGITS[c as int / 16 % 16], HEX_DIGITS[c as int % 16];
    hide *;
    UnicodeEscape(c, EscapeChar(c) + k);
    HexInverse(c, k);
    var digits := ['0', '0', x, y] + k;
    UnicodeParts(x, y, k);
    UnicodeScanned(digits, c, k);
    TwoTaken('\\', 'u', digits);
  }

  /** One written character is read back as itself. */
  lemma CharInverse(c: char, k: string)
    ensures Peek(EscapeChar(c) + k) != '"'
    ensures ScanChar(EscapeChar(c) + k) == Scanned([c], k)
  {
    if EscapeOf(c) == 'u' {
      UnicodeInverse(c, k);
    } else if EscapeOf(c) == '\0' {
      assert ([c] + k)[1..] == k;
    } else {
      LetterInverse(c, k);
    }
  }

  /** `ParseStringToStream` undoes `WriteString` on every string: the characters, one terminator, and
      nothing of what follows. */
  lemma {:induction false} StringInverse(s: string, k: string)
    ensures ScanString(Escaped(s) + "\"" + k) == Scanned(s + "\0", k)
    decreases |s|
  {
    hide ScanChar, EscapeChar;
    if s == "" {
      assert "" + "\"" + k == "\"" + k && ("\"" + k)[1..] == k;
    } else {
      var t := Escaped(s[1..]) + "\"" + k;
      StringInverse(s[1..], k);
      CharInverse(s[0], t);
      assert Escaped(s) + "\"" + k == EscapeChar(s[0]) + t;
      assert [s[0]] + (s[1..] + "\0") == s + "\0";
    }
  }

  lemma QuotedInverse(s: string, k: string)
    ensures Peek(Quoted(s) + k) == '"' && ParseString(Quoted(s) + k) == Ok([E.String(s)], k)
  {
    hide ScanString, Escaped;
    StringInverse(s, k);
    assert (Quoted(s) + k)[1..] == Escaped(s) + "\"" + k;
    assert (s + "\0")[..|s|] == s;
  }

  // ---- numbers ----

  predicate NumberChars(s: string) {
    forall i :: 0 <= i < |s| ==> IsNumberChar(s[i])
  }

  /** A text the lenient lexer takes as one number. */
  predicate NumberText(s: string) { s != "" && NumberChars(s) }

  /** What may follow a number: no number character. */
  predicate Stops(k: string) { !IsNumberChar(Peek(k)) }

  lemma {:induction false} LexemeInverse(s: string, k: string)
    requires NumberChars(s) && Stops(k)
    ensures Lexeme(s + k) == s
    decreases |s|
  {
    if s == "" {
      assert s + k == k;
    } else {
      LexemeInverse(s[1..], k);
      assert (s + k)[1..] == s[1..] + k;
      assert [s[0]] + s[1..] == s;
    }
  }

  lemma NumberInverse(s: string, k: string)
    requires NumberText(s) && Stops(k)
    ensures ParseValue(Lexemes, s + k) == Ok([E.BigNum(s)], k)
  {
    hide ParseWord, ParseString, ParseArray, ParseObject, Lexeme;
    LexemeInverse(s, k);
    assert (s + k)[|s|..] == k;
    assert Peek(s + k) == s[0];
  }

  lemma DecIsNumber(i: int)
    ensures NumberText(Dec(i))
  {
  }

  // ---- blanks ----

  predicate Blanks(s: string) {
    forall i :: 0 <= i < |s| ==> IsBlank(s[i])
  }

  lemma {:induction false} SkipBlanks(b: string, k: string)
    requires Blanks(b) && !IsBlank(Peek(k))
    ensures SkipWhitespace(b + k) == k
    decreases |b|
  {
    if b == "" {
      assert b + k == k;
    } else {
      SkipBlanks(b[1..], k);
      assert (b + k)[1..] == b[1..] + k;
    }
  }

  /** A separator is an optional comma or colon and then blanks. */
  lemma SeparatorShape(style: Style, d: nat, inArray: bool, count: nat, big: bool) returns (mark: string, blanks: string)
    requires ProperStyle(style)
    ensures Separator(style, d, inArray, count, big) == mark + blanks && Blanks(blanks)
    ensures mark == if count == 0 then "" else if inArray || count % 2 == 0 then "," else ":"
  {
    mark := if count == 0 then "" else if inArray || count % 2 == 0 then "," else ":";
    var sep := Separator(style, d, inArray, count, big);
    blanks := sep[|mark|..];
  }

  /** A container's text after its last value: blanks and the bracket. */
  lemma ClosingShape(style: Style, d: nat, empty: bool, close: char, k: string)
    requires ProperStyle(style) && (close == ']' || close == '}')
    ensures var t := Closing(style, d, empty) + ([close] + k);
      SkipWhitespace(t) == [close] + k && Stops(t)
  {
    SkipBlanks(Closing(style, d, empty), [close] + k);
  }

  // ---- values ----

  /** Doubles and big numbers are written as texts the lexer takes as one number. */
  ghost predicate Printable(libc: Libc, v: Json) {
    match v
    case Double(r) => NumberText(libc.show(r))
    case Big(n) => NumberText(n)
    case Map(es) => forall i :: 0 <= i < |es| ==> Printable(libc, es[i].value)
    case List(xs) => forall i :: 0 <= i < |xs| ==> Printable(libc, xs[i])
    case Graft(t) => Printable(libc, t)
    case _ => true
  }

  /** The tree a value's text spells: what the visitor delivers, numbers as lexemes. */
  function TreeOf(libc: Libc, v: Json): E.Tree
    decreases v, 1, 0
  {
    match v
    case Null => E.Leaf(E.Null)
    case Bool(b) => E.Leaf(E.Bool(b))
    case Int(i) => E.Leaf(E.BigNum(Dec(i)))
    case Double(r) => E.Leaf(E.BigNum(libc.show(r)))
    case Str(s) => E.Leaf(E.String(s))
    case Big(n) => E.Leaf(E.BigNum(n))
    case Map(es) => E.Obj(MembersOf(libc, es, 0))
    case List(xs) => E.Arr(TreesOf(libc, xs, 0))
    case Graft(t) => TreeOf(libc, t)
  }

  function TreesOf(libc: Libc, xs: seq<Json>, i: nat): (ts: seq<E.Tree>)
    requires i <= |xs|
    ensures |ts| == |xs| - i
    decreases xs, 0, |xs| - i
  {
    if i == |xs| then [] else [TreeOf(libc, xs[i])] + TreesOf(libc, xs, i + 1)
  }

  function MembersOf(libc: Libc, es: seq<Entry>, i: nat): (ms: seq<E.Member>)
    requires i <= |es|
    ensures |ms| == |es| - i
    decreases es, 0, |es| - i
  {
    if i == |es| then []
    else [E.Member(es[i].key, TreeOf(libc, es[i].value))] + MembersOf(libc, es, i + 1)
  }

  /** A value's text does not begin with a blank or a closing bracket. */
  lemma {:induction false} TextStart(libc: Libc, style: Style, d: nat, v: Json, k: string)
    requires Printable(libc, v)
    ensures var c := Peek(Text(libc, style, d, v) + k); !IsBlank(c) && c != ']' && c != '}'
    decreases v
  {
    match v
    case Int(i) => DecIsNumber(i);
    case Graft(t) => TextStart(libc, style, d, t, k);
    case Map(es) => assert Text(libc, style, d, v)[0] == '{';
    case List(xs) => assert Text(libc, style, d, v)[0] == '[';
    case _ =>
  }

  lemma WordValue(s: string)
    ensures Peek(s) == 'n' ==> ParseValue(Lexemes, s) == ParseWord(Next(s), "ull", E.Null, 1)
    ensures Peek(s) == 't' ==> ParseValue(Lexemes, s) == ParseWord(Next(s), "rue", E.Bool(true), 0)
    ensures Peek(s) == 'f' ==> ParseValue(Lexemes, s) == ParseWord(Next(s), "alse", E.Bool(false), 1)
  {
    hide ParseWord, ParseString, ParseNumber, ParseArray, ParseObject;
  }

  lemma WordInverse(k: string)
    ensures ParseValue(Lexemes, "null" + k) == Ok([E.Null], k)
    ensures ParseValue(Lexemes, "true" + k) == Ok([E.Bool(true)], k)
    ensures ParseValue(Lexemes, "false" + k) == Ok([E.Bool(false)], k)
  {
    hide ParseValue, TakeWord;
    WordValue("null" + k);
    WordValue("true" + k);
    WordValue("false" + k);
    assert ("null" + k)[1..] == "ull" + k && ("true" + k)[1..] == "rue" + k && ("false" + k)[1..] == "alse" + k;
    TakeWhole("ull", k);
    TakeWhole("rue", k);
    TakeWhole("alse", k);
  }

  lemma {:induction false} TakeWhole(word: string, k: string)
    ensures TakeWord(word + k, word) == Taken(true, k)
    decreases |word|
  {
    if word == "" {
      assert word + k == k;
    } else {
      TakeWhole(word[1..], k);
      assert (word + k)[1..] == word[1..] + k;
    }
  }

  /** The reader delivers exactly the events of a written value's tree and stops right after its text,
      whatever the writer, the depth and what follows. */
  lemma {:induction false} ValueInverse(libc: Libc, style: Style, d: nat, v: Json, k: string)
    requires ProperStyle(style) && Printable(libc, v) && Stops(k)
    ensures ParseValue(Lexemes, Text(libc, style, d, v) + k) == Ok(E.TreeEvents(TreeOf(libc, v)), k)
    decreases v, 3
  {
    hide ParseValue;
    match v
    case Null => WordInverse(k);
    case Bool(b) => WordInverse(k);
    case Int(i) => DecIsNumber(i); NumberInverse(Dec(i), k);
    case Double(r) => NumberInverse(libc.show(r), k);
    case Str(s) => QuotedInverse(s, k); StringValue(Quoted(s) + k);
    case Big(n) => NumberInverse(n, k);
    case Map(es) => MapInverse(libc, style, d, v, k); ContainerValue(Text(libc, style, d, v) + k);
    case List(xs) => ListInverse(libc, style, d, v, k); ContainerValue(Text(libc, style, d, v) + k);
    case Graft(t) => ValueInverse(libc, style, d, t, k);
  }

  lemma StringValue(s: string)
    requires Peek(s) == '"'
    ensures ParseValue(Lexemes, s) == ParseString(s)
  {
    hide ParseString;
  }

  lemma ContainerValue(s: string)
    ensures Peek(s) == '[' ==> ParseValue(Lexemes, s) == ParseArray(Lexemes, s)
    ensures Peek(s) == '{' ==> ParseValue(Lexemes, s) == ParseObject(Lexemes, s)
  {
    hide ParseArray, ParseObject;
  }

  /** The text of a list's items from `i` on and what follows the list's last item. */
  function ItemsTail(libc: Libc, style: Style, d: nat, xs: seq<Json>, i: nat, k: string): string
    requires i <= |xs|
  {
    ItemsText(libc, style, d + 1, xs, i) + (Closing(style, d, xs == []) + ("]" + k))
  }

  lemma ItemsTailStep(libc: Libc, style: Style, d: nat, xs: seq<Json>, i: nat, k: string)
    requires i < |xs|
    ensures ItemsTail(libc, style, d, xs, i, k)
      == Separator(style, d + 1, true, i, Ungraft(xs[i]).Big?) + (Text(libc,
        style, d + 1, xs[i]) + ItemsTail(libc, style, d, xs, i + 1, k))
  {
    hide Separator, Text, Ungraft, Closing;
  }

  lemma ItemsTailEnd(libc: Libc, style: Style, d: nat, xs: seq<Json>, k: string)
    ensures ItemsTail(libc, style, d, xs, |xs|, k) == Closing(style, d, xs == []) + ("]" + k)
  {
    hide Closing;
  }

  lemma ListText(libc: Libc, style: Style, d: nat, xs: seq<Json>, k: string)
    ensures Text(libc, style, d, List(xs)) + k == "[" + ItemsTail(libc, style, d, xs, 0, k)
  {
    hide ItemsText, Closing;
  }

  lemma ArrayStart(s: string, first: string)
    requires Peek(s) == '[' && SkipWhitespace(Next(s)) == first && Peek(first) != ']'
    ensures ParseArray(Lexemes, s) == After([E.StartArray], ParseElements(Lexemes, first, 0))
  {
    hide ParseElements, SkipWhitespace;
  }

  lemma EmptyArray(libc: Libc, style: Style, d: nat, k: string)
    requires ProperStyle(style)
    ensures var s := Text(libc, style, d, List([])) + k;
      Peek(s) == '[' && ParseArray(Lexemes, s) == Ok(E.TreeEvents(TreeOf(libc, List([]))), k)
  {
    hide SkipWhitespace;
    var s := Text(libc, style, d, List([])) + k;
    assert s == "[]" + k && TreesOf(libc, [], 0) == [];
    assert s[1..] == "]" + k && s[1..][1..] == k;
    SkipNone("]" + k);
    Sound.EmptyEvents();
  }

  lemma ListInverse(libc: Libc, style: Style, d: nat, v: Json, k: string)
    requires v.List? && ProperStyle(style) && Printable(libc, v) && Stops(k)
    ensures var s := Text(libc, style, d, v) + k;
      Peek(s) == '[' && ParseArray(Lexemes, s) == Ok(E.TreeEvents(TreeOf(libc, v)), k)
    decreases v, 2
  {
    hide Text, ItemsTail, ParseArray, ParseElements, Separator, SkipWhitespace, TreesOf, E.ItemEvents;
    var xs := v.items;
    if xs == [] {
      EmptyArray(libc, style, d, k);
    } else {
      var s := Text(libc, style, d, v) + k;
      var tail := ItemsTail(libc, style, d, xs, 0, k);
      ListText(libc, style, d, xs, k);
      assert s[1..] == tail;
      ItemsTailStep(libc, style, d, xs, 0, k);
      var mark, blanks := SeparatorShape(style, d + 1, true, 0, Ungraft(xs[0]).Big?);
      var first := Text(libc, style, d + 1, xs[0]) + ItemsTail(libc, style, d, xs, 1, k);
      TextStart(libc, style, d + 1, xs[0], ItemsTail(libc, style, d, xs, 1, k));
      SkipBlanks(blanks, first);
      assert tail == blanks + first;
      ArrayStart(s, first);
      ItemsInverse(libc, style, d, xs, 0, k);
      Wrapped(E.StartArray, E.ItemEvents(TreesOf(libc, xs, 0)), E.EndArray(|xs|));
    }
  }

  lemma Wrapped(open: E.Event, body: seq<E.Event>, close: E.Event)
    ensures [open] + (body + [close]) == [open] + body + [close]
  {
  }

  /** The elements loop, from the text of item `i`. */
  lemma {:induction false} ItemsInverse(libc: Libc, style: Style, d: nat, xs: seq<Json>, i: nat, k: string)
    requires i < |xs| && ProperStyle(style) && Stops(k)
    requires forall j :: 0 <= j < |xs| ==> Printable(libc, xs[j])
    ensures ParseElements(Lexemes, Text(libc, style, d + 1, xs[i]) + ItemsTail(libc, style, d, xs, i + 1, k), i)
      == Ok(E.ItemEvents(TreesOf(libc, xs, i)) + [E.EndArray(|xs|)], k)
    ensures !IsBlank(Peek(Text(libc, style, d + 1, xs[i]) + ItemsTail(libc, style, d, xs, i + 1, k)))
    decreases xs, 1, |xs| - i
  {
    hide Closing, ParseValue, Separator, SkipWhitespace, Text, ItemsTail, TreeOf;
    var tail := ItemsTail(libc, style, d, xs, i + 1, k);
    TextStart(libc, style, d + 1, xs[i], tail);
    Sound.ItemStep(TreeOf(libc, xs[i]), TreesOf(libc, xs, i + 1), [E.EndArray(|xs|)]);
    if i + 1 == |xs| {
      ItemsTailEnd(libc, style, d, xs, k);
      ClosingShape(style, d, false, ']', k);
      ValueInverse(libc, style, d + 1, xs[i], tail);
      assert ("]" + k)[1..] == k;
      Sound.EmptyEvents();
    } else {
      ItemsTailStep(libc, style, d, xs, i + 1, k);
      var mark, blanks := SeparatorShape(style, d + 1, true, i + 1, Ungraft(xs[i + 1]).Big?);
      var next := Text(libc, style, d + 1, xs[i + 1]) + ItemsTail(libc, style, d, xs, i + 2, k);
      assert tail == "," + (blanks + next);
      assert tail[1..] == blanks + next;
      ValueInverse(libc, style, d + 1, xs[i], tail);
      SkipNone(tail);
      ItemsInverse(libc, style, d, xs, i + 1, k);
      SkipBlanks(blanks, next);
    }
  }

  lemma SkipNone(s: string)
    requires !IsBlank(Peek(s))
    ensures SkipWhitespace(s) == s
  {
  }

  /** The text of a map's entries from `i` on and what follows the map's last entry. */
  function EntriesTail(libc: Libc, style: Style, d: nat, es: seq<Entry>, i: nat, k: string): string
    requires i <= |es|
  {
    EntriesText(libc, style, d + 1, es, i) + (Closing(style, d, es == []) + ("}" + k))
  }

  /** The part of an entry's text after its key. */
  function ValueTail(libc: Libc, style: Style, d: nat, es: seq<Entry>, i: nat, k: string): string
    requires i < |es|
  {
    Separator(style, d + 1, false, 2 * i + 1, Ungraft(es[i].value).Big?) +
    (Text(libc, style, d + 1, es[i].value) + EntriesTail(libc, style, d, es, i + 1, k))
  }

  lemma EntriesTailStep(libc: Libc, style: Style, d: nat, es: seq<Entry>, i: nat, k: string)
    requires i < |es|
    ensures EntriesTail(libc, style, d, es, i, k)
      == Separator(style, d + 1, false, 2 * i, false) + (Quoted(es[i].key) + ValueTail(libc, style, d, es, i, k))
  {
    hide Separator, Text, Ungraft, Closing, Quoted;
  }

  lemma EntriesTailEnd(libc: Libc, style: Style, d: nat, es: seq<Entry>, k: string)
    ensures EntriesTail(libc, style, d, es, |es|, k) == Closing(style, d, es == []) + ("}" + k)
  {
    hide Closing;
  }

  lemma ObjectStart(s: string, first: string)
    requires Peek(s) == '{' && SkipWhitespace(Next(s)) == first && Peek(first) != '}'
    ensures ParseObject(Lexemes, s) == After([E.StartObject], ParseMembers(Lexemes, first, 0))
  {
    hide ParseMembers, SkipWhitespace;
  }

  lemma EmptyObject(libc: Libc, style: Style, d: nat, k: string)
    requires ProperStyle(style)
    ensures var s := Text(libc, style, d, Map([])) + k;
      Peek(s) == '{' && ParseObject(Lexemes, s) == Ok(E.TreeEvents(TreeOf(libc, Map([]))), k)
  {
    hide SkipWhitespace;
    var s := Text(libc, style, d, Map([])) + k;
    assert s == "{}" + k;
    assert s[1..] == "}" + k && s[1..][1..] == k;
    SkipNone("}" + k);
    Sound.EmptyEvents();
  }

  lemma MapText(libc: Libc, style: Style, d: nat, es: seq<Entry>, k: string)
    ensures Text(libc, style, d, Map(es)) + k == "{" + EntriesTail(libc, style, d, es, 0, k)
  {
    hide EntriesText, Closing;
  }

  lemma MapInverse(libc: Libc, style: Style, d: nat, v: Json, k: string)
    requires v.Map? && ProperStyle(style) && Printable(libc, v) && Stops(k)
    ensures var s := Text(libc, style, d, v) + k;
      Peek(s) == '{' && ParseObject(Lexemes, s) == Ok(E.TreeEvents(TreeOf(libc, v)), k)
    decreases v, 2
  {
    hide ParseString, Text, EntriesTail, ParseObject, ParseMembers,
      Separator, SkipWhitespace, ValueTail, Quoted, MembersOf, E.MemberEvents;
    var es := v.entries;
    if es == [] {
      EmptyObject(libc, style, d, k);
    } else {
      var s := Text(libc, style, d, v) + k;
      var tail := EntriesTail(libc, style, d, es, 0, k);
      MapText(libc, style, d, es, k);
      assert s[1..] == tail;
      EntriesTailStep(libc, style, d, es, 0, k);
      var mark, blanks := SeparatorShape(style, d + 1, false, 0, false);
      var first := Quoted(es[0].key) + ValueTail(libc, style, d, es, 0, k);
      QuotedInverse(es[0].key, ValueTail(libc, style, d, es, 0, k));
      SkipBlanks(blanks, first);
      assert tail == blanks + first;
      ObjectStart(s, first);
      EntriesInverse(libc, style, d, es, 0, k);
      Wrapped(E.StartObject, E.MemberEvents(MembersOf(libc, es, 0)), E.EndObject(|es|));
    }
  }

  /** What the members loop does with a member that has been read. */
  function AfterValue(mode: NumberMode, v: Parsed, count: nat): Parsed {
    if v.Err? then v
    else
      var s2 := SkipWhitespace(v.rest);
      var s3 := Next(s2);
      if Peek(s2) == ',' then After(v.log, ParseMembers(mode, SkipWhitespace(s3), count + 1))
      else if Peek(s2) == '}' then Ok(v.log + [E.EndObject(count + 1)], s3)
      else Err(v.log, BadMemberEnd, |s3|)
  }

  lemma NameInverse(key: string, blanks: string, value: string)
    requires Blanks(blanks) && !IsBlank(Peek(value))
    ensures ParseName(Quoted(key) + (":" + (blanks + value))) == Ok([E.String(key)], value)
  {
    hide ParseString, Quoted, SkipWhitespace;
    var w := ":" + (blanks + value);
    QuotedInverse(key, w);
    assert w[1..] == blanks + value;
    SkipNone(w);
    SkipBlanks(blanks, value);
  }

  lemma MembersSplit(mode: NumberMode, s: string, count: nat)
    requires ParseName(s).Ok?
    ensures ParseMembers(mode, s, count) == AfterValue(mode, After(ParseName(s).log, ParseValue(mode, ParseName(s).rest)), count)
  {
    hide ParseValue, SkipWhitespace, ParseName;
  }

  /** The members loop, from the text of entry `i`. */
  lemma {:induction false} EntriesInverse(libc: Libc, style: Style, d: nat, es: seq<Entry>, i: nat, k: string)
    requires i < |es| && ProperStyle(style) && Stops(k)
    requires forall j :: 0 <= j < |es| ==> Printable(libc, es[j].value)
    ensures ParseMembers(Lexemes, Quoted(es[i].key) + ValueTail(libc, style, d, es, i, k), i)
      == Ok(E.MemberEvents(MembersOf(libc, es, i)) + [E.EndObject(|es|)], k)
    decreases es, 1, |es| - i
  {
    hide ParseString, Closing, ParseValue, Separator, SkipWhitespace,
      Text, EntriesTail, TreeOf, ParseMembers, ParseName, Quoted, AfterValue, Printable, E.MemberEvents, E.TreeEvents, Ungraft;
    var w := ValueTail(libc, style, d, es, i, k);
    var tail := EntriesTail(libc, style, d, es, i + 1, k);
    var mark, blanks := SeparatorShape(style, d + 1, false, 2 * i + 1, Ungraft(es[i].value).Big?);
    var value := Text(libc, style, d + 1, es[i].value) + tail;
    assert w == ":" + (blanks + value);
    TextStart(libc, style, d + 1, es[i].value, tail);
    NameInverse(es[i].key, blanks, value);
    MembersSplit(Lexemes, Quoted(es[i].key) + w, i);
    var m := E.Member(es[i].key, TreeOf(libc, es[i].value));
    Sound.MemberStep(m, MembersOf(libc, es, i + 1), [E.EndObject(|es|)]);
    EntryEnd(libc, style, d, es, i, k);
  }

  /** From behind the value of entry `i`. */
  lemma {:induction false} EntryEnd(libc: Libc, style: Style, d: nat, es: seq<Entry>, i: nat, k: string)
    requires i < |es| && ProperStyle(style) && Stops(k)
    requires forall j :: 0 <= j < |es| ==> Printable(libc, es[j].value)
    ensures var key := [E.String(es[i].key)];
      var value := Text(libc, style, d + 1, es[i].value) + EntriesTail(libc, style, d, es, i + 1, k);
      AfterValue(Lexemes, After(key, ParseValue(Lexemes, value)), i)
        == Ok(key + E.TreeEvents(TreeOf(libc, es[i].value)) + (E.MemberEvents(MembersOf(libc, es, i + 1)) + [E.EndObject(|es|)]), k)
    decreases es, 1, |es| - i, 0
  {
    hide ParseString, Closing, ParseValue, Separator, SkipWhitespace,
      Text, EntriesTail, TreeOf, ParseMembers, Quoted, ValueTail, Printable, E.TreeEvents, Ungraft;
    var tail := EntriesTail(libc, style, d, es, i + 1, k);
    if i + 1 == |es| {
      EntriesTailEnd(libc, style, d, es, k);
      ClosingShape(style, d, false, '}', k);
      ValueInverse(libc, style, d + 1, es[i].value, tail);
      assert ("}" + k)[1..] == k;
      Sound.EmptyEvents();
    } else {
      EntriesTailStep(libc, style, d, es, i + 1, k);
      var mark, blanks := SeparatorShape(style, d + 1, false, 2 * (i + 1), false);
      var next := Quoted(es[i + 1].key) + ValueTail(libc, style, d, es, i + 1, k);
      assert tail == "," + (blanks + next);
      assert tail[1..] == blanks + next;
      ValueInverse(libc, style, d + 1, es[i].value, tail);
      SkipNone(tail);
      QuotedInverse(es[i + 1].key, ValueTail(libc, style, d, es, i + 1, k));
      SkipBlanks(blanks, next);
      EntriesInverse(libc, style, d, es, i + 1, k);
    }
  }

  /** A whole text: the reader accepts what either writer produces for a container, and delivers the same
      events for both. */
  lemma TextInverse(libc: Libc, style: Style, v: Json, ignoreTrailing: bool)
    requires ProperStyle(style) && Printable(libc, v) && (Ungraft(v).Map? || Ungraft(v).List?)
    ensures ParseText(Lexemes, ignoreTrailing, Text(libc, style, 0, v)) == Ok(E.TreeEvents(TreeOf(libc, v)), "")
    decreases v
  {
    hide ParseObject, ParseArray;
    if v.Graft? {
      TextInverse(libc, style, v.target, ignoreTrailing);
    } else {
      var s := Text(libc, style, 0, v);
      assert s + "" == s;
      TextStart(libc, style, 0, v, "");
      if v.Map? {
        MapInverse(libc, style, 0, v, "");
      } else {
        ListInverse(libc, style, 0, v, "");
      }
    }
  }
}
