/** The reader takes no other texts: whatever it takes is a text of the grammar, read as the tree it spells. */
module Exactness {
  import opened Grammar
  import opened ReaderSpec
  import opened Unicode
  import Parsing
  import E = Events
  import Completeness
  import Sound = ReaderSound

  // ---- strings ----

  lemma HexFound(s: string)
    requires Hex4(s).HexOk?
    ensures |s| >= 4 && s[4..] == Hex4(s).rest && Spells(s[..4], Hex4(s).codepoint)
  {
    var a := HexDigits(s, 4, 0);
    assert IsHexDigit(s[0]) && IsHexDigit(s[1]) && IsHexDigit(s[2]) && IsHexDigit(s[3]) by {
      hide HexValue, IsHexDigit;
      assert a == HexDigits(s[1..], 3, HexValue(s[0]));
      assert a == HexDigits(s[1..][1..], 2, HexValue(s[0]) * 16 + HexValue(s[1]));
      assert a == HexDigits(s[1..][1..][1..], 1, (HexValue(s[0]) * 16 + HexValue(s[1])) * 16 + HexValue(s[2]));
    }
    var u := s[..4];
    assert u[0] == s[0] && u[1] == s[1] && u[2] == s[2] && u[3] == s[3] && s == u + s[4..];
    Hex4Reads(u, ((HexValue(u[0]) * 16 + HexValue(u[1])) * 16 + HexValue(u[2])) * 16 + HexValue(u[3]), s[4..]);
  }

  lemma EscapeFound(s: string) returns (p: Piece)
    requires ScanUnicode(s).Scanned?
    ensures LegalPiece(p) && p.Escape? && s == p.digits + ScanUnicode(s).rest && ScanUnicode(s).chars == PieceChars(p)
  {
    hide Hex4, Utf8, Spells;
    HexFound(s);
    var cp, s1 := Hex4(s).codepoint, Hex4(s).rest;
    if 0xD800 <= cp <= 0xDBFF {
      var s2 := s1[1..][1..];
      HexFound(s2);
      var cp2 := Hex4(s2).codepoint;
      var digits := s[..10];
      assert digits[..4] == s[..4] && digits[4..6] == "\\u" && digits[6..] == s2[..4] && s[10..] == s2[4..];
      p := Escape(digits, (cp - 0xD800) * 0x400 + (cp2 - 0xDC00) + 0x1_0000);
    } else {
      p := Escape(s[..4], cp);
    }
  }

  lemma PieceFound(s: string) returns (p: Piece)
    requires Peek(s) != '"' && ScanChar(s).Scanned?
    ensures LegalPiece(p) && s == PieceText(p) + ScanChar(s).rest && ScanChar(s).chars == PieceChars(p)
  {
    hide ScanUnicode, Utf8, Escapes;
    if Peek(s) == '\\' {
      var e := Peek(Next(s));
      if Unescape(e) != '\0' {
        p := Short(e, Unescape(e));
      } else {
        p := EscapeFound(Next(Next(s)));
        assert "\\u" + p.digits + ScanChar(s).rest == "\\u" + (p.digits + ScanChar(s).rest);
      }
    } else {
      p := Plain(s[0]);
    }
  }

  lemma {:induction false} PiecesFound(s: string) returns (ps: seq<Piece>)
    requires ScanString(s).Scanned?
    ensures LegalString(ps) && s == PiecesText(ps) + ("\"" + ScanString(s).rest) && ScanString(s).chars == Chars(ps) + "\0"
    decreases |s|
  {
    hide ScanChar, PieceText, PieceChars, LegalPiece;
    if Peek(s) == '"' {
      ps := [];
      assert s == "\"" + Next(s);
    } else {
      var t := ScanChar(s).rest;
      var p := PieceFound(s);
      var qs := PiecesFound(t);
      ps := [p] + qs;
      assert ps[1..] == qs;
      assert PieceText(p) + (PiecesText(qs) + ("\"" + ScanString(s).rest)) == PiecesText(ps) + ("\"" + ScanString(s).rest);
      assert PieceChars(p) + (Chars(qs) + "\0") == Chars(ps) + "\0";
    }
  }

  lemma StringFound(s: string) returns (ps: seq<Piece>)
    requires Peek(s) == '"' && ParseString(s).Ok?
    ensures LegalString(ps) && s == StringText(ps) + ParseString(s).rest && ParseString(s).log == [E.String(Chars(ps))]
  {
    hide ScanString, PiecesText, Chars;
    ps := PiecesFound(Next(s));
    assert (Chars(ps) + "\0")[..|Chars(ps)|] == Chars(ps);
    var rest := ParseString(s).rest;
    assert s == "\"" + (PiecesText(ps) + ("\"" + rest));
    assert StringText(ps) + rest == "\"" + (PiecesText(ps) + ("\"" + rest));
  }

  // ---- blanks, words and numbers ----

  lemma {:induction false} GapFound(s: string) returns (gap: string)
    ensures Gap(gap) && s == gap + SkipWhitespace(s) && !IsBlank(Peek(SkipWhitespace(s)))
    decreases |s|
  {
    if IsBlank(Peek(s)) {
      var g := GapFound(s[1..]);
      gap := [s[0]] + g;
      GapCons(s[0], g);
      hide Gap, IsBlank;
      Parsing.Cons(s[0], g, SkipWhitespace(s[1..]));
      assert s == [s[0]] + s[1..];
    } else {
      gap := "";
      assert "" + s == s;
    }
  }

  lemma GapCons(c: char, g: string)
    requires Gap(g) && IsBlank(c)
    ensures Gap([c] + g)
  {
  }

  lemma {:induction false} WordFound(s: string, word: string)
    requires TakeWord(s, word).all && forall i :: 0 <= i < |word| ==> word[i] != '\0'
    ensures s == word + TakeWord(s, word).rest
    decreases |word|
  {
    if word == "" {
      assert "" + s == s;
    } else {
      assert s != "";
      WordFound(s[1..], word[1..]);
      assert s == [s[0]] + s[1..] && word == [word[0]] + word[1..];
      assert [word[0]] + word[1..] + TakeWord(s, word).rest == [word[0]] + (word[1..] + TakeWord(s, word).rest);
    }
  }

  lemma {:induction false} LexemeFound(s: string)
    ensures LegalNumber(Lexeme(s)) && Lexeme(s) <= s
    decreases |s|
  {
    if IsNumberChar(Peek(s)) { LexemeFound(Next(s)); }
  }

  /** A value whose text begins at the start of `s` and ends where the reader stopped. */
  ghost predicate Found(v: Node, s: string, p: Parsed) {
    p.Ok? && Legal(v) && s == Written(v) + p.rest && p.log == E.TreeEvents(Tree(v))
  }

  lemma OneWord(s: string, letter: char, word: string, event: E.Event, back: nat, whole: string)
    requires back <= 1 && s != "" && s[0] == letter && ParseWord(Next(s), word, event, back).Ok?
    requires whole == [letter] + word && forall i :: 0 <= i < |word| ==> word[i] != '\0'
    ensures s == whole + ParseWord(Next(s), word, event, back).rest && ParseWord(Next(s), word, event, back).log == [event]
  {
    hide TakeWord;
    WordFound(Next(s), word);
    Parsing.Cons(letter, word, TakeWord(Next(s), word).rest);
    assert s == [letter] + Next(s);
  }

  lemma LiteralFound(s: string) returns (v: Node)
    requires ParseValue(Lexemes, s).Ok? && (Peek(s) == 'n' || Peek(s) == 't' || Peek(s) == 'f')
    ensures Found(v, s, ParseValue(Lexemes, s)) && v != Number("")
  {
    Parsing.WordValue(s);
    hide ParseValue, ParseWord;
    match Peek(s)
    case 'n' => OneWord(s, 'n', "ull", E.Null, 1, "null"); v := NullWord;
    case 't' => OneWord(s, 't', "rue", E.Bool(true), 0, "true"); v := TrueWord;
    case _ => OneWord(s, 'f', "alse", E.Bool(false), 1, "false"); v := FalseWord;
  }

  lemma ScalarFound(s: string) returns (v: Node)
    requires ParseValue(Lexemes, s).Ok? && Peek(s) != '{' && Peek(s) != '['
    ensures Found(v, s, ParseValue(Lexemes, s)) && (v == Number("") ==> ParseValue(Lexemes, s).rest == s)
  {
    hide ParseWord, ParseString, Lexeme, StringText, Chars;
    match Peek(s)
    case '"' =>
      var ps := StringFound(s);
      v := Text(ps);
    case 'n' => v := LiteralFound(s);
    case 't' => v := LiteralFound(s);
    case 'f' => v := LiteralFound(s);
    case _ =>
      LexemeFound(s);
      v := Number(Lexeme(s));
      assert s == Lexeme(s) + s[|Lexeme(s)|..];
  }

  // ---- values ----

  lemma {:induction false} ValueFound(s: string) returns (v: Node)
    requires ParseValue(Lexemes, s).Ok?
    ensures Found(v, s, ParseValue(Lexemes, s)) && (v == Number("") ==> ParseValue(Lexemes, s).rest == s)
    decreases |s|, 2
  {
    hide Found;
    if Peek(s) == '{' {
      v := ObjFound(s);
    } else if Peek(s) == '[' {
      v := ArrFound(s);
    } else {
      v := ScalarFound(s);
    }
  }

  lemma {:induction false} ArrFound(s: string) returns (v: Node)
    requires Peek(s) == '[' && ParseArray(Lexemes, s).Ok?
    ensures v.Arr? && Found(v, s, ParseArray(Lexemes, s))
    decreases |s|, 1
  {
    hide ParseElements, SkipWhitespace, E.ItemEvents, ItemsText, Trees, LegalItem;
    var rest := ParseArray(Lexemes, s).rest;
    var gap := GapFound(Next(s));
    var s1 := SkipWhitespace(Next(s));
    if Peek(s1) == ']' {
      v := Arr(gap, []);
      Completeness.NoItems();
      Sound.EmptyEvents();
      Bracketed('[', gap, ']', rest);
      assert gap + "" == gap;
    } else {
      var items := ItemsFound(gap, s1, 0);
      if |items| == 1 && items[0].value == Number("") {
        assert items == [items[0]];
        LoneItem(items[0], s1, rest);
      }
      v := Arr("", items);
      Bracketed('[', ItemsText(items), ']', rest);
      assert "[" + "" == "[";
      Parsing.Wrapped(E.StartArray, E.ItemEvents(Trees(items)), E.EndArray(|items|));
    }
  }

  lemma Bracketed(open: char, body: string, close: char, rest: string)
    ensures [open] + body + [close] + rest == [open] + (body + ([close] + rest))
  {
  }

  lemma ElementsUnfold(s: string, count: nat)
    requires ParseElements(Lexemes, s, count).Ok?
    ensures var v, p := ParseValue(Lexemes, s), ParseElements(Lexemes, s, count);
      v.Ok? &&
      var t := SkipWhitespace(v.rest);
      var q := ParseElements(Lexemes, SkipWhitespace(Next(t)), count + 1);
      t != "" && |SkipWhitespace(Next(t))| < |s| &&
      if t[0] == ',' then q.Ok? && p.log == v.log + q.log && p.rest == q.rest
      else t == "]" + p.rest && p.log == v.log + [E.EndArray(count + 1)]
  {
    hide ParseValue, SkipWhitespace;
  }

  /** One more item in front. */
  lemma ItemJoins(text: string, x: Item, t: string, others: seq<Item>, rest: string, n: nat)
    requires text == ItemText(x) + t
    requires t == if others == [] then "]" + rest else "," + (ItemsText(others) + ("]" + rest))
    ensures text == ItemsText([x] + others) + ("]" + rest)
    ensures E.TreeEvents(Tree(x.value)) + (E.ItemEvents(Trees(others)) + [E.EndArray(n)]) ==
      E.ItemEvents(Trees([x] + others)) + [E.EndArray(n)]
    ensures others == [] ==> E.ItemEvents(Trees(others)) + [E.EndArray(n)] == [E.EndArray(n)]
  {
    hide ItemText, ItemsText, Trees, Tree, E.ItemEvents, E.TreeEvents;
    Completeness.ItemsSplit([x] + others, rest);
    assert ([x] + others)[1..] == others;
    Sound.ItemStep(Tree(x.value), Trees(others), [E.EndArray(n)]);
    Completeness.NoItems();
    Sound.EmptyEvents();
  }

  /** The first item, with the blanks already skipped before it. */
  lemma {:induction false} ItemFound(gap: string, s: string) returns (x: Item)
    requires Gap(gap) && ParseValue(Lexemes, s).Ok?
    ensures var v := ParseValue(Lexemes, s);
      LegalItem(x) && x.before == gap && gap + s == ItemText(x) + SkipWhitespace(v.rest) && v.log == E.TreeEvents(Tree(x.value))
    decreases |s|, 3
  {
    hide ParseValue, Gap, Legal, ItemText, Written, Tree, SkipWhitespace, E.TreeEvents;
    var v := ParseValue(Lexemes, s);
    var value := ValueFound(s);
    var after := GapFound(v.rest);
    x := Item(gap, value, after);
    ItemTextOf(gap, value, after, SkipWhitespace(v.rest));
  }

  /** The items from here on, with the blanks already skipped before the first. */
  lemma {:induction false} ItemsFound(gap: string, s: string, count: nat) returns (items: seq<Item>)
    requires Gap(gap) && ParseElements(Lexemes, s, count).Ok?
    ensures items != [] && items[0].before == gap && forall i :: 0 <= i < |items| ==> LegalItem(items[i])
    ensures var p := ParseElements(Lexemes, s, count);
      gap + s == ItemsText(items) + ("]" + p.rest) && p.log == E.ItemEvents(Trees(items)) + [E.EndArray(count + |items|)]
    decreases |s|, 4
  {
    hide *;
    ElementsUnfold(s, count);
    var v := ParseValue(Lexemes, s);
    var x := ItemFound(gap, s);
    var t := SkipWhitespace(v.rest);
    var rest, others := ParseElements(Lexemes, s, count).rest, [];
    if t[0] == ',' {
      var gap2 := GapFound(Next(t));
      others := ItemsFound(gap2, SkipWhitespace(Next(t)), count + 1);
      CommaFirst(t);
    }
    items := [x] + others;
    var n := count + 1 + |others|;
    assert |items| == 1 + |others|;
    ItemJoins(gap + s, x, t, others, rest, n);
    assert ParseElements(Lexemes, s, count).log == v.log + (E.ItemEvents(Trees(others)) + [E.EndArray(n)]);
  }

  lemma CommaFirst(t: string)
    requires t != "" && t[0] == ','
    ensures t == "," + Next(t)
  {
  }

  /** A single empty number would make the array's text that of an empty array. */
  lemma LoneItem(x: Item, s: string, rest: string)
    requires LegalItem(x) && x.before + s == ItemsText([x]) + ("]" + rest) && !IsBlank(Peek(s)) && x.value == Number("")
    ensures Peek(s) == ']'
  {
    Completeness.NoItems();
    assert [x][1..] == [];
    assert ItemsText([x]) == ItemText(x) + "" + "";
    assert ItemText(x) == x.before + "" + x.after;
    assert s == (x.before + s)[|x.before|..];
    assert s == x.after + ("]" + rest);
    StartOf(x.after, "]" + rest);
  }

  lemma StartOf(a: string, b: string)
    requires Gap(a) && b != ""
    ensures Peek(a + b) == b[0] || IsBlank(Peek(a + b))
  {
  }

  lemma ItemTextOf(gap: string, value: Node, after: string, t: string)
    ensures gap + (Written(value) + (after + t)) == ItemText(Item(gap, value, after)) + t
  {
    hide Written;
  }

  lemma {:induction false} ObjFound(s: string) returns (v: Node)
    requires Peek(s) == '{' && ParseObject(Lexemes, s).Ok?
    ensures v.Obj? && Found(v, s, ParseObject(Lexemes, s))
    decreases |s|, 1
  {
    hide ParseMembers, SkipWhitespace, E.MemberEvents, MembersText, Members, LegalMember;
    var rest := ParseObject(Lexemes, s).rest;
    var gap := GapFound(Next(s));
    var s1 := SkipWhitespace(Next(s));
    if Peek(s1) == '}' {
      v := Obj(gap, []);
      Completeness.NoItems();
      Sound.EmptyEvents();
      Bracketed('{', gap, '}', rest);
      assert gap + "" == gap;
    } else {
      var members := MembersFound(gap, s1, 0);
      v := Obj("", members);
      Bracketed('{', MembersText(members), '}', rest);
      assert "{" + "" == "{";
      Parsing.Wrapped(E.StartObject, E.MemberEvents(Members(members)), E.EndObject(|members|));
    }
  }

  /** A name and its colon, with the blanks around the colon. */
  lemma NameFound(s: string) returns (name: seq<Piece>, beforeColon: string, afterColon: string)
    requires ParseName(s).Ok?
    ensures LegalString(name) && Gap(beforeColon) && Gap(afterColon) && ParseName(s).log == [E.String(Chars(name))]
    ensures s == StringText(name) + (beforeColon + (":" + (afterColon + ParseName(s).rest)))
    ensures !IsBlank(Peek(ParseName(s).rest))
  {
    hide ParseString, StringText, Chars, SkipWhitespace, Gap, LegalString;
    name := StringFound(s);
    var r := ParseString(s).rest;
    beforeColon := GapFound(r);
    afterColon := GapFound(Next(SkipWhitespace(r)));
    assert SkipWhitespace(r) == ":" + Next(SkipWhitespace(r));
  }

  lemma {:induction false} MembersFound(gap: string, s: string, count: nat) returns (members: seq<Member>)
    requires Gap(gap) && ParseMembers(Lexemes, s, count).Ok?
    ensures members != [] && forall i :: 0 <= i < |members| ==> LegalMember(members[i])
    ensures var p := ParseMembers(Lexemes, s, count);
      gap + s == MembersText(members) + ("}" + p.rest) &&
      p.log == E.MemberEvents(Members(members)) + [E.EndObject(count + |members|)]
    decreases |s|, 3
  {
    hide ParseValue, ParseName, Gap, Legal, LegalString, StringText, Chars, Written, Tree, SkipWhitespace, E.TreeEvents,
      E.MemberEvents, MembersText, Members;
    var n := ParseName(s);
    var name, beforeColon, afterColon := NameFound(s);
    var v := ParseValue(Lexemes, n.rest);
    var value := ValueFound(n.rest);
    var after := GapFound(v.rest);
    var t := SkipWhitespace(v.rest);
    var m := Member(gap, name, beforeColon, afterColon, value, after);
    var rest := ParseMembers(Lexemes, s, count).rest;
    MemberTextOf(m, t);
    if Peek(t) == ',' {
      var gap2 := GapFound(Next(t));
      var others := MembersFound(gap2, SkipWhitespace(Next(t)), count + 1);
      members := [m] + others;
      assert members[1..] == others;
      Completeness.MembersSplitText(members, rest);
      Sound.MemberStep(E.Member(Chars(name), Tree(value)), Members(others), [E.EndObject(count + |members|)]);
    } else {
      members := [m];
      assert members[1..] == [];
      Completeness.MembersSplitText(members, rest);
      Completeness.NoItems();
      Sound.EmptyEvents();
      Sound.MemberStep(E.Member(Chars(name), Tree(value)), [], [E.EndObject(count + 1)]);
    }
  }

  lemma MemberTextOf(m: Member, t: string)
    ensures m.before + (StringText(m.name) + (m.beforeColon + (":" + (m.afterColon + (Written(m.value) + (m.after + t)))))) ==
      MemberText(m) + t
  {
    hide Written, StringText;
  }

  // ---- whole texts ----

  /** What the reader takes, exactly: the texts of the grammar, with nothing, or a '\0' and anything, behind them;
      and it delivers the events of the tree such a text spells. */
  ghost predicate Accepts(text: string, log: seq<E.Event>) {
    exists d, tail :: SpelledBy(d, tail, text, log)
  }

  ghost predicate SpelledBy(d: Doc, tail: string, text: string, log: seq<E.Event>) {
    LegalDoc(d) && text == DocText(d) + tail && (tail != "" ==> tail[0] == '\0') && log == E.TreeEvents(Tree(d.root))
  }

  lemma DocFound(text: string) returns (d: Doc)
    requires ParseText(Lexemes, false, text).Ok?
    ensures LegalDoc(d) && text == DocText(d) + ParseText(Lexemes, false, text).rest
    ensures ParseText(Lexemes, false, text).log == E.TreeEvents(Tree(d.root))
  {
    hide ParseObject, ParseArray, Legal, Written, Tree, SkipWhitespace, Gap;
    var before := GapFound(text);
    var s := SkipWhitespace(text);
    var v, rest;
    if Peek(s) == '{' {
      v := ObjFound(s);
      rest := ParseObject(Lexemes, s).rest;
    } else {
      v := ArrFound(s);
      rest := ParseArray(Lexemes, s).rest;
    }
    var after := GapFound(rest);
    d := Doc(before, v, after);
    DocTextOf(d, SkipWhitespace(rest));
  }

  lemma DocTextOf(d: Doc, tail: string)
    ensures d.before + (Written(d.root) + (d.after + tail)) == DocText(d) + tail
  {
    hide Written;
  }

  lemma AcceptsExactly(text: string, log: seq<E.Event>)
    ensures Accepts(text, log) <==> ParseText(Lexemes, false, text).Ok? && ParseText(Lexemes, false, text).log == log
  {
    hide ParseText, LegalDoc, DocText, Tree;
    if Accepts(text, log) {
      var d, tail :| SpelledBy(d, tail, text, log);
      Completeness.DocReads(d, tail, false);
    }
    if ParseText(Lexemes, false, text).Ok? && ParseText(Lexemes, false, text).log == log {
      var d := DocFound(text);
      TakenToEnd(text);
      var tail := ParseText(Lexemes, false, text).rest;
      assert SpelledBy(d, tail, text, log);
    }
  }

  lemma TakenToEnd(text: string)
    requires ParseText(Lexemes, false, text).Ok?
    ensures var rest := ParseText(Lexemes, false, text).rest; rest != "" ==> rest[0] == '\0'
  {
    hide ParseObject, ParseArray, SkipWhitespace;
  }
}
