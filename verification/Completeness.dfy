/** The reader takes every text of the grammar, whatever its escapes and blanks, and delivers the tree it spells. */
module Completeness {
  import opened Grammar
  import opened ReaderSpec
  import opened Parsing
  import opened Unicode
  import E = Events
  import Sound = ReaderSound

  // ---- strings ----

  lemma ShortReads(letter: char, c: char, k: string)
    requires ShortEscape(letter, c)
    ensures ScanChar(['\\', letter] + k) == Scanned([c], k)
  {
    TwoTaken('\\', letter, k);
    assert Unescape(letter) == c != '\0';
    hide Peek, Next, Unescape, ScanUnicode, ShortEscape;
  }

  lemma LoneReads(digits: string, cp: nat, k: string)
    requires 0xDC00 <= cp <= 0xDFFF && Escapes(digits, cp)
    ensures ScanUnicode(digits + k) == Scanned(Utf8(cp), k)
  {
    hide Hex4, Utf8;
    Hex4Reads(digits, cp, k);
  }

  lemma EscapedReads(digits: string, cp: nat, k: string)
    requires LegalPiece(Escape(digits, cp))
    ensures ScanChar("\\u" + digits + k) == Scanned(Utf8(cp), k)
  {
    assert "\\u" + digits + k == ['\\', 'u'] + (digits + k);
    TwoTaken('\\', 'u', digits + k);
    UnicodeEscape('a', "\\u" + digits + k);
    hide Peek, Next, ScanChar, ScanUnicode, Utf8;
    if Scalar(cp) { EscapeReads(digits, cp, k); } else { LoneReads(digits, cp, k); }
  }

  lemma PieceReads(p: Piece, k: string)
    requires LegalPiece(p)
    ensures Peek(PieceText(p) + k) != '"' && ScanChar(PieceText(p) + k) == Scanned(PieceChars(p), k)
  {
    match p
    case Plain(c) => assert ([c] + k)[1..] == k;
    case Short(letter, c) => ShortReads(letter, c, k);
    case Escape(digits, cp) => EscapedReads(digits, cp, k);
  }

  lemma {:induction false} PiecesRead(ps: seq<Piece>, k: string)
    requires LegalString(ps)
    ensures ScanString(PiecesText(ps) + "\"" + k) == Scanned(Chars(ps) + "\0", k)
    decreases |ps|
  {
    hide ScanChar, PieceText, PieceChars, LegalPiece;
    if ps == [] {
      assert "" + "\"" + k == "\"" + k && ("\"" + k)[1..] == k;
    } else {
      var t := PiecesText(ps[1..]) + "\"" + k;
      PiecesRead(ps[1..], k);
      PieceReads(ps[0], t);
      assert PiecesText(ps) + "\"" + k == PieceText(ps[0]) + t;
      assert PieceChars(ps[0]) + (Chars(ps[1..]) + "\0") == Chars(ps) + "\0";
    }
  }

  lemma StringReads(ps: seq<Piece>, k: string)
    requires LegalString(ps)
    ensures Peek(StringText(ps) + k) == '"' && ParseString(StringText(ps) + k) == Ok([E.String(Chars(ps))], k)
  {
    hide ScanString, PiecesText, Chars;
    PiecesRead(ps, k);
    assert (StringText(ps) + k)[1..] == PiecesText(ps) + "\"" + k;
    assert (Chars(ps) + "\0")[..|Chars(ps)|] == Chars(ps);
  }

  // ---- scalars ----

  lemma GapIsBlanks(s: string)
    requires Gap(s)
    ensures Blanks(s)
  {
  }

  lemma BlankIsGap(c: char)
    ensures IsBlank(c) ==> Gap([c])
  {
  }

  /** What may follow a value inside a container. */
  predicate Follows(k: string) {
    k != "" && (Gap(k[..1]) || k[0] == ',' || k[0] == ']' || k[0] == '}')
  }

  /** The separator or the bracket behind an item. */
  predicate Closes(k: string) {
    k != "" && (k[0] == ',' || k[0] == ']' || k[0] == '}')
  }

  lemma NumberReads(l: string, k: string)
    requires LegalNumber(l) && Follows(k)
    ensures ParseValue(Lexemes, l + k) == Ok([E.BigNum(l)], k)
  {
    assert k[..1][0] == k[0];
    assert Stops(k);
    if l == "" {
      assert l + k == k && k[0..] == k;
      hide ParseWord, ParseString, ParseArray, ParseObject, Gap;
    } else {
      NumberInverse(l, k);
    }
  }

  /** A value's text does not begin with a blank, a separator or a closing bracket. */
  lemma ValueStarts(v: Node, k: string)
    requires Legal(v) && v != Number("")
    ensures var s := Written(v) + k; s != "" && !IsBlank(s[0]) && !Closes(s)
  {
    hide ItemsText, MembersText, PiecesText;
    match v
    case Text(ps) => assert StringText(ps)[0] == '"';
    case Arr(gap, items) => assert Written(v)[0] == '[';
    case Obj(gap, members) => assert Written(v)[0] == '{';
    case Number(l) => assert NumberLetter(l[0]);
    case _ =>
  }

  // ---- values ----

  lemma {:induction false} ValueReads(v: Node, k: string)
    requires Legal(v) && Follows(k)
    ensures ParseValue(Lexemes, Written(v) + k) == Ok(E.TreeEvents(Tree(v)), k)
    decreases v, 4
  {
    hide ParseValue, StringText, Chars, ItemsText, MembersText;
    match v
    case NullWord => WordInverse(k);
    case TrueWord => WordInverse(k);
    case FalseWord => WordInverse(k);
    case Number(l) => NumberReads(l, k);
    case Text(ps) => StringReads(ps, k); StringValue(StringText(ps) + k);
    case Arr(_, _) => ArrReads(v, k); ContainerValue(Written(v) + k);
    case Obj(_, _) => ObjReads(v, k); ContainerValue(Written(v) + k);
  }

  lemma ItemStarts(before: string, value: Node, after: string, tail: string)
    requires Gap(before) && Legal(value) && Gap(after) && Closes(tail)
    ensures SkipWhitespace(ItemText(Item(before, value, after)) + tail) ==
      if value == Number("") then tail else Written(value) + (after + tail)
    ensures SkipWhitespace(after + tail) == tail && SkipWhitespace(tail) == tail
    ensures value != Number("") ==> !Closes(Written(value) + (after + tail))
  {
    GapIsBlanks(before);
    GapIsBlanks(after);
    assert value == Number("") ==> Written(value) == "";
    assert !IsBlank(Peek(tail));
    hide SkipWhitespace, Blanks, Gap, Legal, Written, IsBlank, Closes;
    SkipBlanks(after, tail);
    SkipNone(tail);
    Assembled(before, Written(value), after, tail);
    if value == Number("") {
      GapsJoin(before, after);
      SkipBlanks(before + after, tail);
    } else {
      ValueStarts(value, after + tail);
      SkipBlanks(before, Written(value) + (after + tail));
    }
  }

  lemma Assembled(a: string, b: string, c: string, d: string)
    ensures a + b + c + d == a + (b + (c + d))
    ensures b == "" ==> a + b + c + d == (a + c) + d
  {
  }

  /** An item between its blanks: what is left after it are blanks and what follows. */
  lemma {:induction false} ItemReads(before: string, value: Node, after: string, tail: string) returns (rest: string)
    requires LegalItem(Item(before, value, after)) && Closes(tail)
    ensures var s := SkipWhitespace(ItemText(Item(before, value, after)) + tail);
      ParseValue(Lexemes, s) == Ok(E.TreeEvents(Tree(value)), rest) && SkipWhitespace(rest) == tail &&
      (if value == Number("") then s == tail else Peek(s) != ']' && Peek(s) != '}')
    decreases value, 5
  {
    ItemStarts(before, value, after, tail);
    FollowsGap("", tail);
    FollowsGap(after, tail);
    assert "" + tail == tail;
    if value != Number("") { ValueStarts(value, after + tail); }
    assert value != Number("") ==> Peek(Written(value) + (after + tail)) != ']' && Peek(Written(value) + (after + tail)) != '}';
    hide ParseValue, Tree, SkipWhitespace, Gap, ItemText, Legal, Closes, Follows;
    if value == Number("") {
      rest := tail;
      ValueReads(value, tail);
      assert Written(value) + tail == tail;
    } else {
      hide Written;
      rest := after + tail;
      ValueReads(value, rest);
    }
  }

  lemma GapsJoin(a: string, b: string)
    requires Blanks(a) && Blanks(b)
    ensures Blanks(a + b)
  {
  }

  lemma FollowsGap(gap: string, tail: string)
    requires Gap(gap) && Closes(tail)
    ensures Follows(gap + tail)
  {
    if gap != "" { assert (gap + tail)[..1] == gap[..1]; }
  }

  lemma {:induction false} ArrReads(v: Node, k: string)
    requires Legal(v) && v.Arr?
    ensures var s := Written(v) + k; Peek(s) == '[' && ParseArray(Lexemes, s) == Ok(E.TreeEvents(Tree(v)), k)
    decreases v, 3
  {
    hide SkipWhitespace, ParseElements, E.ItemEvents, Trees, ItemsText;
    var s, end := Written(v) + k, "]" + k;
    if v.items == [] {
      assert ItemsText([]) == "" && Trees([]) == [] by { NoItems(); }
      assert s[1..] == v.gap + end;
      GapIsBlanks(v.gap);
      SkipBlanks(v.gap, end);
      assert end[1..] == k;
      Sound.EmptyEvents();
    } else {
      assert s[1..] == ItemsText(v.items) + end;
      ItemsRead(v.items, k, 0);
      Wrapped(E.StartArray, E.ItemEvents(Trees(v.items)), E.EndArray(|v.items|));
    }
  }

  lemma NoItems()
    ensures ItemsText([]) == "" && Trees([]) == [] && MembersText([]) == "" && Members([]) == []
  {
  }

  lemma Commas(x: string, rest: string, k: string)
    ensures x + "," + rest + k == x + ("," + (rest + k))
  {
  }

  lemma ItemsSplit(items: seq<Item>, k: string)
    requires items != []
    ensures ItemsText(items) + ("]" + k) ==
      ItemText(items[0]) + (if |items| == 1 then "]" + k else "," + (ItemsText(items[1..]) + ("]" + k)))
    ensures Trees(items) == [Tree(items[0].value)] + Trees(items[1..])
  {
    hide ItemText, Tree;
    var x, rest := ItemText(items[0]), ItemsText(items[1..]);
    if |items| == 1 {
      assert rest == "";
      hide ItemsText;
    } else {
      Commas(x, rest, "]" + k);
    }
  }

  /** From behind an item. */
  lemma ElementEnds(s: string, count: nat, v: Node, tail: string, rest: string, further: seq<E.Event>, k: string)
    requires ParseValue(Lexemes, s) == Ok(E.TreeEvents(Tree(v)), rest) && SkipWhitespace(rest) == tail && tail != ""
    requires tail[0] == ']' ==> tail[1..] == k && further == []
    requires tail[0] != ']' ==> tail[0] == ',' && ParseElements(Lexemes, SkipWhitespace(tail[1..]), count + 1) == Ok(further, k)
    ensures ParseElements(Lexemes, s, count) ==
      Ok(E.TreeEvents(Tree(v)) + if tail[0] == ']' then [E.EndArray(count + 1)] else further, k)
  {
    hide ParseValue, SkipWhitespace, Tree;
  }

  lemma {:induction false} ItemsRead(items: seq<Item>, k: string, count: nat)
    requires items != [] && (|items| == 1 && count == 0 ==> items[0].value != Number(""))
    requires forall i :: 0 <= i < |items| ==> LegalItem(items[i])
    ensures var s := SkipWhitespace(ItemsText(items) + ("]" + k));
      ParseElements(Lexemes, s, count) == Ok(E.ItemEvents(Trees(items)) + [E.EndArray(count + |items|)], k) &&
      (count == 0 ==> Peek(s) != ']')
    decreases items, 1
  {
    hide ParseValue, SkipWhitespace, ItemText, ItemsText, Tree, Trees, Legal, LegalItem, ParseElements, E.ItemEvents;
    var x, rest := items[0], items[1..];
    var tail := if |items| == 1 then "]" + k else "," + (ItemsText(rest) + ("]" + k));
    var s := SkipWhitespace(ItemsText(items) + ("]" + k));
    ItemsSplit(items, k);
    assert x.value < items[0];
    assert Item(x.before, x.value, x.after) == x;
    var r := ItemReads(x.before, x.value, x.after, tail);
    assert tail[1..] == if |items| == 1 then k else ItemsText(rest) + ("]" + k);
    Sound.ItemStep(Tree(x.value), Trees(rest), [E.EndArray(count + |items|)]);
    if |items| == 1 {
      assert rest == [] && Trees(rest) == [] by { NoItems(); }
      Sound.EmptyEvents();
      ElementEnds(s, count, x.value, tail, r, [], k);
    } else {
      ItemsRead(rest, k, count + 1);
      ElementEnds(s, count, x.value, tail, r, E.ItemEvents(Trees(rest)) + [E.EndArray(count + |items|)], k);
    }
  }

  lemma {:induction false} ObjReads(v: Node, k: string)
    requires Legal(v) && v.Obj?
    ensures var s := Written(v) + k; Peek(s) == '{' && ParseObject(Lexemes, s) == Ok(E.TreeEvents(Tree(v)), k)
    decreases v, 3
  {
    hide SkipWhitespace, ParseMembers, E.MemberEvents, Members, MembersText;
    var s, end := Written(v) + k, "}" + k;
    if v.members == [] {
      NoItems();
      assert s[1..] == v.gap + end;
      GapIsBlanks(v.gap);
      SkipBlanks(v.gap, end);
      assert end[1..] == k;
      Sound.EmptyEvents();
    } else {
      assert s[1..] == MembersText(v.members) + end;
      MembersRead(v.members, k, 0);
      Wrapped(E.StartObject, E.MemberEvents(Members(v.members)), E.EndObject(|v.members|));
    }
  }

  lemma MembersSplitText(members: seq<Member>, k: string)
    requires members != []
    ensures MembersText(members) + ("}" + k) ==
      MemberText(members[0]) + (if |members| == 1 then "}" + k else "," + (MembersText(members[1..]) + ("}" + k)))
    ensures Members(members) == [E.Member(Chars(members[0].name), Tree(members[0].value))] + Members(members[1..])
  {
    hide MemberText, Tree, Chars;
    var x, rest := MemberText(members[0]), MembersText(members[1..]);
    if |members| == 1 {
      assert rest == "";
      hide MembersText;
    } else {
      Commas(x, rest, "}" + k);
    }
  }

  /** A member's name and colon. */
  lemma NameReads(m: Member, tail: string)
    requires LegalMember(m)
    ensures var value := ItemText(Item(m.afterColon, m.value, m.after)) + tail;
      var s := SkipWhitespace(MemberText(m) + tail);
      Peek(s) == '"' && ParseName(s) == Ok([E.String(Chars(m.name))], SkipWhitespace(value))
  {
    hide ParseString, SkipWhitespace, StringText, Written, Legal, LegalString, Gap, Chars;
    var value := ItemText(Item(m.afterColon, m.value, m.after)) + tail;
    var r := m.beforeColon + (":" + value);
    var s := StringText(m.name) + r;
    assert MemberText(m) + tail == m.before + s;
    GapIsBlanks(m.before);
    GapIsBlanks(m.beforeColon);
    StringReads(m.name, r);
    SkipBlanks(m.before, s);
    SkipBlanks(m.beforeColon, ":" + value);
    assert (":" + value)[1..] == value;
  }

  lemma {:induction false} MembersRead(members: seq<Member>, k: string, count: nat)
    requires members != [] && forall i :: 0 <= i < |members| ==> LegalMember(members[i])
    ensures var s := SkipWhitespace(MembersText(members) + ("}" + k));
      ParseMembers(Lexemes, s, count) == Ok(E.MemberEvents(Members(members)) + [E.EndObject(count + |members|)], k) &&
      Peek(s) == '"'
    decreases members, 1
  {
    hide ParseValue, SkipWhitespace, ItemText, MemberText, MembersText, Tree, Members, ParseName, Chars, AfterValue, ParseMembers;
    var m, rest := members[0], members[1..];
    var tail := if |members| == 1 then "}" + k else "," + (MembersText(rest) + ("}" + k));
    MembersSplitText(members, k);
    NameReads(m, tail);
    assert m.value < members[0];
    var r := ItemReads(m.afterColon, m.value, m.after, tail);
    assert tail[1..] == if |members| == 1 then k else MembersText(rest) + ("}" + k);
    MembersSplit(Lexemes, SkipWhitespace(MembersText(members) + ("}" + k)), count);
    Sound.MemberStep(E.Member(Chars(m.name), Tree(m.value)), Members(rest), [E.EndObject(count + |members|)]);
    if |members| == 1 {
      assert rest == [] && Members(rest) == [] by { NoItems(); }
      Sound.EmptyEvents();
      MemberEnds(count, m, tail, r, [], k);
    } else {
      MembersRead(rest, k, count + 1);
      MemberEnds(count, m, tail, r, E.MemberEvents(Members(rest)) + [E.EndObject(count + |members|)], k);
    }
  }

  /** From behind a member's value. */
  lemma MemberEnds(count: nat, m: Member, tail: string, rest: string, further: seq<E.Event>, k: string)
    requires SkipWhitespace(rest) == tail && tail != ""
    requires tail[0] == '}' ==> tail[1..] == k && further == []
    requires tail[0] != '}' ==> tail[0] == ',' && ParseMembers(Lexemes, SkipWhitespace(tail[1..]), count + 1) == Ok(further, k)
    ensures var log := [E.String(Chars(m.name))] + E.TreeEvents(Tree(m.value));
      AfterValue(Lexemes, Ok(log, rest), count) == Ok(log + if tail[0] == '}' then [E.EndObject(count + 1)] else further, k)
  {
    hide ParseMembers, SkipWhitespace, Chars, Tree;
  }

  /** Every text of the grammar is taken to its end, and delivers exactly the events of the tree it spells; so it
      does with a '\0' and anything behind it, and, when trailing text is ignored, with anything at all. */
  lemma DocReads(d: Doc, tail: string, ignoreTrailing: bool)
    requires LegalDoc(d) && (tail != "" ==> tail[0] == '\0' || (ignoreTrailing && !Gap([tail[0]])))
    ensures ParseText(Lexemes, ignoreTrailing, DocText(d) + tail) == Ok(E.TreeEvents(Tree(d.root)), tail)
  {
    BlankIsGap(Peek(tail));
    hide ParseObject, ParseArray, SkipWhitespace, Written, Tree, Gap;
    var r := d.after + tail;
    var s := Written(d.root) + r;
    assert DocText(d) + tail == d.before + s;
    GapIsBlanks(d.before);
    GapIsBlanks(d.after);
    SkipBlanks(d.after, tail);
    if d.root.Arr? { ArrReads(d.root, r); } else { ObjReads(d.root, r); }
    SkipBlanks(d.before, s);
  }
}
