/** Every successful parse, of any text, delivers the events of exactly one container. */
module ReaderSound {
  import opened Events
  import opened ReaderSpec

  /** What a reader variant delivers as one event: a scalar, and a number only in the variant's own form. */
  predicate Delivered(mode: NumberMode, e: Event) {
    IsScalar(e) &&
    (IsNumber(e) ==> (e.BigNum? <==> mode.Lexemes?)) &&
    (e.BigNum? ==> forall i :: 0 <= i < |e.lexeme| ==> IsNumberChar(e.lexeme[i]))
  }

  /** Every leaf is an event the reader delivers. */
  ghost predicate FromReader(mode: NumberMode, t: Tree) {
    match t
    case Leaf(e) => Delivered(mode, e)
    case Obj(ms) => forall i :: 0 <= i < |ms| ==> FromReader(mode, ms[i].value)
    case Arr(xs) => forall i :: 0 <= i < |xs| ==> FromReader(mode, xs[i])
  }

  lemma {:induction false} LexemeChars(s: string)
    ensures forall i :: 0 <= i < |Lexeme(s)| ==> IsNumberChar(Lexeme(s)[i])
    decreases |s|
  {
    if IsNumberChar(Peek(s)) { LexemeChars(Next(s)); }
  }

  lemma ScalarValue(mode: NumberMode, s: string)
    requires ParseValue(mode, s).Ok? && Peek(s) != '{' && Peek(s) != '['
    ensures |ParseValue(mode, s).log| == 1 && Delivered(mode, ParseValue(mode, s).log[0])
  {
    hide NumericNumber, ParseString, Lexeme;
    LexemeChars(s);
  }

  lemma {:induction false} SoundValue(mode: NumberMode, s: string) returns (t: Tree)
    requires ParseValue(mode, s).Ok?
    ensures FromReader(mode, t) && TreeEvents(t) == ParseValue(mode, s).log
    decreases |s|, 2
  {
    if Peek(s) == '{' {
      t := SoundObject(mode, s);
    } else if Peek(s) == '[' {
      t := SoundArray(mode, s);
    } else {
      ScalarValue(mode, s);
      t := Leaf(ParseValue(mode, s).log[0]);
    }
  }

  lemma EmptyEvents()
    ensures ItemEvents([]) == [] && MemberEvents([]) == []
  {
  }

  lemma {:induction false} SoundArray(mode: NumberMode, s: string) returns (t: Tree)
    requires Peek(s) == '[' && ParseArray(mode, s).Ok?
    ensures t.Arr? && FromReader(mode, t) && TreeEvents(t) == ParseArray(mode, s).log
    decreases |s|, 1
  {
    hide ParseElements, SkipWhitespace, ItemEvents;
    var s1 := SkipWhitespace(Next(s));
    if Peek(s1) == ']' {
      t := Arr([]);
      EmptyEvents();
    } else {
      var xs := SoundElements(mode, s1, 0);
      t := Arr(xs);
      assert [StartArray] + (ItemEvents(xs) + [EndArray(|xs|)]) == [StartArray] + ItemEvents(xs) + [EndArray(|xs|)];
    }
  }

  /** What a further element adds to the events of the elements after it. */
  lemma ItemStep(x: Tree, ys: seq<Tree>, end: seq<Event>)
    ensures ItemEvents([x] + ys) == TreeEvents(x) + ItemEvents(ys)
    ensures TreeEvents(x) + (ItemEvents(ys) + end) == ItemEvents([x] + ys) + end
  {
    assert ([x] + ys)[1..] == ys;
  }

  lemma {:induction false} SoundElements(mode: NumberMode, s: string, count: nat) returns (xs: seq<Tree>)
    requires ParseElements(mode, s, count).Ok?
    ensures forall i :: 0 <= i < |xs| ==> FromReader(mode, xs[i])
    ensures ParseElements(mode, s, count).log == ItemEvents(xs) + [EndArray(count + |xs|)]
    decreases |s|, 3
  {
    hide ParseValue, TreeEvents;
    var v := ParseValue(mode, s);
    var x := SoundValue(mode, s);
    var s1 := SkipWhitespace(v.rest);
    var ys := [];
    if Peek(s1) == ',' {
      ys := SoundElements(mode, SkipWhitespace(Next(s1)), count + 1);
    } else {
      assert ItemEvents(ys) + [EndArray(count + 1)] == [EndArray(count + 1)];
    }
    xs := [x] + ys;
    ItemStep(x, ys, [EndArray(count + |xs|)]);
  }

  lemma {:induction false} SoundObject(mode: NumberMode, s: string) returns (t: Tree)
    requires Peek(s) == '{' && ParseObject(mode, s).Ok?
    ensures t.Obj? && FromReader(mode, t) && TreeEvents(t) == ParseObject(mode, s).log
    decreases |s|, 1
  {
    hide ParseMembers, SkipWhitespace, MemberEvents;
    var s1 := SkipWhitespace(Next(s));
    if Peek(s1) == '}' {
      t := Obj([]);
      EmptyEvents();
    } else {
      var ms := SoundMembers(mode, s1, 0);
      t := Obj(ms);
      assert [StartObject] + (MemberEvents(ms) + [EndObject(|ms|)]) == [StartObject] + MemberEvents(ms) + [EndObject(|ms|)];
    }
  }

  lemma MemberStep(m: Member, ns: seq<Member>, end: seq<Event>)
    ensures MemberEvents([m] + ns) == [String(m.name)] + TreeEvents(m.value) + MemberEvents(ns)
    ensures [String(m.name)] + TreeEvents(m.value) + (MemberEvents(ns) + end) == MemberEvents([m] + ns) + end
  {
    assert ([m] + ns)[1..] == ns;
  }

  lemma {:induction false} SoundMembers(mode: NumberMode, s: string, count: nat) returns (ms: seq<Member>)
    requires ParseMembers(mode, s, count).Ok?
    ensures forall i :: 0 <= i < |ms| ==> FromReader(mode, ms[i].value)
    ensures ParseMembers(mode, s, count).log == MemberEvents(ms) + [EndObject(count + |ms|)]
    decreases |s|, 3
  {
    hide ParseValue, TreeEvents, ParseName, SkipWhitespace;
    var n := ParseName(s);
    var x := SoundValue(mode, n.rest);
    var v := ParseMember(mode, s);
    var m := Member(n.log[0].s, x);
    assert n.log == [String(m.name)];
    var s2 := SkipWhitespace(v.rest);
    var ns := [];
    if Peek(s2) == ',' {
      ns := SoundMembers(mode, SkipWhitespace(Next(s2)), count + 1);
    } else {
      assert MemberEvents(ns) + [EndObject(count + 1)] == [EndObject(count + 1)];
    }
    ms := [m] + ns;
    MemberStep(m, ns, [EndObject(count + |ms|)]);
  }

  /** Soundness on every text: success means the balanced events of one container and, unless trailing
      text is ignored, nothing but blanks and possibly a '\0' after it. */
  lemma ParseIsSound(mode: NumberMode, ignoreTrailing: bool, text: string) returns (t: Tree)
    requires ParseText(mode, ignoreTrailing, text).Ok?
    ensures IsContainer(t) && FromReader(mode, t)
    ensures ParseText(mode, ignoreTrailing, text).log == TreeEvents(t)
    ensures !ignoreTrailing ==> Peek(ParseText(mode, ignoreTrailing, text).rest) == '\0'
  {
    var s := SkipWhitespace(text);
    if Peek(s) == '{' {
      t := SoundObject(mode, s);
    } else {
      t := SoundArray(mode, s);
    }
  }
}
