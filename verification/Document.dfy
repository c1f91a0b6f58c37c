/** `GenericDocument`: parsing a text into a value, by the handlers on the document's stack. */
module Document {
  import opened Strings
  import opened Decimal
  import opened ReaderSpec
  import opened ReaderSound
  import opened Dom
  import E = Events
  import JsonReader

  // ---- what the typed number parser delivers ----

  /** A 64-bit integer event is used only for what does not fit 32 bits. */
  predicate Narrow(e: E.Event) {
    (e.Int64? ==> e.i64 < -0x8000_0000) && (e.Uint64? ==> e.u64 >= 0x1_0000_0000)
  }

  ghost predicate AllNarrow(log: seq<E.Event>) {
    forall i :: 0 <= i < |log| ==> Narrow(log[i])
  }

  lemma {:induction false} AccumulateStops(i: nat, s: string, max: nat)
    requires i <= max
    ensures var a := Accumulate(i, s, max);
      a.i >= i && (a.overflow ==> IsDigit(Peek(a.rest)) && a.i * 10 + DigitOf(Peek(a.rest)) > max)
    decreases |s|
  {
    if IsDigit(Peek(s)) {
      assert max == max / 10 * 10 + max % 10;
      var j := i * 10 + DigitOf(Peek(s));
      if j <= max { AccumulateStops(j, Next(s), max); }
    }
  }

  lemma PhasesAreNarrow(minus: bool, s: string)
    ensures var p := IntegerPhases(minus, s); p.IntPhase? && p.try64 ==> p.i > Max32(minus)
  {
    if '1' <= Peek(s) <= '9' {
      var d, rest := DigitOf(Peek(s)), Next(s);
      AccumulateStops(d, rest, Max32(minus));
      var a := Accumulate(d, rest, Max32(minus));
      if a.overflow {
        AccumulateStops(a.i * 10 + DigitOf(Peek(a.rest)), Next(a.rest), Max64(minus));
      }
    }
  }

  lemma NumberIsNarrow(s: string)
    ensures AllNarrow(NumericNumber(s).log)
  {
    hide IntegerPhases, BigDigits, FractionPart, ExponentPart, DoublePow10;
    var minus := Peek(s) == '-';
    PhasesAreNarrow(minus, if minus then Next(s) else s);
  }

  // ---- no text, good or bad, makes the stack's assertions fail ----

  /** Every prefix that is a whole value pushes one value. */
  lemma ValuePushes(s: string, stack: seq<GenericValue>)
    requires ParseValue(Numeric, s).Ok?
    ensures var r := Run(stack, ParseValue(Numeric, s).log); r.Some? && |r.value| == |stack| + 1
  {
    hide ParseValue, Run;
    var t := SoundValue(Numeric, s);
    TreePushes(t, stack);
  }

  lemma {:induction false} ValueSafe(s: string, stack: seq<GenericValue>)
    ensures Run(stack, ParseValue(Numeric, s).log).Some? && AllNarrow(ParseValue(Numeric, s).log)
    decreases |s|, 2
  {
    if Peek(s) == '{' {
      ObjectSafe(s, stack);
    } else if Peek(s) == '[' {
      ArraySafe(s, stack);
    } else {
      ScalarSafe(s);
      var log := ParseValue(Numeric, s).log;
      if log != [] { RunOne(stack, log[0]); }
    }
  }

  lemma ScalarSafe(s: string)
    requires Peek(s) != '{' && Peek(s) != '['
    ensures var log := ParseValue(Numeric, s).log;
      AllNarrow(log) && (log == [] || (log == [log[0]] && E.IsScalar(log[0]) && !log[0].BigNum?))
  {
    hide NumericNumber, ScanString;
    NumberIsNarrow(s);
    NumberLog(s);
  }

  lemma NumberLog(s: string)
    ensures NumericNumber(s).Err? ==> NumericNumber(s).log == []
  {
    hide IntegerPhases, BigDigits, FractionPart, ExponentPart, DoubleEvent;
  }

  lemma {:induction false} ArraySafe(s: string, stack: seq<GenericValue>)
    requires Peek(s) == '['
    ensures Run(stack, ParseArray(Numeric, s).log).Some? && AllNarrow(ParseArray(Numeric, s).log)
    decreases |s|, 1
  {
    hide ParseElements, SkipWhitespace;
    var open := stack + [Array([])];
    RunOne(stack, E.StartArray);
    var s1 := SkipWhitespace(Next(s));
    if Peek(s1) == ']' {
      RunConcat(stack, [E.StartArray], [E.EndArray(0)]);
      RunOne(open, E.EndArray(0));
      assert [E.StartArray] + [E.EndArray(0)] == [E.StartArray, E.EndArray(0)];
    } else {
      ElementsSafe(s1, 0, open);
      RunConcat(stack, [E.StartArray], ParseElements(Numeric, s1, 0).log);
    }
  }

  lemma {:induction false} ElementsSafe(s: string, count: nat, stack: seq<GenericValue>)
    requires |stack| >= count + 1
    ensures Run(stack, ParseElements(Numeric, s, count).log).Some? && AllNarrow(ParseElements(Numeric, s, count).log)
    decreases |s|, 3
  {
    hide ParseValue, SkipWhitespace, Run;
    var v := ParseValue(Numeric, s);
    ValueSafe(s, stack);
    if v.Ok? {
      ValuePushes(s, stack);
      var next := Run(stack, v.log).value;
      var s1 := SkipWhitespace(v.rest);
      if Peek(s1) == ',' {
        var rest := SkipWhitespace(Next(s1));
        ElementsSafe(rest, count + 1, next);
        RunConcat(stack, v.log, ParseElements(Numeric, rest, count + 1).log);
      } else if Peek(s1) == ']' {
        RunOne(next, E.EndArray(count + 1));
        RunConcat(stack, v.log, [E.EndArray(count + 1)]);
      }
    }
  }

  lemma {:induction false} ObjectSafe(s: string, stack: seq<GenericValue>)
    requires Peek(s) == '{'
    ensures Run(stack, ParseObject(Numeric, s).log).Some? && AllNarrow(ParseObject(Numeric, s).log)
    decreases |s|, 1
  {
    hide ParseMembers, SkipWhitespace;
    var open := stack + [Object([])];
    RunOne(stack, E.StartObject);
    var s1 := SkipWhitespace(Next(s));
    if Peek(s1) == '}' {
      RunConcat(stack, [E.StartObject], [E.EndObject(0)]);
      RunOne(open, E.EndObject(0));
      assert [E.StartObject] + [E.EndObject(0)] == [E.StartObject, E.EndObject(0)];
    } else {
      MembersSafe(s1, 0, open);
      RunConcat(stack, [E.StartObject], ParseMembers(Numeric, s1, 0).log);
    }
  }

  lemma NameLog(s: string)
    ensures var log := ParseName(s).log; AllNarrow(log) && (log == [] || (log == [log[0]] && log[0].String?))
  {
    hide ScanString, SkipWhitespace;
  }

  lemma {:induction false} MemberSafe(s: string, stack: seq<GenericValue>)
    ensures var p := ParseMember(Numeric, s); var r := Run(stack, p.log);
      r.Some? && AllNarrow(p.log) && (p.Ok? ==> |r.value| == |stack| + 2)
    decreases |s|, 3
  {
    hide ParseValue, ParseName, Run;
    NameLog(s);
    var n := ParseName(s);
    if n.log == [] {
      RunNothing(stack);
    } else {
      RunOne(stack, n.log[0]);
      var next := stack + [String(n.log[0].s, true)];
      if n.Ok? {
        ValueSafe(n.rest, next);
        if ParseValue(Numeric, n.rest).Ok? { ValuePushes(n.rest, next); }
        RunConcat(stack, n.log, ParseValue(Numeric, n.rest).log);
      }
    }
  }

  lemma {:induction false} MembersSafe(s: string, count: nat, stack: seq<GenericValue>)
    requires |stack| >= 2 * count + 1
    ensures Run(stack, ParseMembers(Numeric, s, count).log).Some? && AllNarrow(ParseMembers(Numeric, s, count).log)
    decreases |s|, 4
  {
    hide ParseMember, SkipWhitespace, Run;
    var m := ParseMember(Numeric, s);
    MemberSafe(s, stack);
    if m.Ok? {
      var next := Run(stack, m.log).value;
      var s1 := SkipWhitespace(m.rest);
      if Peek(s1) == ',' {
        var rest := SkipWhitespace(Next(s1));
        MemberShrinks(s);
        MembersSafe(rest, count + 1, next);
        RunConcat(stack, m.log, ParseMembers(Numeric, rest, count + 1).log);
      } else if Peek(s1) == '}' {
        RunOne(next, E.EndObject(count + 1));
        RunConcat(stack, m.log, [E.EndObject(count + 1)]);
      }
    }
  }

  lemma MemberShrinks(s: string)
    ensures ParseMember(Numeric, s).Ok? ==> |ParseMember(Numeric, s).rest| <= |s|
  {
  }

  /** Whatever the text, every handler call the reader makes finds on the stack what it pops. */
  lemma TextSafe(ignoreTrailing: bool, text: string)
    ensures var log := ParseText(Numeric, ignoreTrailing, text).log; Run([], log).Some? && AllNarrow(log)
  {
    hide ParseObject, ParseArray, SkipWhitespace, Run;
    RunNothing([]);
    var s := SkipWhitespace(text);
    if Peek(s) == '{' {
      ObjectSafe(s, []);
    } else if Peek(s) == '[' {
      ArraySafe(s, []);
    }
  }

  // ---- what a parsed document holds ----

  /** A tree from narrow events stands for a value that constructors make and `Accept` reproduces. */
  lemma {:induction false} NarrowTree(t: E.Tree)
    requires FromReader(Numeric, t) && AllNarrow(E.TreeEvents(t))
    ensures Clones(ValueOf(t))
    decreases t, 1
  {
    match t
    case Leaf(e) => assert E.TreeEvents(t)[0] == e; NarrowLeaf(e);
    case Obj(ms) =>
      Inner(E.MemberEvents(ms), E.StartObject, E.EndObject(|ms|));
      NarrowMembers(ms);
    case Arr(xs) =>
      Inner(E.ItemEvents(xs), E.StartArray, E.EndArray(|xs|));
      NarrowItems(xs);
  }

  lemma NarrowLeaf(e: E.Event)
    requires E.IsScalar(e) && !e.BigNum? && Narrow(e)
    ensures Clones(OfEvent(e))
  {
  }

  lemma Inner(log: seq<E.Event>, start: E.Event, end: E.Event)
    requires AllNarrow([start] + log + [end])
    ensures AllNarrow(log)
  {
    forall i | 0 <= i < |log| ensures Narrow(log[i]) { assert ([start] + log + [end])[i + 1] == log[i]; }
  }

  lemma Halves(a: seq<E.Event>, b: seq<E.Event>)
    requires AllNarrow(a + b)
    ensures AllNarrow(a) && AllNarrow(b)
  {
    forall i | 0 <= i < |a| ensures Narrow(a[i]) { assert (a + b)[i] == a[i]; }
    forall i | 0 <= i < |b| ensures Narrow(b[i]) { assert (a + b)[|a| + i] == b[i]; }
  }

  lemma {:induction false} NarrowMembers(ms: seq<E.Member>)
    requires forall i :: 0 <= i < |ms| ==> FromReader(Numeric, ms[i].value)
    requires AllNarrow(E.MemberEvents(ms))
    ensures forall i :: 0 <= i < |ms| ==>
      PairsOf(ms)[i].name.String? && Clones(PairsOf(ms)[i].value)
    decreases ms, 0
  {
    hide FromReader, Clones, ValueOf, Narrow, E.TreeEvents;
    if ms != [] {
      var m := ms[0];
      Halves([E.String(m.name)] + E.TreeEvents(m.value), E.MemberEvents(ms[1..]));
      Halves([E.String(m.name)], E.TreeEvents(m.value));
      NarrowTree(m.value);
      NarrowMembers(ms[1..]);
    }
  }

  lemma {:induction false} NarrowItems(xs: seq<E.Tree>)
    requires forall i :: 0 <= i < |xs| ==> FromReader(Numeric, xs[i])
    requires AllNarrow(E.ItemEvents(xs))
    ensures forall i :: 0 <= i < |xs| ==> Clones(ValuesOf(xs)[i])
    decreases xs, 0
  {
    hide FromReader, Clones, ValueOf, Narrow, E.TreeEvents;
    if xs != [] {
      Halves(E.TreeEvents(xs[0]), E.ItemEvents(xs[1..]));
      NarrowTree(xs[0]);
      NarrowItems(xs[1..]);
    }
  }

  /** A successful parse leaves exactly one value on the stack, an object or an array; and running that
      value's own calls on any stack pushes the same value, numbers and flags included, its strings shared. */
  lemma ParsedClones(ignoreTrailing: bool, text: string) returns (v: GenericValue)
    requires ParseText(Numeric, ignoreTrailing, text).Ok?
    ensures Run([], ParseText(Numeric, ignoreTrailing, text).log) == Some([v])
    ensures (v.Object? || v.Array?) && Made(v) && forall stack :: PerformAll(stack, Accept(v)) == Some(stack + [Shared(v)])
  {
    hide ParseText, Run, Made, NarrowlyMade, HoldsTypedString, PerformAll, Shared, Accept, FromReader, E.TreeEvents;
    var t := ParseIsSound(Numeric, ignoreTrailing, text);
    TextSafe(ignoreTrailing, text);
    TreePushes(t, []);
    NarrowTree(t);
    v := ValueOf(t);
    assert [] + [v] == [v];
    forall stack ensures PerformAll(stack, Accept(v)) == Some(stack + [Shared(v)]) { AcceptRebuilds(v, stack); }
  }

  /** What `ParseStream` relies on. */
  lemma OneValue(ignoreTrailing: bool, text: string)
    ensures var p := ParseText(Numeric, ignoreTrailing, text);
      Run([], p.log).Some? && (p.Ok? ==> |Run([], p.log).value| == 1)
  {
    hide ParseText, Run, Made, PerformAll, Accept, AllNarrow;
    TextSafe(ignoreTrailing, text);
    if ParseText(Numeric, ignoreTrailing, text).Ok? {
      var v := ParsedClones(ignoreTrailing, text);
    }
  }

  // ---- the document ----

  lemma RunPrefix(stack: seq<GenericValue>, log: seq<E.Event>, i: nat)
    requires i < |log| && Run(stack, log).Some?
    ensures Run(stack, log[..i]).Some? && var next := Run(stack, log[..i]).value;
      Step(next, log[i]).Some? && Run(stack, log[..i + 1]) == Step(next, log[i])
  {
    hide Run, Step;
    assert log == log[..i + 1] + log[i + 1..] && log[..i + 1] == log[..i] + [log[i]];
    RunConcat(stack, log[..i + 1], log[i + 1..]);
    RunConcat(stack, log[..i], [log[i]]);
    RunOne(Run(stack, log[..i]).value, log[i]);
  }

  class Document {
    var root: GenericValue
    var stack: seq<GenericValue>
    var parseError: Option<ParseError>
    var errorOffset: nat

    constructor ()
      ensures root == Null && stack == [] && parseError == None && errorOffset == 0
    {
      root := Null;
      stack := [];
      parseError := None;
      errorOffset := 0;
    }

    /** Every scalar handler: the constructed value is pushed. */
    method Push(v: GenericValue)
      modifies this`stack
      ensures stack == old(stack) + [v]
    {
      stack := stack + [v];
    }

    method StartObject()
      modifies this`stack
      ensures Some(stack) == Step(old(stack), E.StartObject)
    {
      Push(Object([]));
    }

    /** The members are the topmost values, two by two; the value below them becomes the object. */
    method EndObject(memberCount: nat)
      requires |stack| >= 2 * memberCount + 1
      modifies this`stack
      ensures Some(stack) == Step(old(stack), E.EndObject(memberCount))
    {
      var k := |stack| - 2 * memberCount;
      var members := Pairs(stack[k..]);
      stack := stack[..k - 1] + [Object(members)];
    }

    method StartArray()
      modifies this`stack
      ensures Some(stack) == Step(old(stack), E.StartArray)
    {
      Push(Array([]));
    }

    method EndArray(elementCount: nat)
      requires |stack| >= elementCount + 1
      modifies this`stack
      ensures Some(stack) == Step(old(stack), E.EndArray(elementCount))
    {
      var k := |stack| - elementCount;
      var elements := stack[k..];
      stack := stack[..k - 1] + [Array(elements)];
    }

    method Handle(e: E.Event)
      requires Step(stack, e).Some?
      modifies this`stack
      ensures Some(stack) == Step(old(stack), e)
    {
      match e
      case StartObject => StartObject();
      case EndObject(n) => EndObject(n);
      case StartArray => StartArray();
      case EndArray(n) => EndArray(n);
      case BigNum(_) => assert false;
      case _ => Push(OfEvent(e));
    }

    /** The handler calls of a parse, in order. */
    method Replay(log: seq<E.Event>)
      requires Run(stack, log).Some?
      modifies this`stack
      ensures Some(stack) == Run(old(stack), log)
    {
      hide Run, Step;
      RunNothing(stack);
      assert log[..0] == [];
      for i := 0 to |log|
        invariant Run(old(stack), log[..i]) == Some(stack)
      {
        RunPrefix(old(stack), log, i);
        Handle(log[i]);
      }
      assert log[..|log|] == log;
    }

    /** `ParseStream`. The reader learns nothing from the handlers, so its calls are made after the parse. On
        success the one value on the stack becomes the root; otherwise the root stays null, and error and
        offset are the reader's. */
    method ParseStream(ignoreTrailing: bool, text: string)
      requires stack == []
      modifies this
      ensures stack == []
      ensures var p := ParseText(Numeric, ignoreTrailing, text);
        match p
        case Ok(events, _) => parseError == None && errorOffset == 0 && Run([], events) == Some([root])
        case Err(_, error, left) => parseError == Some(error) && errorOffset == |text| - left && root == Null
    {
      hide ParseText, Run;
      root := Null;
      OneValue(ignoreTrailing, text);
      var log, fail := ReadEvents(ignoreTrailing, text);
      Replay(log);
      if fail == None {
        root := stack[0];
        assert stack == [root];
        stack := stack[..0];
        parseError := None;
        errorOffset := 0;
      } else {
        parseError := Some(fail.value.error);
        errorOffset := fail.value.offset;
        stack := [];
      }
    }
  }

  /** A reader's whole work on a text. */
  method ReadEvents(ignoreTrailing: bool, text: string) returns (log: seq<E.Event>, fail: Option<JsonReader.Failure>)
    ensures var p := ParseText(Numeric, ignoreTrailing, text);
      log == p.log &&
      match p
      case Ok(_, _) => fail == None
      case Err(_, error, left) => fail == Some(JsonReader.Failure(error, |text| - left))
  {
    hide *;
    var reader := new JsonReader.Reader(Numeric, text);
    fail := reader.Parse(ignoreTrailing);
    log := reader.log;
    ghost var p := ParseText(Numeric, ignoreTrailing, text);
    assert [] + p.log == p.log;
  }
}
