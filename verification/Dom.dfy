/** The document model: values, the events `Accept` makes of them, and the stack machine that makes values of
    events. Running the events of a value pushes that value. */
module Dom {
  import opened Strings
  import opened Decimal
  import opened ReaderSpec
  import opened ReaderSound
  import E = Events

  /** The integer types a number is known to fit. */
  datatype Flags = Flags(isInt: bool, isUint: bool, isInt64: bool, isUint64: bool)

  /** `GenericValue`. An integer is its 64 bits and its flags; a string knows whether it owns a copy of its
      characters. `TypedNumber` and `TypedString` are what the
      constructor from a type makes of the number and string types: a zero that has every number flag but the
      tag of null, and a string whose pointer is null. For the other types that constructor makes values that
      are here already. */
  datatype GenericValue =
    | Null
    | Bool(b: bool)
    | Number(bits: uint64, flags: Flags)
    | Double(r: real)
    | String(s: string, copied: bool)
    | TypedNumber
    | TypedString
    | Object(members: seq<Pair>)
    | Array(items: seq<GenericValue>)

  datatype Pair = Pair(name: GenericValue, value: GenericValue)

  // ---- the union of integers ----

  /** Two's complement in 64 bits. */
  function Bits(i: int): uint64
    requires -0x8000_0000_0000_0000 <= i <= 0xFFFF_FFFF_FFFF_FFFF
  {
    if i < 0 then i + 0x1_0000_0000_0000_0000 else i
  }

  function AsInt64(bits: uint64): int64 {
    if bits >= 0x8000_0000_0000_0000 then bits - 0x1_0000_0000_0000_0000 else bits
  }

  /** `data_.n.u` and `data_.n.i`: the low half. */
  function LowUint(bits: uint64): uint32 { bits % 0x1_0000_0000 }
  function LowInt(bits: uint64): int32 {
    var u := LowUint(bits);
    if u >= 0x8000_0000 then u - 0x1_0000_0000 else u
  }

  // ---- the four integer constructors ----

  function OfInt(i: int32): GenericValue {
    Number(Bits(i), Flags(true, i >= 0, true, i >= 0))
  }

  function OfUint(u: uint32): GenericValue {
    Number(u, Flags(u < 0x8000_0000, true, u < 0x8000_0000, true))
  }

  function OfInt64(i: int64): GenericValue {
    Number(Bits(i), Flags(-0x8000_0000 <= i < 0x8000_0000, 0 <= i < 0x1_0000_0000, true, i >= 0))
  }

  function OfUint64(u: uint64): GenericValue {
    Number(u, Flags(u < 0x8000_0000, u < 0x1_0000_0000, u < 0x8000_0000_0000_0000, true))
  }

  /** The types an integer really fits. */
  function Fits(n: int): Flags {
    Flags(-0x8000_0000 <= n < 0x8000_0000, 0 <= n < 0x1_0000_0000,
      -0x8000_0000_0000_0000 <= n < 0x8000_0000_0000_0000, 0 <= n < 0x1_0000_0000_0000_0000)
  }

  /** The integer in two's complement and the types it fits. */
  function Truly(n: int): GenericValue
    requires -0x8000_0000_0000_0000 <= n < 0x1_0000_0000_0000_0000
  {
    Number(if n < 0 then n + 0x1_0000_0000_0000_0000 else n, Fits(n))
  }

  /** Every constructor keeps the integer and tells the truth about it, but for the unsigned one, which denies from
      2^31 on that it fits 64 signed bits. */
  lemma ConstructorsTell(i: int32, u: uint32, l: int64, m: uint64)
    ensures OfInt(i) == Truly(i) && OfInt64(l) == Truly(l) && OfUint64(m) == Truly(m)
    ensures OfUint(u) == Truly(u) <==> u < 0x8000_0000
    ensures u >= 0x8000_0000 ==> OfUint(u) == Number(u, Fits(u).(isInt64 := false))
  {
  }

  /** `IsString`: what the name of a member has to be. */
  predicate IsString(v: GenericValue) { v.String? || v.TypedString? }

  /** A value as constructors make it; member names are strings. */
  ghost predicate Made(v: GenericValue) {
    match v
    case Number(bits, _) => v == OfInt(LowInt(bits)) || v == OfUint(LowUint(bits)) || v == OfInt64(AsInt64(bits)) ||
      v == OfUint64(bits)
    case Object(ms) => forall i :: 0 <= i < |ms| ==> IsString(ms[i].name) && Made(ms[i].value)
    case Array(xs) => forall i :: 0 <= i < |xs| ==> Made(xs[i])
    case _ => true
  }

  // ---- Accept ----

  /** The first type in this order that the number fits. */
  function NumberEvent(bits: uint64, flags: Flags): E.Event {
    if flags.isInt then E.Int(LowInt(bits))
    else if flags.isUint then E.Uint(LowUint(bits))
    else if flags.isInt64 then E.Int64(AsInt64(bits))
    else E.Uint64(Bits(AsInt64(bits)))
  }

  /** What `Accept` sends for an integer from a constructor: the narrowest call in the order signed 32 bits, unsigned 32
      bits, signed 64 bits, unsigned 64 bits, and the integer itself. */
  lemma NumbersSent(i: int32, u: uint32, l: int64, m: uint64)
    ensures NumberEvent(OfInt(i).bits, OfInt(i).flags) == E.Int(i)
    ensures NumberEvent(OfUint(u).bits, OfUint(u).flags) == if u < 0x8000_0000 then E.Int(u) else E.Uint(u)
    ensures NumberEvent(OfInt64(l).bits, OfInt64(l).flags) ==
      if -0x8000_0000 <= l < 0x8000_0000 then E.Int(l) else if 0 <= l < 0x1_0000_0000 then E.Uint(l) else E.Int64(l)
    ensures NumberEvent(OfUint64(m).bits, OfUint64(m).flags) ==
      if m < 0x8000_0000 then E.Int(m) else if m < 0x1_0000_0000 then E.Uint(m)
      else if m < 0x8000_0000_0000_0000 then E.Int64(m) else E.Uint64(m)
  {
  }

  /** A handler call that `Accept` makes: an event; or `String` without a copy, of characters or of a null pointer. */
  datatype Call = Send(e: E.Event) | SendString(s: string) | SendNull

  function StringCall(v: GenericValue): Call
    requires IsString(v)
  {
    if v.String? then SendString(v.s) else SendNull
  }

  /** `Accept`, which looks at the tag. */
  function Accept(v: GenericValue): seq<Call>
    requires Made(v)
    decreases v, 1
  {
    match v
    case Null => [Send(E.Null)]
    case TypedNumber => [Send(E.Null)]
    case Bool(b) => [Send(E.Bool(b))]
    case Number(bits, flags) => [Send(NumberEvent(bits, flags))]
    case Double(r) => [Send(E.Double(r))]
    case String(_, _) => [StringCall(v)]
    case TypedString => [StringCall(v)]
    case Object(ms) => [Send(E.StartObject)] + AcceptMembers(ms) + [Send(E.EndObject(|ms|))]
    case Array(xs) => [Send(E.StartArray)] + AcceptItems(xs) + [Send(E.EndArray(|xs|))]
  }

  function AcceptMembers(ms: seq<Pair>): seq<Call>
    requires forall i :: 0 <= i < |ms| ==> IsString(ms[i].name) && Made(ms[i].value)
    decreases ms, 0
  {
    if ms == [] then []
    else
      var Pair(name, value) := ms[0];
      assert value < ms[0];
      [StringCall(name)] + Accept(value) + AcceptMembers(ms[1..])
  }

  function AcceptItems(xs: seq<GenericValue>): seq<Call>
    requires forall i :: 0 <= i < |xs| ==> Made(xs[i])
    decreases xs, 0
  {
    if xs == [] then [] else Accept(xs[0]) + AcceptItems(xs[1..])
  }

  // ---- the stack machine ----

  /** The value a handler makes of an event. The reader asks for copies of its strings. */
  function OfEvent(e: E.Event): GenericValue
    requires E.IsScalar(e) && !e.BigNum?
  {
    match e
    case Bool(b) => Bool(b)
    case Int(i) => OfInt(i)
    case Uint(u) => OfUint(u)
    case Int64(i) => OfInt64(i)
    case Uint64(u) => OfUint64(u)
    case Double(r) => Double(r)
    case String(s) => String(s, true)
    case _ => Null
  }

  /** Values read as members, two by two. */
  function Pairs(vs: seq<GenericValue>): (ms: seq<Pair>)
    requires |vs| % 2 == 0
    ensures |ms| == |vs| / 2
    decreases |vs|
  {
    if vs == [] then [] else [Pair(vs[0], vs[1])] + Pairs(vs[2..])
  }

  function Flat(ms: seq<Pair>): (vs: seq<GenericValue>)
    ensures |vs| == 2 * |ms|
    decreases |ms|
  {
    if ms == [] then [] else [ms[0].name, ms[0].value] + Flat(ms[1..])
  }

  /** The values at even places are names, those behind them values. */
  lemma {:induction false} PairsAt(vs: seq<GenericValue>, i: nat)
    requires |vs| % 2 == 0 && 2 * i < |vs|
    ensures Pairs(vs)[i] == Pair(vs[2 * i], vs[2 * i + 1])
    decreases i
  {
    if i > 0 { PairsAt(vs[2..], i - 1); }
  }

  lemma {:induction false} PairsOfFlat(ms: seq<Pair>)
    ensures Pairs(Flat(ms)) == ms
    decreases |ms|
  {
    if ms != [] {
      PairsOfFlat(ms[1..]);
      assert Flat(ms)[2..] == Flat(ms[1..]);
    }
  }

  /** One handler call on the stack; none where an assertion of the stack fails. This handler has no `BigNum`. */
  function Step(stack: seq<GenericValue>, e: E.Event): Option<seq<GenericValue>> {
    match e
    case BigNum(_) => None
    case StartObject => Some(stack + [Object([])])
    case StartArray => Some(stack + [Array([])])
    case EndObject(n) =>
      if |stack| < 2 * n + 1 then None
      else
        var k := |stack| - 2 * n;
        Some(stack[..k - 1] + [Object(Pairs(stack[k..]))])
    case EndArray(n) =>
      if |stack| < n + 1 then None
      else
        var k := |stack| - n;
        Some(stack[..k - 1] + [Array(stack[k..])])
    case _ => Some(stack + [OfEvent(e)])
  }

  function Run(stack: seq<GenericValue>, log: seq<E.Event>): Option<seq<GenericValue>>
    decreases |log|
  {
    if log == [] then Some(stack)
    else match Step(stack, log[0])
      case None => None
      case Some(next) => Run(next, log[1..])
  }

  lemma {:induction false} RunConcat(stack: seq<GenericValue>, a: seq<E.Event>, b: seq<E.Event>)
    ensures Run(stack, a + b) == match Run(stack, a) case None => None case Some(next) => Run(next, b)
    decreases |a|
  {
    hide Step;
    if a == [] {
      assert a + b == b;
    } else {
      assert (a + b)[0] == a[0] && (a + b)[1..] == a[1..] + b;
      if Step(stack, a[0]).Some? { RunConcat(Step(stack, a[0]).value, a[1..], b); }
    }
  }

  lemma RunOne(stack: seq<GenericValue>, e: E.Event)
    ensures Run(stack, [e]) == Step(stack, e)
  {
    hide Step;
  }

  // ---- events of a tree push its value ----

  /** The value a balanced event sequence stands for. */
  function ValueOf(t: E.Tree): GenericValue
    requires FromReader(Numeric, t)
    decreases t, 1
  {
    match t
    case Leaf(e) => OfEvent(e)
    case Obj(ms) => Object(PairsOf(ms))
    case Arr(xs) => Array(ValuesOf(xs))
  }

  function PairsOf(ms: seq<E.Member>): (ps: seq<Pair>)
    requires forall i :: 0 <= i < |ms| ==> FromReader(Numeric, ms[i].value)
    ensures |ps| == |ms|
    decreases ms, 0
  {
    if ms == [] then [] else [Pair(String(ms[0].name, true), ValueOf(ms[0].value))] + PairsOf(ms[1..])
  }

  function ValuesOf(xs: seq<E.Tree>): (vs: seq<GenericValue>)
    requires forall i :: 0 <= i < |xs| ==> FromReader(Numeric, xs[i])
    ensures |vs| == |xs|
    decreases xs, 0
  {
    if xs == [] then [] else [ValueOf(xs[0])] + ValuesOf(xs[1..])
  }

  /** What an event stands for: the very boolean, string or double, and the integer as its constructor makes it. */
  lemma EventsStandFor(b: bool, i: int32, u: uint32, l: int64, m: uint64, r: real, s: string)
    ensures OfEvent(E.Null) == Null && OfEvent(E.Bool(b)) == Bool(b)
    ensures OfEvent(E.Double(r)) == Double(r) && OfEvent(E.String(s)) == String(s, true)
    ensures OfEvent(E.Int(i)) == Truly(i) && OfEvent(E.Int64(l)) == Truly(l) && OfEvent(E.Uint64(m)) == Truly(m)
    ensures OfEvent(E.Uint(u)) == if u < 0x8000_0000 then Truly(u) else Number(u, Fits(u).(isInt64 := false))
  {
  }

  /** The value of an object or an array has the values of its parts in their places. */
  lemma {:induction false} PartsInPlace(ms: seq<E.Member>, xs: seq<E.Tree>, i: nat)
    requires forall j :: 0 <= j < |ms| ==> FromReader(Numeric, ms[j].value)
    requires forall j :: 0 <= j < |xs| ==> FromReader(Numeric, xs[j])
    ensures i < |ms| ==> PairsOf(ms)[i] == Pair(String(ms[i].name, true), ValueOf(ms[i].value))
    ensures i < |xs| ==> ValuesOf(xs)[i] == ValueOf(xs[i])
    decreases i
  {
    hide ValueOf, FromReader;
    if i > 0 { PartsInPlace(if ms == [] then [] else ms[1..], if xs == [] then [] else xs[1..], i - 1); }
  }

  /** The compiler theorem: on any stack, the events of a tree push exactly its value. */
  lemma {:induction false} TreePushes(t: E.Tree, stack: seq<GenericValue>)
    requires FromReader(Numeric, t)
    ensures Run(stack, E.TreeEvents(t)) == Some(stack + [ValueOf(t)])
    decreases t, 1
  {
    match t
    case Leaf(e) => RunOne(stack, e);
    case Obj(ms) =>
      ObjectPushes(ms, stack);
    case Arr(xs) =>
      ArrayPushes(xs, stack);
  }

  lemma {:induction false} ObjectPushes(ms: seq<E.Member>, stack: seq<GenericValue>)
    requires forall i :: 0 <= i < |ms| ==> FromReader(Numeric, ms[i].value)
    ensures Run(stack, [E.StartObject] + E.MemberEvents(ms) + [E.EndObject(|ms|)]) == Some(stack + [Object(PairsOf(ms))])
    decreases ms, 1
  {
    hide E.MemberEvents, FromReader;
    var open := stack + [Object([])];
    RunOne(stack, E.StartObject);
    MembersPush(ms, open);
    RunConcat(stack, [E.StartObject], E.MemberEvents(ms));
    RunConcat(stack, [E.StartObject] + E.MemberEvents(ms), [E.EndObject(|ms|)]);
    hide Run;
    var vs := Flat(PairsOf(ms));
    RunOne(open + vs, E.EndObject(|ms|));
    assert (open + vs)[|open|..] == vs && (open + vs)[..|stack|] == stack;
    PairsOfFlat(PairsOf(ms));
  }

  lemma {:induction false} ArrayPushes(xs: seq<E.Tree>, stack: seq<GenericValue>)
    requires forall i :: 0 <= i < |xs| ==> FromReader(Numeric, xs[i])
    ensures Run(stack, [E.StartArray] + E.ItemEvents(xs) + [E.EndArray(|xs|)]) == Some(stack + [Array(ValuesOf(xs))])
    decreases xs, 1
  {
    hide E.ItemEvents, FromReader;
    var open := stack + [Array([])];
    RunOne(stack, E.StartArray);
    ItemsPush(xs, open);
    RunConcat(stack, [E.StartArray], E.ItemEvents(xs));
    RunConcat(stack, [E.StartArray] + E.ItemEvents(xs), [E.EndArray(|xs|)]);
    hide Run;
    var vs := ValuesOf(xs);
    RunOne(open + vs, E.EndArray(|xs|));
    assert (open + vs)[|open|..] == vs && (open + vs)[..|stack|] == stack;
  }

  lemma {:induction false} MembersPush(ms: seq<E.Member>, stack: seq<GenericValue>)
    requires forall i :: 0 <= i < |ms| ==> FromReader(Numeric, ms[i].value)
    ensures Run(stack, E.MemberEvents(ms)) == Some(stack + Flat(PairsOf(ms)))
    decreases ms, 0
  {
    hide E.TreeEvents, FromReader, Run, ValueOf, Step;
    if ms == [] {
      RunNothing(stack);
      assert stack + [] == stack;
    } else {
      var m := ms[0];
      var v := ValueOf(m.value);
      var s1 := stack + [String(m.name, true)];
      RunString(stack, m.name);
      TreePushes(m.value, s1);
      RunConcat(stack, [E.String(m.name)], E.TreeEvents(m.value));
      RunConcat(stack, [E.String(m.name)] + E.TreeEvents(m.value), E.MemberEvents(ms[1..]));
      MembersPush(ms[1..], s1 + [v]);
      FlatFirst(stack, Pair(String(m.name, true), v), PairsOf(ms[1..]));
    }
  }

  lemma RunNothing(stack: seq<GenericValue>)
    ensures Run(stack, []) == Some(stack)
  {
  }

  lemma RunString(stack: seq<GenericValue>, s: string)
    ensures Run(stack, [E.String(s)]) == Some(stack + [String(s, true)])
  {
    RunOne(stack, E.String(s));
  }

  lemma Regroup(a: seq<GenericValue>, b: seq<GenericValue>, c: seq<GenericValue>)
    ensures a + b + c == a + (b + c)
  {
  }

  lemma FlatFirst(stack: seq<GenericValue>, p: Pair, ps: seq<Pair>)
    ensures stack + [p.name] + [p.value] + Flat(ps) == stack + Flat([p] + ps)
  {
    assert ([p] + ps)[1..] == ps;
    assert stack + [p.name] + [p.value] + Flat(ps) == stack + ([p.name, p.value] + Flat(ps));
  }

  lemma {:induction false} ItemsPush(xs: seq<E.Tree>, stack: seq<GenericValue>)
    requires forall i :: 0 <= i < |xs| ==> FromReader(Numeric, xs[i])
    ensures Run(stack, E.ItemEvents(xs)) == Some(stack + ValuesOf(xs))
    decreases xs, 0
  {
    hide E.TreeEvents, FromReader, Run, ValueOf;
    if xs == [] {
      RunNothing(stack);
      assert stack + [] == stack;
    } else {
      TreePushes(xs[0], stack);
      RunConcat(stack, E.TreeEvents(xs[0]), E.ItemEvents(xs[1..]));
      ItemsPush(xs[1..], stack + [ValueOf(xs[0])]);
      Regroup(stack, [ValueOf(xs[0])], ValuesOf(xs[1..]));
    }
  }

  // ---- Accept, then the stack machine ----

  /** One call of `Accept` on the stack; making a string of a null pointer fails an assertion. */
  function Perform(stack: seq<GenericValue>, call: Call): Option<seq<GenericValue>> {
    match call
    case Send(e) => Step(stack, e)
    case SendString(s) => Some(stack + [String(s, false)])
    case SendNull => None
  }

  function PerformAll(stack: seq<GenericValue>, calls: seq<Call>): Option<seq<GenericValue>>
    decreases |calls|
  {
    if calls == [] then Some(stack)
    else match Perform(stack, calls[0])
      case None => None
      case Some(next) => PerformAll(next, calls[1..])
  }

  lemma {:induction false} PerformConcat(stack: seq<GenericValue>, a: seq<Call>, b: seq<Call>)
    ensures PerformAll(stack, a + b) == match PerformAll(stack, a) case None => None case Some(next) => PerformAll(next, b)
    decreases |a|
  {
    hide Perform;
    if a == [] {
      assert a + b == b;
    } else {
      assert (a + b)[0] == a[0] && (a + b)[1..] == a[1..] + b;
      if Perform(stack, a[0]).Some? { PerformConcat(Perform(stack, a[0]).value, a[1..], b); }
    }
  }

  lemma PerformOne(stack: seq<GenericValue>, call: Call)
    ensures PerformAll(stack, [call]) == Perform(stack, call) && PerformAll(stack, []) == Some(stack)
  {
    hide Perform;
  }

  /** A string from a type is somewhere in the value, as a value or as a name. */
  ghost predicate HoldsTypedString(v: GenericValue) {
    match v
    case TypedString => true
    case Object(ms) => exists i :: 0 <= i < |ms| && (ms[i].name.TypedString? || HoldsTypedString(ms[i].value))
    case Array(xs) => exists i :: 0 <= i < |xs| && HoldsTypedString(xs[i])
    case _ => false
  }

  /** A string without its copy; what `Accept` makes of a name. */
  function Unowned(v: GenericValue): GenericValue {
    if v.String? then String(v.s, false) else v
  }

  /** The value with its numbers made anew, those from a type made null, and no copies of strings. */
  function Rebuilt(v: GenericValue): GenericValue
    requires Made(v)
    decreases v, 1
  {
    match v
    case Number(bits, flags) => OfEvent(NumberEvent(bits, flags))
    case TypedNumber => Null
    case String(_, _) => Unowned(v)
    case Object(ms) => Object(RebuiltMembers(ms))
    case Array(xs) => Array(RebuiltItems(xs))
    case _ => v
  }

  function RebuiltMembers(ms: seq<Pair>): (ps: seq<Pair>)
    requires forall i :: 0 <= i < |ms| ==> IsString(ms[i].name) && Made(ms[i].value)
    ensures |ps| == |ms|
    decreases ms, 0
  {
    if ms == [] then []
    else
      var Pair(name, value) := ms[0];
      assert value < ms[0];
      [Pair(Unowned(name), Rebuilt(value))] + RebuiltMembers(ms[1..])
  }

  function RebuiltItems(xs: seq<GenericValue>): (ys: seq<GenericValue>)
    requires forall i :: 0 <= i < |xs| ==> Made(xs[i])
    ensures |ys| == |xs|
    decreases xs, 0
  {
    if xs == [] then [] else [Rebuilt(xs[0])] + RebuiltItems(xs[1..])
  }

  /** What a value's calls do to any stack: they push the value rebuilt, or fail the assertion if it holds a
      string from a type. */
  lemma {:induction false} AcceptPushes(v: GenericValue, stack: seq<GenericValue>)
    requires Made(v)
    ensures PerformAll(stack, Accept(v)) == if HoldsTypedString(v) then None else Some(stack + [Rebuilt(v)])
    decreases v, 1
  {
    match v
    case Object(ms) => AcceptObject(ms, stack);
    case Array(xs) => AcceptArray(xs, stack);
    case _ => PerformOne(stack, Accept(v)[0]);
  }

  lemma {:induction false} AcceptObject(ms: seq<Pair>, stack: seq<GenericValue>)
    requires forall i :: 0 <= i < |ms| ==> IsString(ms[i].name) && Made(ms[i].value)
    ensures PerformAll(stack, [Send(E.StartObject)] + AcceptMembers(ms) + [Send(E.EndObject(|ms|))])
      == if HoldsTypedString(Object(ms)) then None else Some(stack + [Object(RebuiltMembers(ms))])
    decreases ms, 1
  {
    hide AcceptMembers, Made, PerformAll, RebuiltMembers;
    var open := stack + [Object([])];
    PerformOne(stack, Send(E.StartObject));
    MembersAccepted(ms, open);
    PerformConcat(stack, [Send(E.StartObject)], AcceptMembers(ms));
    PerformConcat(stack, [Send(E.StartObject)] + AcceptMembers(ms), [Send(E.EndObject(|ms|))]);
    if !MembersHold(ms) {
      var vs := Flat(RebuiltMembers(ms));
      PerformOne(open + vs, Send(E.EndObject(|ms|)));
      assert (open + vs)[|open|..] == vs && (open + vs)[..|stack|] == stack;
      PairsOfFlat(RebuiltMembers(ms));
    }
  }

  lemma {:induction false} AcceptArray(xs: seq<GenericValue>, stack: seq<GenericValue>)
    requires forall i :: 0 <= i < |xs| ==> Made(xs[i])
    ensures PerformAll(stack, [Send(E.StartArray)] + AcceptItems(xs) + [Send(E.EndArray(|xs|))])
      == if HoldsTypedString(Array(xs)) then None else Some(stack + [Array(RebuiltItems(xs))])
    decreases xs, 1
  {
    hide AcceptItems, Made, PerformAll, RebuiltItems;
    var open := stack + [Array([])];
    PerformOne(stack, Send(E.StartArray));
    ItemsAccepted(xs, open);
    PerformConcat(stack, [Send(E.StartArray)], AcceptItems(xs));
    PerformConcat(stack, [Send(E.StartArray)] + AcceptItems(xs), [Send(E.EndArray(|xs|))]);
    if !ItemsHold(xs) {
      var vs := RebuiltItems(xs);
      PerformOne(open + vs, Send(E.EndArray(|xs|)));
      assert (open + vs)[|open|..] == vs && (open + vs)[..|stack|] == stack;
    }
  }

  /** A string from a type among the members. */
  ghost predicate MembersHold(ms: seq<Pair>) { HoldsTypedString(Object(ms)) }
  ghost predicate ItemsHold(xs: seq<GenericValue>) { HoldsTypedString(Array(xs)) }

  lemma MembersHoldFirst(ms: seq<Pair>)
    ensures MembersHold(ms) <==> ms != [] && (ms[0].name.TypedString? || HoldsTypedString(ms[0].value) || MembersHold(ms[1..]))
  {
    assert forall i :: 1 <= i < |ms| ==> ms[i] == ms[1..][i - 1];
  }

  lemma ItemsHoldFirst(xs: seq<GenericValue>)
    ensures ItemsHold(xs) <==> xs != [] && (HoldsTypedString(xs[0]) || ItemsHold(xs[1..]))
  {
    assert forall i :: 1 <= i < |xs| ==> xs[i] == xs[1..][i - 1];
  }

  lemma {:induction false} MembersAccepted(ms: seq<Pair>, stack: seq<GenericValue>)
    requires forall i :: 0 <= i < |ms| ==> IsString(ms[i].name) && Made(ms[i].value)
    ensures PerformAll(stack, AcceptMembers(ms)) == if MembersHold(ms) then None else Some(stack + Flat(RebuiltMembers(ms)))
    decreases ms, 0
  {
    hide Made, Accept, HoldsTypedString, MembersHold, PerformAll, Rebuilt;
    MembersHoldFirst(ms);
    PerformOne(stack, SendNull);
    if ms == [] {
      assert stack + [] == stack;
    } else {
      var Pair(name, value) := ms[0];
      assert value < ms[0];
      var s1 := stack + [Unowned(name)];
      PerformOne(stack, StringCall(name));
      AcceptPushes(value, s1);
      PerformConcat(stack, [StringCall(name)], Accept(value));
      PerformConcat(stack, [StringCall(name)] + Accept(value), AcceptMembers(ms[1..]));
      MembersAccepted(ms[1..], s1 + [Rebuilt(value)]);
      FlatFirst(stack, Pair(Unowned(name), Rebuilt(value)), RebuiltMembers(ms[1..]));
    }
  }

  lemma {:induction false} ItemsAccepted(xs: seq<GenericValue>, stack: seq<GenericValue>)
    requires forall i :: 0 <= i < |xs| ==> Made(xs[i])
    ensures PerformAll(stack, AcceptItems(xs)) == if ItemsHold(xs) then None else Some(stack + RebuiltItems(xs))
    decreases xs, 0
  {
    hide Made, Accept, HoldsTypedString, ItemsHold, PerformAll, Rebuilt;
    ItemsHoldFirst(xs);
    PerformOne(stack, SendNull);
    if xs == [] {
      assert stack + [] == stack;
    } else {
      AcceptPushes(xs[0], stack);
      PerformConcat(stack, Accept(xs[0]), AcceptItems(xs[1..]));
      ItemsAccepted(xs[1..], stack + [Rebuilt(xs[0])]);
      Regroup(stack, [Rebuilt(xs[0])], RebuiltItems(xs[1..]));
    }
  }

  /** The number a value stands for, by whichever signed or unsigned reading its flags allow. */
  function NumberIn(bits: uint64, flags: Flags): int {
    if flags.isInt64 then AsInt64(bits) else bits
  }

  // A number made by each constructor, sent as an event and made again.

  lemma IntKept(i: int32)
    ensures var v := OfInt(i); OfEvent(NumberEvent(v.bits, v.flags)) == v && NumberIn(v.bits, v.flags) == i
  {
  }

  lemma UintKept(u: uint32)
    ensures var v := OfUint(u); OfEvent(NumberEvent(v.bits, v.flags)) == v && NumberIn(v.bits, v.flags) == u
  {
  }

  lemma Int64Kept(i: int64)
    ensures var v := OfInt64(i);
      OfEvent(NumberEvent(v.bits, v.flags)) == (if 0x8000_0000 <= i < 0x1_0000_0000 then OfUint(i) else v) &&
        NumberIn(v.bits, v.flags) == i
  {
  }

  lemma Uint64Kept(u: uint64)
    ensures var v := OfUint64(u);
      OfEvent(NumberEvent(v.bits, v.flags)) == (if 0x8000_0000 <= u < 0x1_0000_0000 then OfUint(u) else v) &&
        NumberIn(v.bits, v.flags) == u
  {
  }

  /** A rebuilt number is the same number, with the same bits. */
  lemma NumberKept(bits: uint64, flags: Flags)
    requires Made(Number(bits, flags))
    ensures var n := OfEvent(NumberEvent(bits, flags));
      n.Number? && n.bits == bits && NumberIn(n.bits, n.flags) == NumberIn(bits, flags)
    ensures OfEvent(NumberEvent(bits, flags)) == Number(bits, flags) <==> !(flags.isUint && !flags.isInt && flags.isInt64)
  {
    var v := Number(bits, flags);
    var i, u, l := LowInt(bits), LowUint(bits), AsInt64(bits);
    assert v == OfInt(i) || v == OfUint(u) || v == OfInt64(l) || v == OfUint64(bits);
    IntKept(i);
    UintKept(u);
    Int64Kept(l);
    Uint64Kept(bits);
    hide OfEvent, NumberEvent, NumberIn, LowInt, LowUint, AsInt64;
  }

  /** No number in it comes from a type, or fits 32 unsigned but not 32 signed bits and came from a 64-bit
      constructor. */
  ghost predicate NarrowlyMade(v: GenericValue) {
    match v
    case Number(_, flags) => !(flags.isUint && !flags.isInt && flags.isInt64)
    case TypedNumber => false
    case Object(ms) => forall i :: 0 <= i < |ms| ==> NarrowlyMade(ms[i].value)
    case Array(xs) => forall i :: 0 <= i < |xs| ==> NarrowlyMade(xs[i])
    case _ => true
  }

  /** No string in it owns a copy of its characters. */
  ghost predicate OwnsNothing(v: GenericValue) {
    match v
    case String(_, copied) => !copied
    case Object(ms) => forall i :: 0 <= i < |ms| ==> Unowned(ms[i].name) == ms[i].name && OwnsNothing(ms[i].value)
    case Array(xs) => forall i :: 0 <= i < |xs| ==> OwnsNothing(xs[i])
    case _ => true
  }

  /** The value with its strings shared instead of copied. */
  function Shared(v: GenericValue): GenericValue
    decreases v, 1
  {
    match v
    case String(_, _) => Unowned(v)
    case Object(ms) => Object(SharedMembers(ms))
    case Array(xs) => Array(SharedItems(xs))
    case _ => v
  }

  function SharedMembers(ms: seq<Pair>): (ps: seq<Pair>)
    ensures |ps| == |ms|
    decreases ms, 0
  {
    if ms == [] then []
    else
      var Pair(name, value) := ms[0];
      assert value < ms[0];
      [Pair(Unowned(name), Shared(value))] + SharedMembers(ms[1..])
  }

  function SharedItems(xs: seq<GenericValue>): (ys: seq<GenericValue>)
    ensures |ys| == |xs|
    decreases xs, 0
  {
    if xs == [] then [] else [Shared(xs[0])] + SharedItems(xs[1..])
  }

  /** The numbers survive exactly when the value is narrowly made. */
  lemma {:induction false} RebuiltIsShared(v: GenericValue)
    requires Made(v)
    ensures Rebuilt(v) == Shared(v) <==> NarrowlyMade(v)
    decreases v, 1
  {
    match v
    case Number(bits, flags) => NumberKept(bits, flags);
    case Object(ms) => RebuiltMembersShared(ms);
    case Array(xs) => RebuiltItemsShared(xs);
    case _ =>
  }

  lemma {:induction false} RebuiltMembersShared(ms: seq<Pair>)
    requires forall i :: 0 <= i < |ms| ==> IsString(ms[i].name) && Made(ms[i].value)
    ensures RebuiltMembers(ms) == SharedMembers(ms) <==> forall i :: 0 <= i < |ms| ==> NarrowlyMade(ms[i].value)
    decreases ms, 0
  {
    if ms != [] {
      var Pair(name, value) := ms[0];
      assert value < ms[0];
      hide Made, NarrowlyMade, Rebuilt, Shared;
      RebuiltIsShared(value);
      RebuiltMembersShared(ms[1..]);
      var r, t := RebuiltMembers(ms), SharedMembers(ms);
      assert r[0] == Pair(Unowned(name), Rebuilt(value)) && r[1..] == RebuiltMembers(ms[1..]);
      assert t[0] == Pair(Unowned(name), Shared(value)) && t[1..] == SharedMembers(ms[1..]);
      assert r == [r[0]] + r[1..] && t == [t[0]] + t[1..];
      assert forall i :: 1 <= i < |ms| ==> ms[i] == ms[1..][i - 1];
    }
  }

  lemma {:induction false} RebuiltItemsShared(xs: seq<GenericValue>)
    requires forall i :: 0 <= i < |xs| ==> Made(xs[i])
    ensures RebuiltItems(xs) == SharedItems(xs) <==> forall i :: 0 <= i < |xs| ==> NarrowlyMade(xs[i])
    decreases xs, 0
  {
    hide Made, NarrowlyMade, Rebuilt, Shared;
    if xs != [] {
      RebuiltIsShared(xs[0]);
      RebuiltItemsShared(xs[1..]);
      var r, t := RebuiltItems(xs), SharedItems(xs);
      assert r[0] == Rebuilt(xs[0]) && r[1..] == RebuiltItems(xs[1..]);
      assert t[0] == Shared(xs[0]) && t[1..] == SharedItems(xs[1..]);
      assert r == [r[0]] + r[1..] && t == [t[0]] + t[1..];
      assert forall i :: 1 <= i < |xs| ==> xs[i] == xs[1..][i - 1];
    }
  }

  /** Sharing changes a value exactly when it owns a string. */
  lemma {:induction false} SharedIsSame(v: GenericValue)
    ensures Shared(v) == v <==> OwnsNothing(v)
    decreases v, 1
  {
    match v
    case Object(ms) => SharedMembersSame(ms);
    case Array(xs) => SharedItemsSame(xs);
    case _ =>
  }

  lemma {:induction false} SharedMembersSame(ms: seq<Pair>)
    ensures SharedMembers(ms) == ms <==> forall i :: 0 <= i < |ms| ==> Unowned(ms[i].name) == ms[i].name && OwnsNothing(ms[i].value)
    decreases ms, 0
  {
    hide OwnsNothing, Shared;
    if ms != [] {
      var Pair(name, value) := ms[0];
      assert value < ms[0];
      SharedIsSame(value);
      SharedMembersSame(ms[1..]);
      var t := SharedMembers(ms);
      assert t[0] == Pair(Unowned(name), Shared(value)) && t[1..] == SharedMembers(ms[1..]);
      assert t == [t[0]] + t[1..] && ms == [ms[0]] + ms[1..];
      assert forall i :: 1 <= i < |ms| ==> ms[i] == ms[1..][i - 1];
    }
  }

  lemma {:induction false} SharedItemsSame(xs: seq<GenericValue>)
    ensures SharedItems(xs) == xs <==> forall i :: 0 <= i < |xs| ==> OwnsNothing(xs[i])
    decreases xs, 0
  {
    hide OwnsNothing, Shared;
    if xs != [] {
      SharedIsSame(xs[0]);
      SharedItemsSame(xs[1..]);
      var t := SharedItems(xs);
      assert t[0] == Shared(xs[0]) && t[1..] == SharedItems(xs[1..]);
      assert t == [t[0]] + t[1..] && xs == [xs[0]] + xs[1..];
      assert forall i :: 1 <= i < |xs| ==> xs[i] == xs[1..][i - 1];
    }
  }

  /** A rebuilt value owns nothing. */
  lemma {:induction false} RebuiltOwnsNothing(v: GenericValue)
    requires Made(v)
    ensures OwnsNothing(Rebuilt(v))
    decreases v, 1
  {
    match v
    case Object(ms) => RebuiltMembersOwnNothing(ms);
    case Array(xs) => RebuiltItemsOwnNothing(xs);
    case _ =>
  }

  lemma {:induction false} RebuiltMembersOwnNothing(ms: seq<Pair>)
    requires forall i :: 0 <= i < |ms| ==> IsString(ms[i].name) && Made(ms[i].value)
    ensures OwnsNothing(Object(RebuiltMembers(ms)))
    decreases ms, 0
  {
    if ms != [] {
      var Pair(name, value) := ms[0];
      assert value < ms[0];
      hide Rebuilt, Made;
      RebuiltOwnsNothing(value);
      RebuiltMembersOwnNothing(ms[1..]);
    }
  }

  lemma {:induction false} RebuiltItemsOwnNothing(xs: seq<GenericValue>)
    requires forall i :: 0 <= i < |xs| ==> Made(xs[i])
    ensures OwnsNothing(Array(RebuiltItems(xs)))
    decreases xs, 0
  {
    hide Rebuilt, Made;
    if xs != [] {
      RebuiltOwnsNothing(xs[0]);
      RebuiltItemsOwnNothing(xs[1..]);
    }
  }

  /** A value whose calls push it again, strings shared. */
  ghost predicate Clones(v: GenericValue) { Made(v) && !HoldsTypedString(v) && NarrowlyMade(v) }

  /** Running a value's calls on any stack: pushes the value with its strings shared if and only if it holds no
      string from a type and is narrowly made; pushes exactly the value, flags and all, if and only if besides
      it owns no string; and fails an assertion if and only if it holds a string from a type. */
  lemma AcceptRebuilds(v: GenericValue, stack: seq<GenericValue>)
    requires Made(v)
    ensures PerformAll(stack, Accept(v)) == Some(stack + [Shared(v)]) <==> Clones(v)
    ensures PerformAll(stack, Accept(v)) == Some(stack + [v]) <==> Clones(v) && OwnsNothing(v)
    ensures PerformAll(stack, Accept(v)) == None <==> HoldsTypedString(v)
  {
    hide PerformAll, Accept, Made, Rebuilt, NarrowlyMade, HoldsTypedString, Shared, OwnsNothing;
    AcceptPushes(v, stack);
    RebuiltIsShared(v);
    SharedIsSame(v);
    RebuiltOwnsNothing(v);
    Apart(stack, v, Rebuilt(v));
    Apart(stack, Shared(v), Rebuilt(v));
  }

  lemma Apart(stack: seq<GenericValue>, v: GenericValue, w: GenericValue)
    ensures stack + [v] == stack + [w] <==> v == w
  {
    assert (stack + [v])[|stack|] == v && (stack + [w])[|stack|] == w;
  }

  /** 3000000000 as an `int64_t` comes back without the flag that says it fits one. */
  lemma WideUintLosesFlag(stack: seq<GenericValue>)
    ensures Made(OfInt64(3_000_000_000))
    ensures PerformAll(stack, Accept(OfInt64(3_000_000_000))) == Some(stack + [OfUint(3_000_000_000)])
    ensures OfUint(3_000_000_000) != OfInt64(3_000_000_000)
  {
    AcceptPushes(OfInt64(3_000_000_000), stack);
  }

  /** The number zero made from its type comes back as null. */
  lemma TypedNumberIsLost(stack: seq<GenericValue>)
    ensures Made(TypedNumber) && PerformAll(stack, Accept(TypedNumber)) == Some(stack + [Null])
  {
    AcceptPushes(TypedNumber, stack);
  }

  /** The empty string made from its type stops at an assertion, even as the name of a member. */
  lemma TypedStringFails(v: GenericValue, stack: seq<GenericValue>)
    requires v == TypedString || v == Object([Pair(TypedString, Null)])
    ensures Made(v) && PerformAll(stack, Accept(v)) == None
  {
    if v.Object? { assert v.members[0].name == TypedString; }
    AcceptPushes(v, stack);
  }
}
