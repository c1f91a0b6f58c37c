/** The values `string_to_json` can return, and with them exactly which values survive printing and parsing. */
module FixedPoint {
  import opened Strings
  import opened JsonValue
  import opened Render
  import opened TreeBuilder
  import opened Parsing
  import opened RoundTrip
  import E = Events
  import RS = ReaderSpec
  import Sound = ReaderSound

  /** A big number that reads back as itself: one lexeme without a float mark, outside the int64 window. */
  predicate StableBig(n: Numeral) {
    NumberChars(n) && !Pointed(n) && !InWindow(n)
  }

  /** The shape of everything the builder makes: sorted maps with non-empty keys, stable big numbers, no grafts. */
  ghost predicate Image(v: Json) {
    match v
    case Big(n) => StableBig(n)
    case Map(es) => SortedKeys(es) && forall i :: 0 <= i < |es| ==> es[i].key != "" && Image(es[i].value)
    case List(xs) => forall i :: 0 <= i < |xs| ==> Image(xs[i])
    case Graft(_) => false
    case _ => true
  }

  // ---- every step of the builder keeps the shape ----

  /** The builder's contents have the shape; once the root is open it is a container. */
  ghost predicate Shaped(st: State) {
    match st
    case Threw => true
    case Finished(root) => Image(root) && Container(root)
    case Building(frames, curKey, first) =>
      frames != [] && (forall i :: 0 <= i < |frames| ==> Image(frames[i].value)) &&
      (!first ==> Container(frames[0].value)) && (first ==> |frames| == 1)
  }

  predicate Lexical(e: E.Event) {
    e.BigNum? ==> NumberChars(e.lexeme)
  }

  lemma InsertImage(es: seq<Entry>, k: string, v: Json)
    requires Image(Map(es)) && k != "" && Image(v)
    ensures Image(Map(Insert(es, k, v)))
    ensures Has(es, k) ==> Image(Get(es, k))
  {
    InsertSorted(es, k, v);
  }

  lemma ReplaceImage(es: seq<Entry>, k: string, v: Json)
    requires Image(Map(es)) && Image(v)
    ensures Image(Map(Replace(es, k, v)))
  {
    var fs := Replace(es, k, v);
    var i := LowerBound(es, k);
    forall a, b | 0 <= a < b < |fs| ensures Less(fs[a].key, fs[b].key) {
      assert fs[a].key == es[a].key && fs[b].key == es[b].key;
    }
  }

  /** Storing a value through `advance`. */
  lemma AdvanceShaped(st: State, val: Json)
    requires Shaped(st) && st.Building? && Image(val)
    ensures match Advance(st.frames, st.curKey, val)
      case BadCast => true
      case Advanced(frames, _, value) =>
        |frames| == |st.frames| && Image(value) && Container(frames[0].value) &&
        forall i :: 0 <= i < |frames| ==> Image(frames[i].value)
  {
    hide Insert, Get, Has, SortedKeys;
    var tip := st.frames[|st.frames| - 1].value;
    if st.curKey != "" && tip.Map? {
      InsertImage(tip.entries, st.curKey, val);
    }
  }

  lemma CloseShaped(st: State)
    requires Shaped(st) && st.Building? && !st.first
    ensures Shaped(Close(st))
  {
    hide Replace, SortedKeys;
    var n := |st.frames| - 1;
    if n > 0 {
      var parent, slot, child := st.frames[n - 1].value, st.frames[n].slot, st.frames[n].value;
      if slot.Key? && parent.Map? {
        ReplaceImage(parent.entries, slot.key, child);
      }
      assert Image(WriteBack(parent, slot, child)) && (Container(parent) ==> Container(WriteBack(parent, slot, child)));
    }
  }

  lemma NumberImage(libc: Libc, lexeme: string)
    requires NumberChars(lexeme)
    ensures match NumberOf(libc, lexeme) case Some(v) => Image(v) case None => true
  {
  }

  /** The root stays unopened only until its opening event; a scalar or a closing event before it throws or
      ends the run, and the reader sends neither. */
  lemma StepShaped(libc: Libc, st: State, e: E.Event)
    requires Shaped(st) && Lexical(e)
    requires st.Building? && st.first ==> e.StartObject? || e.StartArray?
    ensures Shaped(Step(libc, st, e))
    ensures Step(libc, st, e).Building? ==> !Step(libc, st, e).first
  {
    hide NumberOf, Advance, Close, Image;
    EmptyContainers();
    if st.Building? {
      match e
      case Null => AdvanceShaped(st, Null);
      case Bool(b) => AdvanceShaped(st, Bool(b));
      case BigNum(lexeme) =>
        NumberImage(libc, lexeme);
        var v := NumberOf(libc, lexeme);
        if v.Some? { AdvanceShaped(st, v.value); }
      case String(s) => AdvanceShaped(st, Str(s));
      case StartObject => AdvanceShaped(st, Map([]));
      case StartArray => AdvanceShaped(st, List([]));
      case EndObject(_) => CloseShaped(st); CloseKeepsFirst(st);
      case EndArray(_) => CloseShaped(st); CloseKeepsFirst(st);
      case _ =>
    }
  }

  lemma EmptyContainers()
    ensures Image(Null) && Image(Map([])) && Image(List([]))
    ensures forall b :: Image(Bool(b))
    ensures forall s :: Image(Str(s))
  {
  }

  lemma CloseKeepsFirst(st: State)
    requires st.Building? && st.frames != []
    ensures Close(st).Building? ==> Close(st).first == st.first
  {
  }

  lemma {:induction false} RunShaped(libc: Libc, st: State, log: seq<E.Event>)
    requires Shaped(st) && forall i :: 0 <= i < |log| ==> Lexical(log[i])
    requires st.Building? && st.first ==> log == [] || log[0].StartObject? || log[0].StartArray?
    ensures Shaped(Run(libc, st, log))
    decreases |log|
  {
    hide Step, Shaped;
    if log != [] {
      StepShaped(libc, st, log[0]);
      RunShaped(libc, Step(libc, st, log[0]), log[1..]);
    }
  }

  // ---- the events of a tree open and close the builder's containers in pairs ----

  /** Threw, or building with `n` open containers. */
  predicate AtDepth(st: State, n: nat) {
    st.Threw? || (st.Building? && !st.first && |st.frames| == n)
  }

  lemma {:induction false} TreeDepth(libc: Libc, st: State, t: E.Tree, n: nat)
    requires AtDepth(st, n) && n > 0 && Sound.FromReader(RS.Lexemes, t)
    ensures AtDepth(Run(libc, st, E.TreeEvents(t)), n)
    decreases t, 1
  {
    hide Run;
    match t
    case Leaf(e) => LeafDepth(libc, st, e, n);
    case Obj(ms) =>
      OpenDepth(libc, st, E.StartObject, n);
      MembersDepth(libc, Step(libc, st, E.StartObject), ms, n + 1);
      Bracketed(libc, st, E.StartObject, E.MemberEvents(ms), E.EndObject(|ms|));
      CloseDepth(libc, Run(libc, Step(libc, st, E.StartObject), E.MemberEvents(ms)), E.EndObject(|ms|), n);
    case Arr(xs) =>
      OpenDepth(libc, st, E.StartArray, n);
      ItemsDepth(libc, Step(libc, st, E.StartArray), xs, n + 1);
      Bracketed(libc, st, E.StartArray, E.ItemEvents(xs), E.EndArray(|xs|));
      CloseDepth(libc, Run(libc, Step(libc, st, E.StartArray), E.ItemEvents(xs)), E.EndArray(|xs|), n);
  }

  lemma LeafDepth(libc: Libc, st: State, e: E.Event, n: nat)
    requires AtDepth(st, n) && n > 0 && Sound.Delivered(RS.Lexemes, e)
    ensures AtDepth(Run(libc, st, [e]), n)
  {
    hide NumberOf, Insert, Get, Has, Run;
    RunOne(libc, st, e);
  }

  lemma OpenDepth(libc: Libc, st: State, e: E.Event, n: nat)
    requires AtDepth(st, n) && n > 0 && (e.StartObject? || e.StartArray?)
    ensures AtDepth(Step(libc, st, e), n + 1)
  {
    hide Insert, Get, Has;
  }

  lemma CloseDepth(libc: Libc, st: State, e: E.Event, n: nat)
    requires AtDepth(st, n + 1) && n > 0 && (e.EndObject? || e.EndArray?)
    ensures AtDepth(Step(libc, st, e), n)
  {
    hide Replace;
  }

  lemma {:induction false} ItemsDepth(libc: Libc, st: State, xs: seq<E.Tree>, n: nat)
    requires AtDepth(st, n) && n > 0 && forall i :: 0 <= i < |xs| ==> Sound.FromReader(RS.Lexemes, xs[i])
    ensures AtDepth(Run(libc, st, E.ItemEvents(xs)), n)
    decreases xs, 0
  {
    if xs != [] {
      hide AtDepth, Run, Sound.FromReader;
      TreeDepth(libc, st, xs[0], n);
      ItemsDepth(libc, Run(libc, st, E.TreeEvents(xs[0])), xs[1..], n);
      RunConcat(libc, st, E.TreeEvents(xs[0]), E.ItemEvents(xs[1..]));
    }
  }

  lemma {:induction false} MembersDepth(libc: Libc, st: State, ms: seq<E.Member>, n: nat)
    requires AtDepth(st, n) && n > 0 && forall i :: 0 <= i < |ms| ==> Sound.FromReader(RS.Lexemes, ms[i].value)
    ensures AtDepth(Run(libc, st, E.MemberEvents(ms)), n)
    decreases ms, 0
  {
    if ms != [] {
      var key, value := [E.String(ms[0].name)], E.TreeEvents(ms[0].value);
      LeafDepth(libc, st, E.String(ms[0].name), n);
      hide AtDepth, Run, Sound.FromReader;
      var st1 := Run(libc, st, key);
      TreeDepth(libc, st1, ms[0].value, n);
      MembersDepth(libc, Run(libc, st1, value), ms[1..], n);
      RunConcat(libc, st, key + value, E.MemberEvents(ms[1..]));
      RunConcat(libc, st, key, value);
    }
  }

  /** A container's events, from the start, end with the root closed or an exception. */
  lemma RootDepth(libc: Libc, t: E.Tree)
    requires E.IsContainer(t) && Sound.FromReader(RS.Lexemes, t)
    ensures var st := Run(libc, INITIAL, E.TreeEvents(t)); st.Threw? || st.Finished?
  {
    hide Run;
    match t
    case Obj(ms) =>
      var st := Step(libc, INITIAL, E.StartObject);
      MembersDepth(libc, st, ms, 1);
      Bracketed(libc, INITIAL, E.StartObject, E.MemberEvents(ms), E.EndObject(|ms|));
      RootClosed(libc, Run(libc, st, E.MemberEvents(ms)), E.EndObject(|ms|));
    case Arr(xs) =>
      var st := Step(libc, INITIAL, E.StartArray);
      ItemsDepth(libc, st, xs, 1);
      Bracketed(libc, INITIAL, E.StartArray, E.ItemEvents(xs), E.EndArray(|xs|));
      RootClosed(libc, Run(libc, st, E.ItemEvents(xs)), E.EndArray(|xs|));
  }

  lemma RootClosed(libc: Libc, st: State, e: E.Event)
    requires AtDepth(st, 1) && (e.EndObject? || e.EndArray?)
    ensures Step(libc, st, e).Threw? || Step(libc, st, e).Finished?
  {
  }

  lemma {:induction false} TreeLexical(t: E.Tree)
    requires Sound.FromReader(RS.Lexemes, t)
    ensures forall e :: e in E.TreeEvents(t) ==> Lexical(e)
    decreases t, 1
  {
    match t
    case Leaf(e) =>
    case Obj(ms) => MembersLexical(ms);
    case Arr(xs) => ItemsLexical(xs);
  }

  lemma {:induction false} ItemsLexical(xs: seq<E.Tree>)
    requires forall i :: 0 <= i < |xs| ==> Sound.FromReader(RS.Lexemes, xs[i])
    ensures forall e :: e in E.ItemEvents(xs) ==> Lexical(e)
    decreases xs, 0
  {
    if xs != [] {
      TreeLexical(xs[0]);
      ItemsLexical(xs[1..]);
    }
  }

  lemma {:induction false} MembersLexical(ms: seq<E.Member>)
    requires forall i :: 0 <= i < |ms| ==> Sound.FromReader(RS.Lexemes, ms[i].value)
    ensures forall e :: e in E.MemberEvents(ms) ==> Lexical(e)
    decreases ms, 0
  {
    if ms != [] {
      TreeLexical(ms[0].value);
      MembersLexical(ms[1..]);
    }
  }

  /** Whatever the text, a value that `string_to_json` returns has the shape, and its root was closed. */
  lemma ParseImage(libc: Libc, text: string)
    requires StringToJson(libc, text).Loaded?
    ensures var v := StringToJson(libc, text).v; Image(v) && Container(v)
    ensures Run(libc, INITIAL, RS.ParseText(RS.Lexemes, false, text).log) == Finished(StringToJson(libc, text).v)
  {
    hide RS.ParseText, Run, Sound.FromReader;
    var log := RS.ParseText(RS.Lexemes, false, text).log;
    var t := Sound.ParseIsSound(RS.Lexemes, false, text);
    RootDepth(libc, t);
    TreeLexical(t);
    FirstEvent(t);
    assert Shaped(INITIAL);
    RunShaped(libc, INITIAL, log);
  }

  lemma FirstEvent(t: E.Tree)
    requires E.IsContainer(t)
    ensures E.TreeEvents(t) != [] && (E.TreeEvents(t)[0].StartObject? || E.TreeEvents(t)[0].StartArray?)
  {
  }

  // ---- exactly which values survive ----

  /** `"%.20g"` writes every finite double as one number lexeme. */
  ghost predicate ProperLibc(libc: Libc) {
    forall r: real :: NumberText(libc.show(r))
  }

  /** Every double is written with a point or an exponent and read back as itself. */
  ghost predicate DoublesSurvive(libc: Libc, v: Json) {
    match v
    case Double(r) => Pointed(libc.show(r)) && libc.scan(libc.show(r)) == r
    case Map(es) => forall i :: 0 <= i < |es| ==> DoublesSurvive(libc, es[i].value)
    case List(xs) => forall i :: 0 <= i < |xs| ==> DoublesSurvive(libc, xs[i])
    case Graft(t) => DoublesSurvive(libc, t)
    case _ => true
  }

  lemma {:induction false} ImageIsStorable(libc: Libc, v: Json)
    requires ProperLibc(libc) && Image(v)
    ensures Storable(libc, v)
    decreases v
  {
    match v
    case Map(es) =>
      forall i | 0 <= i < |es| ensures Storable(libc, es[i].value) { ImageIsStorable(libc, es[i].value); }
    case List(xs) =>
      forall i | 0 <= i < |xs| ensures Storable(libc, xs[i]) { ImageIsStorable(libc, xs[i]); }
    case _ =>
  }

  /** On values of that shape, the text loses nothing exactly when the doubles survive. */
  lemma {:induction false} NormFixesImage(libc: Libc, v: Json)
    requires Image(v)
    ensures Norm(libc, v) == v <==> DoublesSurvive(libc, v)
    decreases v, 1, 0
  {
    match v
    case Map(es) =>
      NormFixesEntries(libc, es, 0);
      assert es[0..] == es;
    case List(xs) =>
      NormFixesItems(libc, xs, 0);
      assert xs[0..] == xs;
    case _ =>
  }

  lemma {:induction false} NormFixesItems(libc: Libc, xs: seq<Json>, i: nat)
    requires i <= |xs| && forall j :: 0 <= j < |xs| ==> Image(xs[j])
    ensures NormItems(libc, xs, i) == xs[i..] <==> forall j :: i <= j < |xs| ==> DoublesSurvive(libc, xs[j])
    decreases xs, 0, |xs| - i
  {
    hide Norm, DoublesSurvive, Image;
    if i < |xs| {
      NormFixesImage(libc, xs[i]);
      NormFixesItems(libc, xs, i + 1);
      assert xs[i..] == [xs[i]] + xs[i + 1..];
      assert NormItems(libc, xs, i)[1..] == NormItems(libc, xs, i + 1) && xs[i..][1..] == xs[i + 1..];
    }
  }

  lemma {:induction false} NormFixesEntries(libc: Libc, es: seq<Entry>, i: nat)
    requires i <= |es| && forall j :: 0 <= j < |es| ==> Image(es[j].value)
    ensures NormEntries(libc, es, i) == es[i..] <==> forall j :: i <= j < |es| ==> DoublesSurvive(libc, es[j].value)
    decreases es, 0, |es| - i
  {
    hide Norm, DoublesSurvive, Image;
    if i < |es| {
      NormFixesImage(libc, es[i].value);
      NormFixesEntries(libc, es, i + 1);
      assert es[i..] == [es[i]] + es[i + 1..];
      assert NormEntries(libc, es, i)[1..] == NormEntries(libc, es, i + 1) && es[i..][1..] == es[i + 1..];
    }
  }

  /** A value whose norm has the shape had no empty key. */
  lemma {:induction false} NormNamed(libc: Libc, v: Json)
    requires Image(Norm(libc, v))
    ensures NamedKeys(v)
    decreases v
  {
    match v
    case Map(es) =>
      forall i | 0 <= i < |es| ensures es[i].key != "" && NamedKeys(es[i].value) {
        NormEntryAt(libc, es, 0, i);
        NormNamed(libc, es[i].value);
      }
    case List(xs) =>
      forall i | 0 <= i < |xs| ensures NamedKeys(xs[i]) {
        NormItemAt(libc, xs, 0, i);
        NormNamed(libc, xs[i]);
      }
    case Graft(t) => NormNamed(libc, t);
    case _ =>
  }

  lemma {:induction false} NormItemAt(libc: Libc, xs: seq<Json>, i: nat, j: nat)
    requires i <= j < |xs|
    ensures NormItems(libc, xs, i)[j - i] == Norm(libc, xs[j])
    decreases j - i
  {
    hide Norm;
    if i < j { NormItemAt(libc, xs, i + 1, j); }
  }

  lemma {:induction false} NormEntryAt(libc: Libc, es: seq<Entry>, i: nat, j: nat)
    requires i <= j < |es|
    ensures NormEntries(libc, es, i)[j - i] == Entry(es[j].key, Norm(libc, es[j].value))
    decreases j - i
  {
    hide Norm;
    if i < j { NormEntryAt(libc, es, i + 1, j); }
  }

  /** Parsing undoes printing for exactly these values: no graft, no empty key, every big number a lexeme
      without a float mark outside the int64 window, every double one that survives the C library. */
  lemma RoundTripExactly(libc: Libc, v: Json, pretty: bool)
    requires ProperLibc(libc) && WellFormed(v) && Container(Ungraft(v))
    ensures StringToJson(libc, JsonToString(libc, v, pretty)) == Loaded(v) <==> Image(v) && DoublesSurvive(libc, v)
  {
    hide StringToJson, JsonToString, Storable, Norm;
    var text := JsonToString(libc, v, pretty);
    if StringToJson(libc, text) == Loaded(v) { ParseImage(libc, text); }
    if Image(v) {
      ImageIsStorable(libc, v);
      ParsePrint(libc, v, pretty);
      NormFixesImage(libc, v);
    }
  }

  /** Whatever a text parses to, printing it and parsing again gives the same value, when its doubles survive. */
  lemma ReparseIsStable(libc: Libc, text: string, pretty: bool)
    requires ProperLibc(libc) && StringToJson(libc, text).Loaded?
    requires DoublesSurvive(libc, StringToJson(libc, text).v)
    ensures StringToJson(libc, JsonToString(libc, StringToJson(libc, text).v, pretty)) == StringToJson(libc, text)
  {
    hide JsonToString, Storable, Norm;
    var v := StringToJson(libc, text).v;
    ParseImage(libc, text);
    ImageIsStorable(libc, v);
    ParsePrint(libc, v, pretty);
    NormFixesImage(libc, v);
  }

  /** A map with an empty key is printed but never read back: the builder takes an empty pending key for none. */
  lemma EmptyKeyIsLost(libc: Libc, pretty: bool)
    ensures var v := Map([Entry("", Null)]);
      WellFormed(v) && StringToJson(libc, JsonToString(libc, v, pretty)) != Loaded(v)
  {
    var v := Map([Entry("", Null)]);
    assert v.entries[0].key == "";
    assert !Image(v);
    hide StringToJson, JsonToString;
    var text := JsonToString(libc, v, pretty);
    if StringToJson(libc, text).Loaded? { ParseImage(libc, text); }
  }

  /** Pretty printing keeps the meaning: both writers' texts parse to the same value, big numbers included. */
  lemma PrettyMeansTheSame(libc: Libc, v: Json)
    requires Printable(libc, v) && Container(Ungraft(v))
    ensures StringToJson(libc, JsonToString(libc, v, true)) == StringToJson(libc, JsonToString(libc, v, false))
    ensures RS.ParseText(RS.Lexemes, false, JsonToString(libc, v, true))
      == RS.ParseText(RS.Lexemes, false, JsonToString(libc, v, false))
  {
    hide RS.ParseText, Run, Text;
    TextInverse(libc, PRETTY, v, false);
    TextInverse(libc, Compact, v, false);
  }
}
