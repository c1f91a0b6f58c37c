/** `rapid_read_handler`: the machine that turns reader events into a `json_value`. */
module TreeBuilder {
  import opened Strings
  import opened JsonValue
  import E = Events

  /** Where an open container hangs in the one below it: what a pointer in `values_` points at. */
  datatype Slot = Root | Key(key: string) | Nth(index: nat)

  /** An open container: its current contents and its place. */
  datatype Frame = Frame(value: Json, slot: Slot)

  datatype State =
    | Building(frames: seq<Frame>, curKey: string, first: bool)
    | Finished(root: Json)
    | Threw

  /** `values_` holds the address of the result, still nil. */
  const INITIAL: State := Building([Frame(Null, Root)], "", true)

  // ---- key-sorted maps ----

  /** Index of the first entry whose key is not below `k`. */
  function LowerBound(es: seq<Entry>, k: string): (i: nat)
    ensures i <= |es|
    ensures forall j :: 0 <= j < i ==> Less(es[j].key, k)
    ensures i < |es| ==> !Less(es[i].key, k)
    decreases |es|
  {
    if es == [] || !Less(es[0].key, k) then 0 else 1 + LowerBound(es[1..], k)
  }

  predicate Has(es: seq<Entry>, k: string) {
    var i := LowerBound(es, k);
    i < |es| && es[i].key == k
  }

  function Get(es: seq<Entry>, k: string): Json
    requires Has(es, k)
  {
    es[LowerBound(es, k)].value
  }

  /** `std::map::insert`: an existing entry is kept. */
  function Insert(es: seq<Entry>, k: string, v: Json): seq<Entry> {
    var i := LowerBound(es, k);
    if Has(es, k) then es else es[..i] + [Entry(k, v)] + es[i..]
  }

  /** Writing through a pointer to the value of an existing entry. */
  function Replace(es: seq<Entry>, k: string, v: Json): seq<Entry> {
    if Has(es, k) then es[LowerBound(es, k) := Entry(k, v)] else es
  }

  // ---- the machine ----

  /** What `advance` returns: the machine and the address of the stored value with what it holds. */
  datatype Advanced = Advanced(frames: seq<Frame>, slot: Slot, value: Json) | BadCast

  /** `advance`: into the map under the pending key, or onto the list; any other tip throws. */
  function Advance(frames: seq<Frame>, curKey: string, val: Json): Advanced
    requires frames != []
  {
    var n := |frames| - 1;
    var tip := frames[n].value;
    if curKey != "" then
      if tip.Map? then
        var es := Insert(tip.entries, curKey, val);
        Advanced(frames[n := frames[n].(value := Map(es))], Key(curKey),
          if Has(tip.entries, curKey) then Get(tip.entries, curKey) else val)
      else BadCast
    else if tip.List? then
      Advanced(frames[n := frames[n].(value := List(tip.items + [val]))], Nth(|tip.items|), val)
    else BadCast
  }

  function Scalar(st: State, val: Json): State
    requires st.Building? && st.frames != []
  {
    match Advance(st.frames, st.curKey, val)
    case BadCast => Threw
    case Advanced(frames, _, _) => Building(frames, "", st.first)
  }

  function Open(st: State, empty: Json): State
    requires st.Building? && st.frames != []
  {
    if st.first then
      var n := |st.frames| - 1;
      Building(st.frames[n := st.frames[n].(value := empty)], st.curKey, false)
    else
      match Advance(st.frames, st.curKey, empty)
      case BadCast => Threw
      case Advanced(frames, slot, value) => Building(frames + [Frame(value, slot)], "", false)
  }

  /** A child's final contents, seen through its parent. */
  function WriteBack(parent: Json, slot: Slot, child: Json): Json {
    match slot
    case Root => parent
    case Key(k) => if parent.Map? then Map(Replace(parent.entries, k, child)) else parent
    case Nth(i) => if parent.List? && i < |parent.items| then List(parent.items[i := child]) else parent
  }

  /** `values_.pop_back()`. */
  function Close(st: State): State
    requires st.Building? && st.frames != []
  {
    var n := |st.frames| - 1;
    if n == 0 then Finished(st.frames[0].value)
    else
      var parent := st.frames[n - 1];
      Building(st.frames[..n - 1] + [parent.(value := WriteBack(parent.value, st.frames[n].slot, st.frames[n].value))],
               st.curKey, st.first)
  }

  predicate HasFloatMark(s: string) {
    exists i :: 0 <= i < |s| && (s[i] == 'e' || s[i] == 'E' || s[i] == '.')
  }

  /** A point or an exponent. */
  predicate Pointed(lexeme: string) {
    '.' in lexeme || 'e' in lexeme || 'E' in lexeme
  }

  lemma MarkExactly(s: string)
    ensures HasFloatMark(s) <==> Pointed(s)
  {
    if '.' in s { var i :| 0 <= i < |s| && s[i] == '.'; }
    if 'e' in s { var i :| 0 <= i < |s| && s[i] == 'e'; }
    if 'E' in s { var i :| 0 <= i < |s| && s[i] == 'E'; }
  }

  /** The value of a number lexeme; the empty lexeme makes `at(0)` throw. */
  function NumberOf(libc: Libc, lexeme: string): Option<Json> {
    if HasFloatMark(lexeme) then Some(Double(libc.scan(lexeme)))
    else if lexeme == "" then None
    else Some(NormalizeInt(lexeme))
  }

  /** One event. The reader sends nothing after the root is closed, and this handler has no method for
      the typed numbers of the other reader variant. */
  function Step(libc: Libc, st: State, e: E.Event): State {
    if !st.Building? || st.frames == [] then Threw
    else match e
      case Null => Scalar(st, Null)
      case Bool(b) => Scalar(st, Bool(b))
      case BigNum(lexeme) => (match NumberOf(libc, lexeme) case None => Threw case Some(v) => Scalar(st, v))
      case String(s) =>
        if st.curKey == "" && st.frames[|st.frames| - 1].value.Map? then st.(curKey := s) else Scalar(st, Str(s))
      case StartObject => Open(st, Map([]))
      case StartArray => Open(st, List([]))
      case EndObject(_) => Close(st)
      case EndArray(_) => Close(st)
      case _ => Threw
  }

  function Run(libc: Libc, st: State, log: seq<E.Event>): State
    decreases |log|
  {
    if log == [] then st else Run(libc, Step(libc, st, log[0]), log[1..])
  }

  lemma {:induction false} RunConcat(libc: Libc, st: State, a: seq<E.Event>, b: seq<E.Event>)
    ensures Run(libc, st, a + b) == Run(libc, Run(libc, st, a), b)
    decreases |a|
  {
    if a == [] {
      assert a + b == b;
    } else {
      RunConcat(libc, Step(libc, st, a[0]), a[1..], b);
      assert (a + b)[1..] == a[1..] + b;
    }
  }

  lemma {:induction false} RunThrew(libc: Libc, log: seq<E.Event>)
    ensures Run(libc, Threw, log) == Threw
    decreases |log|
  {
    if log != [] { RunThrew(libc, log[1..]); }
  }

  // ---- what a tree's events build ----

  /** The value a tree spells, its members filed in key order. */
  function JsonOf(libc: Libc, t: E.Tree): Json
    decreases t, 1
  {
    match t
    case Leaf(e) =>
      (match e
       case Bool(b) => Bool(b)
       case String(s) => Str(s)
       case BigNum(lexeme) => (match NumberOf(libc, lexeme) case Some(v) => v case None => Null)
       case _ => Null)
    case Obj(ms) => Map(EntriesOf(libc, ms, []))
    case Arr(xs) => List(ItemsOf(libc, xs))
  }

  function ItemsOf(libc: Libc, xs: seq<E.Tree>): (vs: seq<Json>)
    ensures |vs| == |xs|
    decreases xs, 0
  {
    if xs == [] then [] else [JsonOf(libc, xs[0])] + ItemsOf(libc, xs[1..])
  }

  function EntriesOf(libc: Libc, ms: seq<E.Member>, es: seq<Entry>): seq<Entry>
    decreases ms, 0
  {
    if ms == [] then es else EntriesOf(libc, ms[1..], Insert(es, ms[0].name, JsonOf(libc, ms[0].value)))
  }

  /** Trees the builder takes without throwing: named members with distinct names, non-empty lexemes. */
  ghost predicate Clean(t: E.Tree) {
    match t
    case Leaf(e) => e.Null? || e.Bool? || e.String? || (e.BigNum? && e.lexeme != "")
    case Obj(ms) =>
      (forall i :: 0 <= i < |ms| ==> ms[i].name != "" && Clean(ms[i].value)) &&
      (forall i, j :: 0 <= i < j < |ms| ==> ms[i].name != ms[j].name)
    case Arr(xs) => forall i :: 0 <= i < |xs| ==> Clean(xs[i])
  }

  /** The tip can take a value: a list, or a map that waits for the value of a new key. */
  predicate Ready(st: State) {
    st.Building? && !st.first && st.frames != [] &&
    var tip := st.frames[|st.frames| - 1].value;
    if st.curKey == "" then tip.List? else tip.Map? && SortedKeys(tip.entries) && !Has(tip.entries, st.curKey)
  }

  // Lookups in sorted maps.

  lemma LowerBoundUnique(es: seq<Entry>, k: string, i: nat)
    requires i <= |es|
    requires forall j :: 0 <= j < i ==> Less(es[j].key, k)
    requires i < |es| ==> !Less(es[i].key, k)
    ensures LowerBound(es, k) == i
  {
  }

  lemma InsertedKey(es: seq<Entry>, k: string, v: Json)
    requires !Has(es, k)
    ensures var fs := Insert(es, k, v); var i := LowerBound(es, k);
      LowerBound(fs, k) == i && Has(fs, k) && fs[i] == Entry(k, v)
    ensures forall w :: Replace(Insert(es, k, v), k, w) == Insert(es, k, w)
  {
    var i := LowerBound(es, k);
    var fs := Insert(es, k, v);
    LessTrichotomy(k, k);
    hide Less, LowerBound;
    assert forall j :: 0 <= j < i ==> fs[j] == es[j];
    LowerBoundUnique(fs, k, i);
    forall w ensures Replace(fs, k, w) == Insert(es, k, w) {
      assert fs[i := Entry(k, w)] == es[..i] + [Entry(k, w)] + es[i..];
    }
  }

  lemma InsertSorted(es: seq<Entry>, k: string, v: Json)
    requires SortedKeys(es)
    ensures SortedKeys(Insert(es, k, v))
  {
    var i := LowerBound(es, k);
    if !Has(es, k) {
      var fs := es[..i] + [Entry(k, v)] + es[i..];
      forall a, b | 0 <= a < b < |fs| ensures Less(fs[a].key, fs[b].key) {
        if a == i {
          AboveLowerBound(es, k, b - 1);
        } else if a < i && b > i {
          assert es[b - 1] == fs[b];
        }
      }
    }
  }

  /** In a sorted map without `k`, the entries from the lower bound on are above `k`. */
  lemma AboveLowerBound(es: seq<Entry>, k: string, j: nat)
    requires SortedKeys(es) && !Has(es, k) && LowerBound(es, k) <= j < |es|
    ensures Less(k, es[j].key)
  {
    var i := LowerBound(es, k);
    LessTrichotomy(es[i].key, k);
    if i < j { LessTransitive(k, es[i].key, es[j].key); }
  }

  lemma HasInsert(es: seq<Entry>, k: string, v: Json, l: string)
    requires SortedKeys(es) && k != l && !Has(es, l)
    ensures !Has(Insert(es, k, v), l)
  {
    var fs := Insert(es, k, v);
    InsertSorted(es, k, v);
    if Has(fs, l) {
      var m := LowerBound(fs, l);
      var i := LowerBound(es, k);
      if !Has(es, k) {
        var j := if m < i then m else m - 1;
        assert fs[m] == es[j];
        KeyFound(es, l, j);
      }
    }
  }

  lemma KeyFound(es: seq<Entry>, k: string, j: nat)
    requires SortedKeys(es) && j < |es| && es[j].key == k
    ensures LowerBound(es, k) == j && Has(es, k)
  {
    LessTrichotomy(k, k);
    LowerBoundUnique(es, k, j);
  }

  /** The machine with other contents in its innermost container. */
  function TopWith(st: State, v: Json): State
    requires st.Building? && st.frames != []
  {
    var n := |st.frames| - 1;
    st.(frames := st.frames[n := st.frames[n].(value := v)])
  }

  /** Opening a container and closing it with contents `v` is delivering `v`. */
  lemma OpenClose(st: State, empty: Json, v: Json)
    requires Ready(st)
    ensures Open(st, empty).Building? && Open(st, empty).frames != []
    ensures Close(TopWith(Open(st, empty), v)) == Scalar(st, v)
    ensures var st1 := Open(st, empty); st1.frames[|st1.frames| - 1].value == empty && st1.curKey == "" && !st1.first
  {
    if st.curKey == "" {
      OpenCloseItem(st, empty, v);
    } else {
      OpenCloseMember(st, empty, v);
    }
  }

  lemma OpenCloseItem(st: State, empty: Json, v: Json)
    requires Ready(st) && st.curKey == ""
    ensures Open(st, empty).Building? && Open(st, empty).frames != []
    ensures Close(TopWith(Open(st, empty), v)) == Scalar(st, v)
    ensures var st1 := Open(st, empty); st1.frames[|st1.frames| - 1].value == empty && st1.curKey == "" && !st1.first
  {
    var n := |st.frames| - 1;
    var tip := st.frames[n].value;
    var st1 := Open(st, empty);
    assert st1.frames[n].value == List(tip.items + [empty]);
    assert (tip.items + [empty])[|tip.items| := v] == tip.items + [v];
    hide SortedKeys, Insert, Replace, Has;
    assert Close(TopWith(st1, v)).frames == Scalar(st, v).frames;
  }

  lemma OpenCloseMember(st: State, empty: Json, v: Json)
    requires Ready(st) && st.curKey != ""
    ensures Open(st, empty).Building? && Open(st, empty).frames != []
    ensures Close(TopWith(Open(st, empty), v)) == Scalar(st, v)
    ensures var st1 := Open(st, empty); st1.frames[|st1.frames| - 1].value == empty && st1.curKey == "" && !st1.first
  {
    var n := |st.frames| - 1;
    var tip := st.frames[n].value;
    var st1 := Open(st, empty);
    InsertedKey(tip.entries, st.curKey, empty);
    hide SortedKeys, Insert, Replace, Has, LowerBound;
    assert st1.frames[n].value == Map(Insert(tip.entries, st.curKey, empty));
    assert Close(TopWith(st1, v)).frames == Scalar(st, v).frames;
  }

  lemma BuildLeaf(libc: Libc, st: State, e: E.Event)
    requires Ready(st) && Clean(E.Leaf(e))
    ensures Run(libc, st, [e]) == Scalar(st, JsonOf(libc, E.Leaf(e)))
  {
    hide Scalar, NormalizeInt;
    RunOne(libc, st, e);
  }

  lemma {:induction false} BuildTree(libc: Libc, st: State, t: E.Tree)
    requires Ready(st) && Clean(t)
    ensures Run(libc, st, E.TreeEvents(t)) == Scalar(st, JsonOf(libc, t))
    decreases t, 1
  {
    hide Step, Scalar, Open, Close, Run, Ready;
    ReadyBuilds(st);
    match t
    case Leaf(e) =>
      BuildLeaf(libc, st, e);
    case Obj(ms) =>
      OpenClose(st, Map([]), JsonOf(libc, t));
      var st1 := Open(st, Map([]));
      EmptyMap();
      BuildMembers(libc, st1, ms, []);
      RunObject(libc, st, E.MemberEvents(ms), |ms|);
    case Arr(xs) =>
      OpenClose(st, List([]), JsonOf(libc, t));
      var st1 := Open(st, List([]));
      BuildItems(libc, st1, xs, []);
      assert [] + ItemsOf(libc, xs) == ItemsOf(libc, xs);
      RunArray(libc, st, E.ItemEvents(xs), |xs|);
  }

  lemma ReadyBuilds(st: State)
    requires Ready(st)
    ensures st.Building? && st.frames != []
  {
  }

  lemma EmptyMap()
    ensures forall k :: !Has([], k)
  {
  }

  /** The events of an object around its members, when the members leave the machine building. */
  lemma RunObject(libc: Libc, st: State, body: seq<E.Event>, n: nat)
    requires st.Building? && st.frames != []
    ensures var st2 := Run(libc, Open(st, Map([])), body);
      st2.Building? && st2.frames != [] ==> Run(libc, st, [E.StartObject] + body + [E.EndObject(n)]) == Close(st2)
  {
    hide Close, Open;
    Bracketed(libc, st, E.StartObject, body, E.EndObject(n));
  }

  lemma RunArray(libc: Libc, st: State, body: seq<E.Event>, n: nat)
    requires st.Building? && st.frames != []
    ensures var st2 := Run(libc, Open(st, List([])), body);
      st2.Building? && st2.frames != [] ==> Run(libc, st, [E.StartArray] + body + [E.EndArray(n)]) == Close(st2)
  {
    hide Close, Open;
    Bracketed(libc, st, E.StartArray, body, E.EndArray(n));
  }

  /** A run over an opening event, a body and a closing event. */
  lemma Bracketed(libc: Libc, st: State, open: E.Event, body: seq<E.Event>, close: E.Event)
    ensures Run(libc, st, [open] + body + [close]) == Step(libc, Run(libc, Step(libc, st, open), body), close)
  {
    hide Step;
    var log := [open] + body + [close];
    assert log[1..] == body + [close];
    RunConcat(libc, Step(libc, st, open), body, [close]);
    RunOne(libc, Run(libc, Step(libc, st, open), body), close);
  }

  lemma RunOne(libc: Libc, st: State, e: E.Event)
    ensures Run(libc, st, [e]) == Step(libc, st, e)
  {
    hide Step;
    assert [e][1..] == [];
  }

  lemma DeliverItem(st: State, vs: seq<Json>, v: Json)
    requires st.Building? && !st.first && st.curKey == "" && st.frames != []
    requires st.frames[|st.frames| - 1].value == List(vs)
    ensures Ready(st) && Scalar(st, v) == TopWith(st, List(vs + [v]))
    ensures forall ws :: TopWith(TopWith(st, List(vs + [v])), List(ws)) == TopWith(st, List(ws))
  {
  }

  lemma DeliverMember(libc: Libc, st: State, es: seq<Entry>, k: string, v: Json)
    requires st.Building? && !st.first && st.curKey == "" && st.frames != [] && k != ""
    requires st.frames[|st.frames| - 1].value == Map(es) && SortedKeys(es) && !Has(es, k)
    ensures var keyed := st.(curKey := k);
      Step(libc, st, E.String(k)) == keyed && Ready(keyed) && Scalar(keyed, v) == TopWith(st, Map(Insert(es, k, v)))
    ensures forall fs :: TopWith(TopWith(st, Map(Insert(es, k, v))), Map(fs)) == TopWith(st, Map(fs))
  {
    hide Insert, Has, LowerBound, SortedKeys;
  }

  lemma {:induction false} BuildItems(libc: Libc, st: State, xs: seq<E.Tree>, vs: seq<Json>)
    requires st.Building? && !st.first && st.curKey == "" && st.frames != []
    requires st.frames[|st.frames| - 1].value == List(vs)
    requires forall i :: 0 <= i < |xs| ==> Clean(xs[i])
    ensures Run(libc, st, E.ItemEvents(xs)) == TopWith(st, List(vs + ItemsOf(libc, xs)))
    decreases xs, 0
  {
    if xs == [] {
      assert vs + [] == vs;
    } else {
      var v := JsonOf(libc, xs[0]);
      DeliverItem(st, vs, v);
      var st1 := TopWith(st, List(vs + [v]));
      hide Step, Clean, Scalar, Ready, Run, TopWith;
      BuildTree(libc, st, xs[0]);
      BuildItems(libc, st1, xs[1..], vs + [v]);
      RunConcat(libc, st, E.TreeEvents(xs[0]), E.ItemEvents(xs[1..]));
      assert vs + [v] + ItemsOf(libc, xs[1..]) == vs + ItemsOf(libc, xs);
    }
  }

  lemma {:induction false} BuildMembers(libc: Libc, st: State, ms: seq<E.Member>, es: seq<Entry>)
    requires st.Building? && !st.first && st.curKey == "" && st.frames != []
    requires st.frames[|st.frames| - 1].value == Map(es) && SortedKeys(es)
    requires forall i :: 0 <= i < |ms| ==> ms[i].name != "" && Clean(ms[i].value) && !Has(es, ms[i].name)
    requires forall i, j :: 0 <= i < j < |ms| ==> ms[i].name != ms[j].name
    ensures Run(libc, st, E.MemberEvents(ms)) == TopWith(st, Map(EntriesOf(libc, ms, es)))
    decreases ms, 0
  {
    if ms != [] {
      hide Clean, Has, Insert, Step, Scalar, Ready, Run;
      var k, v := ms[0].name, JsonOf(libc, ms[0].value);
      var keyed := st.(curKey := k);
      DeliverMember(libc, st, es, k, v);
      RunOne(libc, st, E.String(k));
      BuildTree(libc, keyed, ms[0].value);
      var fs := Insert(es, k, v);
      var st1 := TopWith(st, Map(fs));
      InsertSorted(es, k, v);
      forall i | 0 <= i < |ms[1..]| ensures !Has(fs, ms[1..][i].name) {
        HasInsert(es, k, v, ms[1..][i].name);
      }
      BuildMembers(libc, st1, ms[1..], fs);
      RunConcat(libc, st, [E.String(k)] + E.TreeEvents(ms[0].value), E.MemberEvents(ms[1..]));
      RunConcat(libc, st, [E.String(k)], E.TreeEvents(ms[0].value));
    }
  }

  /** From the initial machine, a clean container's events end with exactly its value. */
  lemma BuildRoot(libc: Libc, t: E.Tree)
    requires Clean(t) && E.IsContainer(t)
    ensures Run(libc, INITIAL, E.TreeEvents(t)) == Finished(JsonOf(libc, t))
  {
    hide Run;
    match t
    case Obj(ms) =>
      EmptyMap();
      BuildMembers(libc, Open(INITIAL, Map([])), ms, []);
      RunObject(libc, INITIAL, E.MemberEvents(ms), |ms|);
    case Arr(xs) =>
      BuildItems(libc, Open(INITIAL, List([])), xs, []);
      assert [] + ItemsOf(libc, xs) == ItemsOf(libc, xs);
      RunArray(libc, INITIAL, E.ItemEvents(xs), |xs|);
  }
}
