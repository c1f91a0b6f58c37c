/** `string_to_json` and `json_to_string`: what survives printing and parsing, exactly. */
module RoundTrip {
  import opened Strings
  import opened Decimal
  import opened JsonValue
  import opened Render
  import opened TreeBuilder
  import opened Parsing
  import E = Events
  import RS = ReaderSpec

  /** `string_to_json`: the value, the reader's error with its offset, or an exception out of the handler. */
  datatype Loaded = Loaded(v: Json) | Rejected(error: RS.ParseError, offset: nat) | HandlerThrew

  function StringToJson(libc: Libc, text: string): Loaded {
    var p := RS.ParseText(RS.Lexemes, false, text);
    var st := Run(libc, INITIAL, p.log);
    if st.Threw? then HandlerThrew
    else if p.Err? then Rejected(p.error, |text| - p.left)
    else if st.Finished? then Loaded(st.root)
    else Loaded(if st.frames == [] then Null else st.frames[0].value)
  }

  /** `json_to_string`, for values that are a map or a list behind their grafts. */
  function JsonToString(libc: Libc, v: Json, pretty: bool): string {
    Text(libc, if pretty then PRETTY else Compact, 0, v)
  }

  // ---- what the text keeps of a value ----

  /** The value without its grafts, numbers as their texts read back. */
  function Norm(libc: Libc, v: Json): Json
    decreases v, 1, 0
  {
    match v
    case Double(r) => (match NumberOf(libc, libc.show(r)) case Some(n) => n case None => Null)
    case Big(n) => (match NumberOf(libc, n) case Some(n) => n case None => Null)
    case Map(es) => Map(NormEntries(libc, es, 0))
    case List(xs) => List(NormItems(libc, xs, 0))
    case Graft(t) => Norm(libc, t)
    case _ => v
  }

  function NormItems(libc: Libc, xs: seq<Json>, i: nat): (ys: seq<Json>)
    requires i <= |xs|
    ensures |ys| == |xs| - i
    decreases xs, 0, |xs| - i
  {
    if i == |xs| then [] else [Norm(libc, xs[i])] + NormItems(libc, xs, i + 1)
  }

  function NormEntries(libc: Libc, es: seq<Entry>, i: nat): (fs: seq<Entry>)
    requires i <= |es|
    ensures |fs| == |es| - i && forall j :: 0 <= j < |fs| ==> fs[j].key == es[i + j].key
    decreases es, 0, |es| - i
  {
    if i == |es| then [] else [Entry(es[i].key, Norm(libc, es[i].value))] + NormEntries(libc, es, i + 1)
  }

  /** No map at any depth has an empty key. */
  ghost predicate NamedKeys(v: Json) {
    match v
    case Map(es) => forall i :: 0 <= i < |es| ==> es[i].key != "" && NamedKeys(es[i].value)
    case List(xs) => forall i :: 0 <= i < |xs| ==> NamedKeys(xs[i])
    case Graft(t) => NamedKeys(t)
    case _ => true
  }

  predicate Container(v: Json) { v.Map? || v.List? }

  /** Everything the builder needs of a value's text. */
  ghost predicate Storable(libc: Libc, v: Json) {
    WellFormed(v) && NamedKeys(v) && Printable(libc, v)
  }

  lemma IntText(libc: Libc, i: int64)
    ensures Dec(i) != "" && NumberOf(libc, Dec(i)) == Some(Int(i))
  {
    NormalizeIsExact(i);
    DecMarkless(i);
  }

  lemma DecMarkless(i: int)
    ensures !HasFloatMark(Dec(i))
  {
  }

  lemma ScalarBuildsNorm(libc: Libc, v: Json)
    requires Storable(libc, v) && !v.Map? && !v.List? && !v.Graft?
    ensures Clean(TreeOf(libc, v)) && JsonOf(libc, TreeOf(libc, v)) == Norm(libc, v)
  {
    hide NormalizeInt, Dec;
    if v.Int? { IntText(libc, v.i); }
  }

  lemma MapBuildsNorm(libc: Libc, v: Json)
    requires Storable(libc, v) && v.Map?
    requires var ms := MembersOf(libc, v.entries, 0);
      (forall j :: 0 <= j < |ms| ==> ms[j].name == v.entries[j].key && ms[j].name != "" && Clean(ms[j].value)) &&
      EntriesOf(libc, ms, []) == NormEntries(libc, v.entries, 0)
    ensures Clean(TreeOf(libc, v)) && JsonOf(libc, TreeOf(libc, v)) == Norm(libc, v)
  {
    SortedKeysDiffer(v.entries);
    hide NormEntries, MembersOf, EntriesOf, SortedKeys;
  }

  /** The tree of a storable value is clean and builds the value's norm. */
  lemma {:induction false} TreeBuildsNorm(libc: Libc, v: Json)
    requires Storable(libc, v)
    ensures Clean(TreeOf(libc, v)) && JsonOf(libc, TreeOf(libc, v)) == Norm(libc, v)
    decreases v, 1, 0
  {
    hide NormalizeInt, Dec, NormEntries, MembersOf, EntriesOf, SortedKeys;
    match v
    case Map(es) =>
      TreeMembers(libc, es, 0);
      TreeEntries(libc, es, 0, []);
      assert [] + NormEntries(libc, es, 0) == NormEntries(libc, es, 0);
      MapBuildsNorm(libc, v);
    case List(xs) => TreeItems(libc, xs, 0);
    case Graft(t) => TreeBuildsNorm(libc, t);
    case _ => ScalarBuildsNorm(libc, v);
  }

  lemma {:induction false} TreeItems(libc: Libc, xs: seq<Json>, i: nat)
    requires i <= |xs| && forall j :: 0 <= j < |xs| ==> Storable(libc, xs[j])
    ensures var ts := TreesOf(libc, xs, i);
      (forall j :: 0 <= j < |ts| ==> Clean(ts[j])) && ItemsOf(libc, ts) == NormItems(libc, xs, i)
    decreases xs, 0, |xs| - i
  {
    if i < |xs| {
      TreeBuildsNorm(libc, xs[i]);
      TreeItems(libc, xs, i + 1);
      assert TreesOf(libc, xs, i)[1..] == TreesOf(libc, xs, i + 1);
    }
  }

  lemma {:induction false} TreeMembers(libc: Libc, es: seq<Entry>, i: nat)
    requires i <= |es|
    requires forall j :: 0 <= j < |es| ==> es[j].key != "" && Storable(libc, es[j].value)
    ensures var ms := MembersOf(libc, es, i);
      forall j :: 0 <= j < |ms| ==> ms[j].name == es[i + j].key && ms[j].name != "" && Clean(ms[j].value)
    decreases es, 0, |es| - i
  {
    hide Storable, TreeOf, Clean, JsonOf, Norm;
    if i < |es| {
      TreeBuildsNorm(libc, es[i].value);
      TreeMembers(libc, es, i + 1);
      assert MembersOf(libc, es, i)[1..] == MembersOf(libc, es, i + 1);
    }
  }

  lemma SortedKeysDiffer(es: seq<Entry>)
    requires SortedKeys(es)
    ensures forall i, j :: 0 <= i < j < |es| ==> es[i].key != es[j].key
  {
    forall i, j | 0 <= i < j < |es| ensures es[i].key != es[j].key {
      LessTrichotomy(es[i].key, es[j].key);
    }
  }

  lemma {:induction false} TreeEntries(libc: Libc, es: seq<Entry>, i: nat, done: seq<Entry>)
    requires i <= |es| && SortedKeys(es)
    requires forall j :: 0 <= j < |es| ==> Storable(libc, es[j].value)
    requires |done| == i && forall j :: 0 <= j < i ==> done[j].key == es[j].key
    ensures EntriesOf(libc, MembersOf(libc, es, i), done) == done + NormEntries(libc, es, i)
    decreases es, 0, |es| - i
  {
    hide Storable, TreeOf, JsonOf, Norm, Insert, Less;
    if i < |es| {
      var k, n := es[i].key, Norm(libc, es[i].value);
      TreeBuildsNorm(libc, es[i].value);
      InsertLast(done, k, n);
      TreeEntries(libc, es, i + 1, done + [Entry(k, n)]);
      assert MembersOf(libc, es, i)[1..] == MembersOf(libc, es, i + 1);
      assert done + [Entry(k, n)] + NormEntries(libc, es, i + 1) == done + NormEntries(libc, es, i);
    } else {
      assert done + [] == done;
    }
  }

  /** A key above all keys goes to the end. */
  lemma InsertLast(es: seq<Entry>, k: string, v: Json)
    requires forall j :: 0 <= j < |es| ==> Less(es[j].key, k)
    ensures Insert(es, k, v) == es + [Entry(k, v)]
  {
    LowerBoundUnique(es, k, |es|);
  }

  /** Printing any storable container and parsing the text gives its norm, from either writer. */
  lemma ParsePrint(libc: Libc, v: Json, pretty: bool)
    requires Storable(libc, v) && Container(Ungraft(v))
    ensures StringToJson(libc, JsonToString(libc, v, pretty)) == Loaded(Norm(libc, v))
  {
    hide Text, RS.ParseText, Run, Storable;
    var style := if pretty then PRETTY else Compact;
    assert Storable(libc, v) && ProperStyle(style) && Printable(libc, v) by { StorableIsPrintable(libc, v); }
    TextInverse(libc, style, v, false);
    TreeBuildsNorm(libc, v);
    TreeContainer(libc, v);
    BuildRoot(libc, TreeOf(libc, v));
  }

  lemma StorableIsPrintable(libc: Libc, v: Json)
    requires Storable(libc, v)
    ensures Printable(libc, v)
  {
  }

  lemma {:induction false} TreeContainer(libc: Libc, v: Json)
    requires Container(Ungraft(v))
    ensures E.IsContainer(TreeOf(libc, v))
    decreases v
  {
    if v.Graft? { TreeContainer(libc, v.target); }
  }
}
