/** What `string_to_json` makes of a text of the grammar, said value by value. */
module Loading {
  import opened Strings
  import opened Decimal
  import opened JsonValue
  import opened TreeBuilder
  import opened RoundTrip
  import opened Grammar
  import Completeness
  import E = Events
  import RS = ReaderSpec

  // ---- numbers ----

  /** A lexeme with a point or an exponent anywhere is the double that the C library reads; a canonical integer is
      the int of that value, or, outside of 64 bits, the big number with those digits. */
  lemma NumberLoads(libc: Libc, lexeme: string)
    ensures Pointed(lexeme) ==> NumberOf(libc, lexeme) == Some(Double(libc.scan(lexeme)))
    ensures forall i: int :: lexeme == Dec(i) ==>
      NumberOf(libc, lexeme) == Some(if -TWO_63 <= i < TWO_63 then Int(i) else Big(lexeme))
  {
    MarkExactly(lexeme);
    forall i: int | lexeme == Dec(i)
      ensures NumberOf(libc, lexeme) == Some(if -TWO_63 <= i < TWO_63 then Int(i) else Big(lexeme))
    {
      DecMarkless(i);
      NormalizeIsExact(i);
      hide NormalizeInt, HasFloatMark, Dec;
    }
  }

  /** The same of a single mark in any place. */
  lemma MarkedNumber(libc: Libc, a: string, c: char, b: string)
    requires c == '.' || c == 'e' || c == 'E'
    ensures NumberOf(libc, a + [c] + b) == Some(Double(libc.scan(a + [c] + b)))
  {
    assert (a + [c] + b)[|a|] == c;
    NumberLoads(libc, a + [c] + b);
    hide NumberOf;
  }

  /** The value that a lexeme stands for; lexemes that are neither pointed nor canonical may stand for others. */
  ghost predicate NumberMeans(libc: Libc, lexeme: string, j: Json) {
    if Pointed(lexeme) then j == Double(libc.scan(lexeme))
    else forall i: int :: lexeme == Dec(i) ==> j == if -TWO_63 <= i < TWO_63 then Int(i) else Big(lexeme)
  }

  // ---- values ----

  /** The value that a text spells. */
  ghost predicate Denotes(libc: Libc, v: Node, j: Json) {
    match v
    case NullWord => j == Null
    case TrueWord => j == Bool(true)
    case FalseWord => j == Bool(false)
    case Number(l) => NumberMeans(libc, l, j)
    case Text(ps) => j == Str(Chars(ps))
    case Arr(_, items) =>
      j.List? && |j.items| == |items| && forall i :: 0 <= i < |items| ==> Denotes(libc, items[i].value, j.items[i])
    case Obj(_, members) =>
      && j.Map? && |j.entries| == |members|
      && (forall a, b :: 0 <= a < b < |j.entries| ==> Precedes(j.entries[a].key, j.entries[b].key))
      && forall i :: 0 <= i < |members| ==> DenotedIn(libc, members[i], j.entries)
  }

  /** Some entry has the member's name and denotes its value. */
  ghost predicate DenotedIn(libc: Libc, m: Member, es: seq<Entry>) {
    exists k :: 0 <= k < |es| && es[k].key == Chars(m.name) && Denotes(libc, m.value, es[k].value)
  }

  /** What the loader wants beyond the grammar: numbers that are not empty, and names that are not empty and differ. */
  ghost predicate Loadable(v: Node) {
    match v
    case Number(l) => l != ""
    case Arr(_, items) => forall i :: 0 <= i < |items| ==> Loadable(items[i].value)
    case Obj(_, members) =>
      && (forall i :: 0 <= i < |members| ==> Chars(members[i].name) != "" && Loadable(members[i].value))
      && forall i, j :: 0 <= i < j < |members| ==> Chars(members[i].name) != Chars(members[j].name)
    case _ => true
  }

  lemma {:induction false} TreesAt(items: seq<Item>, i: nat)
    requires i < |items|
    ensures Trees(items)[i] == Tree(items[i].value)
    decreases |items|
  {
    hide Tree;
    if i > 0 { TreesAt(items[1..], i - 1); }
  }

  lemma {:induction false} MembersAt(members: seq<Member>, i: nat)
    requires i < |members|
    ensures Members(members)[i] == E.Member(Chars(members[i].name), Tree(members[i].value))
    decreases |members|
  {
    hide Tree, Chars;
    if i > 0 { MembersAt(members[1..], i - 1); }
  }

  lemma {:induction false} LoadableIsClean(v: Node)
    requires Loadable(v)
    ensures Clean(Tree(v))
    decreases v
  {
    hide Trees, Members, Chars;
    match v
    case Arr(_, items) =>
      forall i | 0 <= i < |items| ensures Clean(Trees(items)[i]) {
        TreesAt(items, i);
        LoadableIsClean(items[i].value);
      }
    case Obj(_, members) =>
      var ms := Members(members);
      forall i | 0 <= i < |ms| ensures ms[i].name == Chars(members[i].name) && Clean(ms[i].value) {
        MembersAt(members, i);
        assert members[i].value < members[i];
        LoadableIsClean(members[i].value);
      }
    case _ =>
  }

  lemma {:induction false} ItemsOfAt(libc: Libc, xs: seq<E.Tree>, i: nat)
    requires i < |xs|
    ensures ItemsOf(libc, xs)[i] == JsonOf(libc, xs[i])
    decreases |xs|
  {
    hide JsonOf;
    if i > 0 { ItemsOfAt(libc, xs[1..], i - 1); }
  }

  lemma {:induction false} ValueDenoted(libc: Libc, v: Node)
    requires Loadable(v)
    ensures Denotes(libc, v, JsonOf(libc, Tree(v)))
    decreases v
  {
    hide Trees, Members, Chars, ItemsOf, EntriesOf, NumberOf, Precedes, NumberMeans;
    match v
    case Number(l) => NumberDenoted(libc, l);
    case Arr(_, items) =>
      var ts := Trees(items);
      forall i | 0 <= i < |items| ensures Denotes(libc, items[i].value, ItemsOf(libc, ts)[i]) {
        TreesAt(items, i);
        ItemsOfAt(libc, ts, i);
        ValueDenoted(libc, items[i].value);
      }
    case Obj(_, members) =>
      var es := EntriesOf(libc, Members(members), []);
      LoadedEntries(libc, members);
      forall i | 0 <= i < |members| ensures DenotedIn(libc, members[i], es) {
        var k :| 0 <= k < |es| && es[k] == Entry(Chars(members[i].name), JsonOf(libc, Tree(members[i].value)));
        assert members[i].value < members[i];
        ValueDenoted(libc, members[i].value);
      }
    case _ =>
  }

  lemma NumberDenoted(libc: Libc, l: string)
    requires l != ""
    ensures NumberMeans(libc, l, JsonOf(libc, E.Leaf(E.BigNum(l))))
  {
    NumberLoads(libc, l);
    hide NumberOf, Pointed, Dec;
  }

  // ---- maps: the entries are the members, sorted ----

  lemma InsertHolds(es: seq<Entry>, k: string, v: Json)
    requires SortedKeys(es) && !Has(es, k)
    ensures var fs := Insert(es, k, v);
      SortedKeys(fs) && |fs| == |es| + 1 && Entry(k, v) in fs && forall e :: e in es ==> e in fs
  {
    InsertSorted(es, k, v);
    var i, fs := LowerBound(es, k), Insert(es, k, v);
    assert fs[i] == Entry(k, v);
    forall e | e in es ensures e in fs {
      var j :| 0 <= j < |es| && es[j] == e;
      assert fs[if j < i then j else j + 1] == e;
    }
  }

  lemma {:induction false} EntriesHold(libc: Libc, ms: seq<E.Member>, es: seq<Entry>)
    requires SortedKeys(es) && forall i :: 0 <= i < |ms| ==> !Has(es, ms[i].name)
    requires forall i, j :: 0 <= i < j < |ms| ==> ms[i].name != ms[j].name
    ensures var fs := EntriesOf(libc, ms, es);
      SortedKeys(fs) && |fs| == |es| + |ms| && (forall e :: e in es ==> e in fs) &&
      forall i :: 0 <= i < |ms| ==> Entry(ms[i].name, JsonOf(libc, ms[i].value)) in fs
    decreases |ms|
  {
    hide Has, Insert, SortedKeys, JsonOf;
    if ms != [] {
      var k, v := ms[0].name, JsonOf(libc, ms[0].value);
      var fs := Insert(es, k, v);
      InsertHolds(es, k, v);
      forall i | 0 <= i < |ms[1..]| ensures !Has(fs, ms[1..][i].name) { HasInsert(es, k, v, ms[1..][i].name); }
      EntriesHold(libc, ms[1..], fs);
      forall i | 0 <= i < |ms| ensures Entry(ms[i].name, JsonOf(libc, ms[i].value)) in EntriesOf(libc, ms, es) {
        if i > 0 { assert ms[1..][i - 1] == ms[i]; }
      }
    }
  }

  lemma LoadedEntries(libc: Libc, members: seq<Member>)
    requires forall i, j :: 0 <= i < j < |members| ==> Chars(members[i].name) != Chars(members[j].name)
    ensures var es := EntriesOf(libc, Members(members), []);
      |es| == |members| && (forall a, b :: 0 <= a < b < |es| ==> Precedes(es[a].key, es[b].key)) &&
      forall i :: 0 <= i < |members| ==>
        exists k :: 0 <= k < |es| && es[k] == Entry(Chars(members[i].name), JsonOf(libc, Tree(members[i].value)))
  {
    var ms := Members(members);
    forall i | 0 <= i < |members| ensures ms[i] == E.Member(Chars(members[i].name), Tree(members[i].value)) {
      MembersAt(members, i);
    }
    EmptyMap();
    hide Members, Chars, EntriesOf, Tree, JsonOf, Precedes, Has;
    EntriesHold(libc, ms, []);
    var es := EntriesOf(libc, ms, []);
    forall a, b | 0 <= a < b < |es| ensures Precedes(es[a].key, es[b].key) { LessExactly(es[a].key, es[b].key); }
    forall i | 0 <= i < |members|
      ensures exists k :: 0 <= k < |es| && es[k] == Entry(Chars(members[i].name), JsonOf(libc, Tree(members[i].value)))
    {
      assert Entry(ms[i].name, JsonOf(libc, ms[i].value)) in es;
    }
  }

  // ---- whole texts ----

  /** Every text of the grammar with proper numbers and distinct names loads as the value it spells: doubles exactly
      where there is a point or an exponent, ints and big numbers as their digits say, strings with their escapes
      undone, items in order, entries sorted by their names. */
  lemma TextLoads(libc: Libc, d: Doc)
    requires LegalDoc(d) && Loadable(d.root)
    ensures StringToJson(libc, DocText(d)).Loaded? && Denotes(libc, d.root, StringToJson(libc, DocText(d)).v)
  {
    hide RS.ParseText, Run, Denotes, JsonOf, Loadable, Legal, DocText;
    assert DocText(d) + "" == DocText(d);
    Completeness.DocReads(d, "", false);
    LoadableIsClean(d.root);
    ContainerTree(d.root);
    BuildRoot(libc, Tree(d.root));
    ValueDenoted(libc, d.root);
  }

  lemma ContainerTree(v: Node)
    requires v.Arr? || v.Obj?
    ensures E.IsContainer(Tree(v))
  {
  }

  /** A number alone in an array. */
  lemma LexemeLoads(libc: Libc, lexeme: string)
    requires lexeme != "" && forall i :: 0 <= i < |lexeme| ==> NumberLetter(lexeme[i])
    ensures var r := StringToJson(libc, "[" + lexeme + "]");
      r.Loaded? && r.v.List? && |r.v.items| == 1 && NumberMeans(libc, lexeme, r.v.items[0])
  {
    var x := Item("", Number(lexeme), "");
    var d := Doc("", Arr("", [x]), "");
    LoneNumber(lexeme);
    hide StringToJson, NumberMeans, DocText, LegalDoc, Loadable;
    TextLoads(libc, d);
    assert Denotes(libc, x.value, StringToJson(libc, DocText(d)).v.items[0]);
  }

  lemma LoneNumber(lexeme: string)
    requires lexeme != "" && forall i :: 0 <= i < |lexeme| ==> NumberLetter(lexeme[i])
    ensures var d := Doc("", Arr("", [Item("", Number(lexeme), "")]), "");
      DocText(d) == "[" + lexeme + "]" && LegalDoc(d) && Loadable(d.root)
  {
    var x := Item("", Number(lexeme), "");
    assert Legal(Number(lexeme)) && LegalItem(x);
    assert [x][1..] == [] && ItemsText([x]) == ItemText(x) + "" + ItemsText([]) && ItemText(x) == lexeme;
  }

  // ---- repeated names ----

  /** A value of one event. */
  predicate ScalarLeaf(t: E.Tree) {
    t.Leaf? && (t.e.Null? || t.e.Bool? || t.e.String? || (t.e.BigNum? && t.e.lexeme != ""))
  }

  /** In an object, with these entries so far. */
  predicate InMap(st: State, es: seq<Entry>) {
    st.Building? && !st.first && st.curKey == "" && st.frames != [] && st.frames[|st.frames| - 1].value == Map(es)
  }

  /** A scalar member goes in under its name, or is dropped when the name is there. */
  lemma LeafMember(libc: Libc, st: State, es: seq<Entry>, k: string, t: E.Tree)
    requires InMap(st, es) && k != "" && ScalarLeaf(t)
    ensures Run(libc, st, [E.String(k)] + E.TreeEvents(t)) == TopWith(st, Map(Insert(es, k, JsonOf(libc, t))))
  {
    var v := JsonOf(libc, t);
    var keyed := st.(curKey := k);
    RunConcat(libc, st, [E.String(k)], [t.e]);
    RunOne(libc, st, E.String(k));
    RunOne(libc, keyed, t.e);
    assert Step(libc, st, E.String(k)) == keyed;
    LeafScalar(libc, keyed, t);
    hide Run, Step, Insert, JsonOf, NumberOf, Has;
  }

  lemma LeafScalar(libc: Libc, st: State, t: E.Tree)
    requires ScalarLeaf(t) && st.Building? && st.frames != [] && st.curKey != ""
    ensures Step(libc, st, t.e) == Scalar(st, JsonOf(libc, t))
  {
    hide Scalar, NormalizeInt;
  }

  lemma {:induction false} LeafMembers(libc: Libc, st: State, ms: seq<E.Member>, es: seq<Entry>)
    requires InMap(st, es) && forall i :: 0 <= i < |ms| ==> ms[i].name != "" && ScalarLeaf(ms[i].value)
    ensures Run(libc, st, E.MemberEvents(ms)) == TopWith(st, Map(EntriesOf(libc, ms, es)))
    decreases |ms|
  {
    if ms == [] {
      assert st.frames[|st.frames| - 1 := st.frames[|st.frames| - 1].(value := Map(es))] == st.frames;
    } else {
      var k, v := ms[0].name, JsonOf(libc, ms[0].value);
      var fs := Insert(es, k, v);
      LeafMember(libc, st, es, k, ms[0].value);
      LeafMembers(libc, TopWith(st, Map(fs)), ms[1..], fs);
      RunConcat(libc, st, [E.String(k)] + E.TreeEvents(ms[0].value), E.MemberEvents(ms[1..]));
      hide Run, Insert, JsonOf, EntriesOf;
      OverWritten(st, fs, EntriesOf(libc, ms[1..], fs));
      EntriesStep(libc, ms, es);
    }
  }

  lemma OverWritten(st: State, es: seq<Entry>, fs: seq<Entry>)
    requires st.Building? && st.frames != []
    ensures TopWith(TopWith(st, Map(es)), Map(fs)) == TopWith(st, Map(fs))
  {
  }

  lemma EntriesStep(libc: Libc, ms: seq<E.Member>, es: seq<Entry>)
    requires ms != []
    ensures EntriesOf(libc, ms, es) == EntriesOf(libc, ms[1..], Insert(es, ms[0].name, JsonOf(libc, ms[0].value)))
  {
    hide Insert, JsonOf;
  }

  /** Is there an entry of this name? */
  ghost predicate Names(es: seq<Entry>, k: string) {
    exists i :: 0 <= i < |es| && es[i].key == k
  }

  lemma NamedHas(es: seq<Entry>, k: string)
    requires SortedKeys(es)
    ensures Names(es, k) <==> Has(es, k)
  {
    if Names(es, k) {
      var j :| 0 <= j < |es| && es[j].key == k;
      KeyFound(es, k, j);
    }
    if Has(es, k) { assert es[LowerBound(es, k)].key == k; }
  }

  /** A list with one entry put in somewhere names one more. */
  lemma NamesInserted(es: seq<Entry>, i: nat, e: Entry, l: string)
    requires i <= |es|
    ensures Names(es[..i] + [e] + es[i..], l) <==> Names(es, l) || l == e.key
  {
    var fs := es[..i] + [e] + es[i..];
    if Names(fs, l) {
      var j :| 0 <= j < |fs| && fs[j].key == l;
      if j != i { assert es[if j < i then j else j - 1].key == l; }
    }
    if Names(es, l) {
      var j :| 0 <= j < |es| && es[j].key == l;
      assert fs[if j < i then j else j + 1].key == l;
    }
    assert fs[i].key == e.key;
  }

  lemma InsertKeeps(es: seq<Entry>, k: string, v: Json)
    requires SortedKeys(es)
    ensures var fs := Insert(es, k, v);
      SortedKeys(fs) && (forall e :: e in es ==> e in fs) && (!Names(es, k) ==> Entry(k, v) in fs) &&
      forall l :: Names(fs, l) <==> Names(es, l) || l == k
  {
    NamedHas(es, k);
    hide Names, Has, SortedKeys;
    if !Has(es, k) {
      InsertHolds(es, k, v);
      forall l ensures Names(Insert(es, k, v), l) <==> Names(es, l) || l == k {
        NamesInserted(es, LowerBound(es, k), Entry(k, v), l);
      }
    }
  }

  /** No earlier member has this one's name. */
  predicate FirstOfName(ms: seq<E.Member>, i: nat)
    requires i < |ms|
  {
    forall j :: 0 <= j < i ==> ms[j].name != ms[i].name
  }

  lemma {:induction false} FirstsKept(libc: Libc, ms: seq<E.Member>, es: seq<Entry>)
    requires SortedKeys(es)
    ensures var fs := EntriesOf(libc, ms, es);
      SortedKeys(fs) && (forall e :: e in es ==> e in fs) &&
      (forall i :: 0 <= i < |ms| && FirstOfName(ms, i) && !Names(es, ms[i].name) ==>
        Entry(ms[i].name, JsonOf(libc, ms[i].value)) in fs) &&
      forall l :: Names(fs, l) <==> Names(es, l) || exists i :: 0 <= i < |ms| && ms[i].name == l
    decreases |ms|
  {
    hide Names, Insert, SortedKeys, JsonOf;
    if ms != [] {
      var k, v := ms[0].name, JsonOf(libc, ms[0].value);
      var es1 := Insert(es, k, v);
      InsertKeeps(es, k, v);
      FirstsKept(libc, ms[1..], es1);
      var fs := EntriesOf(libc, ms, es);
      forall i | 0 <= i < |ms| && FirstOfName(ms, i) && !Names(es, ms[i].name)
        ensures Entry(ms[i].name, JsonOf(libc, ms[i].value)) in fs
      {
        if i > 0 {
          assert ms[0].name != ms[i].name && FirstOfName(ms[1..], i - 1) by {
            forall j | 0 <= j < i - 1 ensures ms[1..][j].name != ms[1..][i - 1].name { assert ms[j + 1].name != ms[i].name; }
          }
          assert ms[1..][i - 1] == ms[i];
        }
      }
      forall l ensures Names(fs, l) <==> Names(es, l) || exists i :: 0 <= i < |ms| && ms[i].name == l {
        if i :| 0 <= i < |ms| && ms[i].name == l {
          if i > 0 { assert ms[1..][i - 1].name == l; }
        }
        if i :| 0 <= i < |ms[1..]| && ms[1..][i].name == l { assert ms[i + 1].name == l; }
      }
    }
  }

  /** An object whose members are scalars, with any names but empty ones, repeated or not, loads as the sorted map of
      its names, each with the value of its first member. */
  lemma FirstMemberWins(libc: Libc, ms: seq<E.Member>)
    requires forall i :: 0 <= i < |ms| ==> ms[i].name != "" && ScalarLeaf(ms[i].value)
    ensures exists es ::
      && Run(libc, INITIAL, E.TreeEvents(E.Obj(ms))) == Finished(Map(es)) && SortedKeys(es)
      && (forall l :: Names(es, l) <==> exists i :: 0 <= i < |ms| && ms[i].name == l)
      && forall i :: 0 <= i < |ms| && FirstOfName(ms, i) ==> Entry(ms[i].name, JsonOf(libc, ms[i].value)) in es
  {
    var st := Open(INITIAL, Map([]));
    var es := EntriesOf(libc, ms, []);
    assert forall l :: !Names([], l);
    FirstsKept(libc, ms, []);
    hide Run, Names, EntriesOf, JsonOf;
    LeafMembers(libc, st, ms, []);
    RunObject(libc, INITIAL, E.MemberEvents(ms), |ms|);
    assert Run(libc, INITIAL, E.TreeEvents(E.Obj(ms))) == Finished(Map(es));
  }
}
