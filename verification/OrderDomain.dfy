/** The domain of the JSON order is the largest possible one: a big number in the int64 window, at any depth of a
    value, makes that value equal to one that is below a third that is below it. */
module OrderDomain {
  import opened Strings
  import opened JsonValue
  import opened JsonOrder

  // ---- the value with ints for its in-window big numbers, grafts resolved ----

  function Settled(v: Json): (s: Json)
    ensures !s.Graft?
    decreases v, 1
  {
    match v
    case Big(n) => NormalizeInt(n)
    case Map(es) => Map(SettledEntries(es))
    case List(xs) => List(SettledItems(xs))
    case Graft(t) => Settled(t)
    case _ => v
  }

  function SettledItems(xs: seq<Json>): (ys: seq<Json>)
    ensures |ys| == |xs|
    decreases xs, 0
  {
    if xs == [] then [] else [Settled(xs[0])] + SettledItems(xs[1..])
  }

  function SettledEntries(es: seq<Entry>): (fs: seq<Entry>)
    ensures |fs| == |es| && forall i :: 0 <= i < |es| ==> fs[i].key == es[i].key
    decreases es, 0
  {
    if es == [] then [] else [Entry(es[0].key, Settled(es[0].value))] + SettledEntries(es[1..])
  }

  // ---- the same with the first of them far below the window instead ----

  ghost function Broken(v: Json): (s: Json)
    requires !BigsOutside(v)
    ensures !s.Graft?
    decreases v, 1
  {
    match v
    case Big(n) => Big(FAR_BELOW)
    case Map(es) => Map(BrokenEntries(es))
    case List(xs) => List(BrokenItems(xs))
    case Graft(t) => Broken(t)
  }

  ghost function BrokenItems(xs: seq<Json>): (ys: seq<Json>)
    requires exists i :: 0 <= i < |xs| && !BigsOutside(xs[i])
    ensures |ys| == |xs|
    decreases xs, 0
  {
    if !BigsOutside(xs[0]) then [Broken(xs[0])] + SettledItems(xs[1..])
    else [Settled(xs[0])] + BrokenItems(xs[1..])
  }

  ghost function BrokenEntries(es: seq<Entry>): (fs: seq<Entry>)
    requires exists i :: 0 <= i < |es| && !BigsOutside(es[i].value)
    ensures |fs| == |es| && forall i :: 0 <= i < |es| ==> fs[i].key == es[i].key
    decreases es, 0
  {
    if !BigsOutside(es[0].value) then [Entry(es[0].key, Broken(es[0].value))] + SettledEntries(es[1..])
    else [Entry(es[0].key, Settled(es[0].value))] + BrokenEntries(es[1..])
  }

  // ---- settled values ----

  lemma SettledBig(n: Numeral)
    ensures BigsOutside(NormalizeInt(n)) && Equals(Big(n), NormalizeInt(n))
  {
  }

  lemma {:induction false} SettledEquals(v: Json)
    ensures BigsOutside(Settled(v)) && Equals(v, Settled(v)) && (WellFormed(v) ==> WellFormed(Settled(v)))
    decreases v, 1
  {
    hide NormalizeInt;
    match v
    case Big(n) => SettledBig(n);
    case Map(es) => SettledEntriesEqual(es);
    case List(xs) => SettledItemsEqual(xs);
    case Graft(t) => SettledEquals(t);
    case _ =>
  }

  lemma {:induction false} SettledItemsEqual(xs: seq<Json>)
    ensures var ys := SettledItems(xs);
      ItemsEqual(xs, ys) && (forall i :: 0 <= i < |ys| ==> BigsOutside(ys[i])) &&
      ((forall i :: 0 <= i < |xs| ==> WellFormed(xs[i])) ==> forall i :: 0 <= i < |ys| ==> WellFormed(ys[i]))
    decreases xs, 0
  {
    hide BigsOutside, Equals, WellFormed, Settled;
    if xs != [] {
      SettledEquals(xs[0]);
      SettledItemsEqual(xs[1..]);
      assert SettledItems(xs)[1..] == SettledItems(xs[1..]);
    }
  }

  lemma {:induction false} SettledEntriesEqual(es: seq<Entry>)
    ensures var fs := SettledEntries(es);
      EntriesEqual(es, fs) && (forall i :: 0 <= i < |fs| ==> BigsOutside(fs[i].value)) &&
      ((forall i :: 0 <= i < |es| ==> WellFormed(es[i].value)) ==> forall i :: 0 <= i < |fs| ==> WellFormed(fs[i].value))
    decreases es, 0
  {
    hide BigsOutside, Equals, WellFormed, Settled;
    if es != [] {
      SettledEquals(es[0].value);
      SettledEntriesEqual(es[1..]);
      assert SettledEntries(es)[1..] == SettledEntries(es[1..]);
    }
  }

  /** Without in-window big numbers only the grafts go. */
  lemma {:induction false} SettledStrips(v: Json)
    requires BigsOutside(v)
    ensures Strip(Settled(v)) == Strip(v)
    decreases v, 1
  {
    match v
    case Map(es) => SettledEntriesStrip(es);
    case List(xs) => SettledItemsStrip(xs);
    case Graft(t) => SettledStrips(t);
    case _ =>
  }

  lemma {:induction false} SettledItemsStrip(xs: seq<Json>)
    requires forall i :: 0 <= i < |xs| ==> BigsOutside(xs[i])
    ensures StripItems(SettledItems(xs)) == StripItems(xs)
    decreases xs, 0
  {
    hide BigsOutside, Settled, Strip;
    if xs != [] {
      SettledStrips(xs[0]);
      SettledItemsStrip(xs[1..]);
      assert SettledItems(xs)[1..] == SettledItems(xs[1..]);
    }
  }

  lemma {:induction false} SettledEntriesStrip(es: seq<Entry>)
    requires forall i :: 0 <= i < |es| ==> BigsOutside(es[i].value)
    ensures StripEntries(SettledEntries(es)) == StripEntries(es)
    decreases es, 0
  {
    hide BigsOutside, Settled, Strip;
    if es != [] {
      SettledStrips(es[0].value);
      SettledEntriesStrip(es[1..]);
      assert SettledEntries(es)[1..] == SettledEntries(es[1..]);
    }
  }

  /** Such a value and its settled form are not ordered either way. */
  lemma Unordered(v: Json)
    requires BigsOutside(v)
    ensures var s := Settled(v); !LessThan(s, s) && !LessThan(s, v) && !LessThan(v, s)
  {
    hide BigsOutside, Settled, LessThan, Strip;
    SettledEquals(v);
    SettledStrips(v);
    Trichotomy(Settled(v), Settled(v));
    Trichotomy(Settled(v), v);
  }

  // ---- the broken value lies between the settled one and the value itself ----

  /** `b` is above the settled `v` and below `v`, which the settled `v` equals. */
  ghost predicate Between(v: Json, b: Json) {
    BigsOutside(b) && LessThan(Settled(v), b) && LessThan(b, v) && (WellFormed(v) ==> WellFormed(b))
  }

  lemma {:induction false} BrokenBetween(v: Json)
    requires !BigsOutside(v)
    ensures Between(v, Broken(v))
    decreases v, 1
  {
    match v
    case Big(n) => InWindowBigsBreakTheOrder(n);
    case Map(es) => BrokenEntriesBetween(es);
    case List(xs) => BrokenItemsBetween(xs);
    case Graft(t) => BrokenBetween(t);
  }

  lemma {:induction false} BrokenItemsBetween(xs: seq<Json>)
    requires exists i :: 0 <= i < |xs| && !BigsOutside(xs[i])
    ensures var ys := BrokenItems(xs);
      ItemsLess(SettledItems(xs), ys) && ItemsLess(ys, xs) && (forall i :: 0 <= i < |ys| ==> BigsOutside(ys[i])) &&
      ((forall i :: 0 <= i < |xs| ==> WellFormed(xs[i])) ==> forall i :: 0 <= i < |ys| ==> WellFormed(ys[i]))
    decreases xs, 0
  {
    hide BigsOutside, Settled, Broken, LessThan, WellFormed;
    var ys, ss := BrokenItems(xs), SettledItems(xs);
    SettledItemsEqual(xs[1..]);
    SettledEquals(xs[0]);
    assert ss[0] == Settled(xs[0]) && ss[1..] == SettledItems(xs[1..]);
    if !BigsOutside(xs[0]) {
      BrokenBetween(xs[0]);
      assert ys[0] == Broken(xs[0]) && ys[1..] == SettledItems(xs[1..]);
    } else {
      Unordered(xs[0]);
      BrokenItemsBetween(xs[1..]);
      assert ys[0] == Settled(xs[0]) && ys[1..] == BrokenItems(xs[1..]);
    }
  }

  lemma {:induction false} BrokenEntriesBetween(es: seq<Entry>)
    requires exists i :: 0 <= i < |es| && !BigsOutside(es[i].value)
    ensures var fs := BrokenEntries(es);
      EntriesLess(SettledEntries(es), fs) && EntriesLess(fs, es) && (forall i :: 0 <= i < |fs| ==> BigsOutside(fs[i].value)) &&
      ((forall i :: 0 <= i < |es| ==> WellFormed(es[i].value)) ==> forall i :: 0 <= i < |fs| ==> WellFormed(fs[i].value))
    decreases es, 0
  {
    hide BigsOutside, Settled, Broken, LessThan, WellFormed, Less;
    var fs, ss := BrokenEntries(es), SettledEntries(es);
    var v := es[0].value;
    LessTrichotomy(es[0].key, es[0].key);
    SettledEntriesEqual(es[1..]);
    SettledEquals(v);
    assert ss[0] == Entry(es[0].key, Settled(v)) && ss[1..] == SettledEntries(es[1..]);
    if !BigsOutside(v) {
      BrokenBetween(v);
      assert fs[0] == Entry(es[0].key, Broken(v)) && fs[1..] == SettledEntries(es[1..]);
    } else {
      Unordered(v);
      BrokenEntriesBetween(es[1..]);
      assert fs[0] == Entry(es[0].key, Settled(v)) && fs[1..] == BrokenEntries(es[1..]);
    }
  }

  /** For every value outside the domain there are two inside it with which `<` and `==` contradict each other:
      the value equals the first, the first is below the second, and the second is below the value. */
  lemma DomainIsLargest(v: Json) returns (a: Json, b: Json)
    requires !BigsOutside(v)
    ensures BigsOutside(a) && BigsOutside(b) && Equals(v, a) && LessThan(a, b) && LessThan(b, v)
    ensures WellFormed(v) ==> WellFormed(a) && WellFormed(b)
  {
    hide BigsOutside, LessThan, Equals, WellFormed, Settled, Broken;
    SettledEquals(v);
    BrokenBetween(v);
    a, b := Settled(v), Broken(v);
  }
}
