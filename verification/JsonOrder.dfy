/** `operator==` and `operator<` on JSON values, and the order they form. */
module JsonOrder {
  import opened Strings
  import opened JsonValue

  /** A size that decreases along the comparison, whichever side it opens. */
  ghost function Weight(v: Json): nat
    decreases v, 1
  {
    match v
    case Map(es) => 1 + EntriesWeight(es)
    case List(xs) => 1 + ItemsWeight(xs)
    case Graft(t) => 1 + Weight(t)
    case _ => 1
  }

  ghost function ItemsWeight(xs: seq<Json>): nat
    decreases xs, 0
  {
    if xs == [] then 0 else 1 + Weight(xs[0]) + ItemsWeight(xs[1..])
  }

  ghost function EntriesWeight(es: seq<Entry>): nat
    decreases es, 0
  {
    if es == [] then 0 else 1 + Weight(es[0].value) + EntriesWeight(es[1..])
  }

  /** One side a big number, the other an int: compared after `normalize_int` of both. */
  predicate MixedInts(l: Json, r: Json) {
    (l.Big? && r.Int?) || (r.Big? && l.Int?)
  }

  function Normalized(v: Json): Json
    requires v.Int? || v.Big?
  {
    if v.Int? then v else NormalizeInt(v.digits)
  }

  /** `do_operation<std::less>`. */
  predicate LessThan(l: Json, r: Json)
    decreases Weight(l) + Weight(r)
  {
    if MixedInts(l, r) then
      var l1, r1 := Normalized(l), Normalized(r);
      if Disc(l1) != Disc(r1) then Disc(l1) < Disc(r1) else l1.Int? && r1.Int? && l1.i < r1.i
    else if l.Graft? && !r.Graft? then LessThan(l.target, r)
    else if r.Graft? && !l.Graft? then LessThan(l, r.target)
    else if Disc(l) != Disc(r) then Disc(l) < Disc(r)
    else match l
      case Null => false
      case Bool(b) => !b && r.b
      case Int(i) => i < r.i
      case Double(d) => d < r.r
      case Str(s) => Less(s, r.s)
      case Big(n) => BigLess(n, r.digits)
      case Map(es) => EntriesLess(es, r.entries)
      case List(xs) => ItemsLess(xs, r.items)
      case Graft(t) => LessThan(t, r.target)
  }

  /** `std::lexicographical_compare` on vectors of values. */
  predicate ItemsLess(ls: seq<Json>, rs: seq<Json>)
    decreases ItemsWeight(ls) + ItemsWeight(rs)
  {
    if rs == [] then false
    else if ls == [] then true
    else if LessThan(ls[0], rs[0]) then true
    else if LessThan(rs[0], ls[0]) then false
    else ItemsLess(ls[1..], rs[1..])
  }

  /** The same on the (key, value) pairs of maps, with `std::pair`'s order. */
  predicate EntriesLess(ls: seq<Entry>, rs: seq<Entry>)
    decreases EntriesWeight(ls) + EntriesWeight(rs)
  {
    if rs == [] then false
    else if ls == [] then true
    else if Less(ls[0].key, rs[0].key) || (!Less(rs[0].key, ls[0].key) && LessThan(ls[0].value, rs[0].value)) then true
    else if Less(rs[0].key, ls[0].key) || (!Less(ls[0].key, rs[0].key) && LessThan(rs[0].value, ls[0].value)) then false
    else EntriesLess(ls[1..], rs[1..])
  }

  /** `do_operation<std::equal_to>`. */
  predicate Equals(l: Json, r: Json)
    decreases Weight(l) + Weight(r)
  {
    if MixedInts(l, r) then
      var l1, r1 := Normalized(l), Normalized(r);
      Disc(l1) == Disc(r1) && l1.Int? && r1.Int? && l1.i == r1.i
    else if l.Graft? && !r.Graft? then Equals(l.target, r)
    else if r.Graft? && !l.Graft? then Equals(l, r.target)
    else if Disc(l) != Disc(r) then false
    else match l
      case Null => true
      case Bool(b) => b == r.b
      case Int(i) => i == r.i
      case Double(d) => d == r.r
      case Str(s) => s == r.s
      case Big(n) => n == r.digits
      case Map(es) => |es| == |r.entries| && EntriesEqual(es, r.entries)
      case List(xs) => |xs| == |r.items| && ItemsEqual(xs, r.items)
      case Graft(t) => Equals(t, r.target)
  }

  predicate ItemsEqual(ls: seq<Json>, rs: seq<Json>)
    requires |ls| == |rs|
    decreases ItemsWeight(ls) + ItemsWeight(rs)
  {
    ls == [] || (Equals(ls[0], rs[0]) && ItemsEqual(ls[1..], rs[1..]))
  }

  predicate EntriesEqual(ls: seq<Entry>, rs: seq<Entry>)
    requires |ls| == |rs|
    decreases EntriesWeight(ls) + EntriesWeight(rs)
  {
    ls == [] || (ls[0].key == rs[0].key && Equals(ls[0].value, rs[0].value) && EntriesEqual(ls[1..], rs[1..]))
  }

  // ---- seeing through grafts ----

  /** The value with every graft replaced by what it points to. */
  ghost function Strip(v: Json): (s: Json)
    ensures !s.Graft?
    decreases v, 1
  {
    match v
    case Map(es) => Map(StripEntries(es))
    case List(xs) => List(StripItems(xs))
    case Graft(t) => Strip(t)
    case _ => v
  }

  ghost function StripItems(xs: seq<Json>): (ys: seq<Json>)
    ensures |ys| == |xs|
    decreases xs, 0
  {
    if xs == [] then [] else [Strip(xs[0])] + StripItems(xs[1..])
  }

  ghost function StripEntries(es: seq<Entry>): (fs: seq<Entry>)
    ensures |fs| == |es|
    decreases es, 0
  {
    if es == [] then [] else [Entry(es[0].key, Strip(es[0].value))] + StripEntries(es[1..])
  }

  /** Both comparisons see only what is grafted, never the graft. */
  lemma {:induction false} GraftsAreTransparent(l: Json, r: Json)
    ensures LessThan(l, r) == LessThan(Strip(l), Strip(r))
    ensures Equals(l, r) == Equals(Strip(l), Strip(r))
    decreases Weight(l) + Weight(r)
  {
    if l.Graft? && !r.Graft? {
      GraftsAreTransparent(l.target, r);
    } else if r.Graft? && !l.Graft? {
      GraftsAreTransparent(l, r.target);
    } else if l.Graft? && r.Graft? {
      GraftsAreTransparent(l.target, r.target);
    } else if l.Map? && r.Map? {
      EntriesTransparent(l.entries, r.entries);
    } else if l.List? && r.List? {
      ItemsTransparent(l.items, r.items);
    }
  }

  lemma {:induction false} ItemsTransparent(ls: seq<Json>, rs: seq<Json>)
    ensures ItemsLess(ls, rs) == ItemsLess(StripItems(ls), StripItems(rs))
    ensures |ls| == |rs| ==> ItemsEqual(ls, rs) == ItemsEqual(StripItems(ls), StripItems(rs))
    decreases ItemsWeight(ls) + ItemsWeight(rs)
  {
    if ls != [] && rs != [] {
      GraftsAreTransparent(ls[0], rs[0]);
      GraftsAreTransparent(rs[0], ls[0]);
      ItemsTransparent(ls[1..], rs[1..]);
      assert StripItems(ls)[1..] == StripItems(ls[1..]);
      assert StripItems(rs)[1..] == StripItems(rs[1..]);
    }
  }

  lemma {:induction false} EntriesTransparent(ls: seq<Entry>, rs: seq<Entry>)
    ensures EntriesLess(ls, rs) == EntriesLess(StripEntries(ls), StripEntries(rs))
    ensures |ls| == |rs| ==> EntriesEqual(ls, rs) == EntriesEqual(StripEntries(ls), StripEntries(rs))
    decreases EntriesWeight(ls) + EntriesWeight(rs)
  {
    if ls != [] && rs != [] {
      GraftsAreTransparent(ls[0].value, rs[0].value);
      GraftsAreTransparent(rs[0].value, ls[0].value);
      EntriesTransparent(ls[1..], rs[1..]);
      assert StripEntries(ls)[1..] == StripEntries(ls[1..]);
      assert StripEntries(rs)[1..] == StripEntries(rs[1..]);
    }
  }

  // ---- the domain: no big number that normalises to an int ----

  /** No big number at any depth lies in the int64 window. */
  ghost predicate BigsOutside(v: Json) {
    match v
    case Big(n) => !InWindow(n)
    case Map(es) => forall i :: 0 <= i < |es| ==> BigsOutside(es[i].value)
    case List(xs) => forall i :: 0 <= i < |xs| ==> BigsOutside(xs[i])
    case Graft(t) => BigsOutside(t)
    case _ => true
  }

  /** Exactly one of `l < r`, `r < l` and `l` equal to `r` up to grafts. */
  ghost predicate OneOf(less: bool, greater: bool, equal: bool) {
    (less && !greater && !equal) || (!less && greater && !equal) || (!less && !greater && equal)
  }

  lemma {:induction false} Trichotomy(l: Json, r: Json)
    requires BigsOutside(l) && BigsOutside(r)
    ensures OneOf(LessThan(l, r), LessThan(r, l), Strip(l) == Strip(r))
    decreases Weight(l) + Weight(r)
  {
    if l.Graft? && !r.Graft? {
      Trichotomy(l.target, r);
    } else if r.Graft? && !l.Graft? {
      Trichotomy(l, r.target);
    } else if l.Graft? && r.Graft? {
      Trichotomy(l.target, r.target);
    } else if l.Map? && r.Map? {
      EntriesTrichotomy(l.entries, r.entries);
    } else if l.List? && r.List? {
      ItemsTrichotomy(l.items, r.items);
    } else if l.Str? && r.Str? {
      LessTrichotomy(l.s, r.s);
    } else if l.Big? && r.Big? {
      BigTrichotomy(l.digits, r.digits);
    }
  }

  lemma {:induction false} ItemsTrichotomy(ls: seq<Json>, rs: seq<Json>)
    requires forall i :: 0 <= i < |ls| ==> BigsOutside(ls[i])
    requires forall i :: 0 <= i < |rs| ==> BigsOutside(rs[i])
    ensures OneOf(ItemsLess(ls, rs), ItemsLess(rs, ls), StripItems(ls) == StripItems(rs))
    decreases ItemsWeight(ls) + ItemsWeight(rs)
  {
    if ls != [] && rs != [] {
      Trichotomy(ls[0], rs[0]);
      ItemsTrichotomy(ls[1..], rs[1..]);
      assert StripItems(ls)[0] == Strip(ls[0]) && StripItems(ls)[1..] == StripItems(ls[1..]);
      assert StripItems(rs)[0] == Strip(rs[0]) && StripItems(rs)[1..] == StripItems(rs[1..]);
    }
  }

  lemma {:induction false} EntriesTrichotomy(ls: seq<Entry>, rs: seq<Entry>)
    requires forall i :: 0 <= i < |ls| ==> BigsOutside(ls[i].value)
    requires forall i :: 0 <= i < |rs| ==> BigsOutside(rs[i].value)
    ensures OneOf(EntriesLess(ls, rs), EntriesLess(rs, ls), StripEntries(ls) == StripEntries(rs))
    decreases EntriesWeight(ls) + EntriesWeight(rs)
  {
    if ls != [] && rs != [] {
      Trichotomy(ls[0].value, rs[0].value);
      LessTrichotomy(ls[0].key, rs[0].key);
      EntriesTrichotomy(ls[1..], rs[1..]);
      assert StripEntries(ls)[0] == Entry(ls[0].key, Strip(ls[0].value)) && StripEntries(ls)[1..] == StripEntries(ls[1..]);
      assert StripEntries(rs)[0] == Entry(rs[0].key, Strip(rs[0].value)) && StripEntries(rs)[1..] == StripEntries(rs[1..]);
    }
  }

  lemma Substitute(a: Json, b: Json, c: Json)
    requires Strip(b) == Strip(c)
    ensures LessThan(a, b) == LessThan(a, c) && LessThan(b, a) == LessThan(c, a)
  {
    GraftsAreTransparent(a, b);
    GraftsAreTransparent(a, c);
    GraftsAreTransparent(b, a);
    GraftsAreTransparent(c, a);
  }

  lemma {:induction false} Transitive(a: Json, b: Json, c: Json)
    requires BigsOutside(a) && BigsOutside(b) && BigsOutside(c)
    requires LessThan(a, b) && LessThan(b, c)
    ensures LessThan(a, c)
    decreases Weight(a) + Weight(b) + Weight(c), 1
  {
    if a.Graft? {
      Substitute(b, a, a.target);
      Substitute(c, a, a.target);
      Transitive(a.target, b, c);
    } else if b.Graft? {
      Substitute(a, b, b.target);
      Substitute(c, b, b.target);
      Transitive(a, b.target, c);
    } else if c.Graft? {
      Substitute(a, c, c.target);
      Substitute(b, c, c.target);
      Transitive(a, b, c.target);
    } else {
      TransitivePlain(a, b, c);
    }
  }

  lemma {:induction false} TransitivePlain(a: Json, b: Json, c: Json)
    requires BigsOutside(a) && BigsOutside(b) && BigsOutside(c)
    requires !a.Graft? && !b.Graft? && !c.Graft?
    requires LessThan(a, b) && LessThan(b, c)
    ensures LessThan(a, c)
    decreases Weight(a) + Weight(b) + Weight(c), 0
  {
    assert Disc(a) <= Disc(b) <= Disc(c);
    if Disc(a) == Disc(c) {
      match a {
        case Str(s) => LessTransitive(s, b.s, c.s);
        case Big(n) => BigTransitive(n, b.digits, c.digits);
        case Map(es) => EntriesTransitive(es, b.entries, c.entries);
        case List(xs) => ItemsTransitive(xs, b.items, c.items);
        case _ =>
      }
    }
  }

  lemma {:induction false} ItemsTransitive(a: seq<Json>, b: seq<Json>, c: seq<Json>)
    requires forall i :: 0 <= i < |a| ==> BigsOutside(a[i])
    requires forall i :: 0 <= i < |b| ==> BigsOutside(b[i])
    requires forall i :: 0 <= i < |c| ==> BigsOutside(c[i])
    requires ItemsLess(a, b) && ItemsLess(b, c)
    ensures ItemsLess(a, c)
    decreases ItemsWeight(a) + ItemsWeight(b) + ItemsWeight(c)
  {
    if a != [] {
      Trichotomy(a[0], b[0]);
      Trichotomy(b[0], c[0]);
      HeadsTransitive(a[0], b[0], c[0]);
      if !LessThan(a[0], b[0]) && !LessThan(b[0], c[0]) {
        ItemsTransitive(a[1..], b[1..], c[1..]);
      }
    }
  }

  /** How the heads of three sequences, each not above the next, are ordered. */
  lemma {:induction false} HeadsTransitive(a: Json, b: Json, c: Json)
    requires BigsOutside(a) && BigsOutside(b) && BigsOutside(c)
    requires !LessThan(b, a) && !LessThan(c, b)
    ensures !LessThan(c, a)
    ensures LessThan(a, c) <==> LessThan(a, b) || LessThan(b, c)
    decreases Weight(a) + Weight(b) + Weight(c), 2
  {
    Trichotomy(a, b);
    Trichotomy(b, c);
    Trichotomy(a, c);
    if LessThan(a, b) && LessThan(b, c) {
      Transitive(a, b, c);
    } else if LessThan(a, b) {
      Substitute(a, b, c);
    } else {
      Substitute(c, a, b);
    }
  }

  lemma {:induction false} EntriesTransitive(a: seq<Entry>, b: seq<Entry>, c: seq<Entry>)
    requires forall i :: 0 <= i < |a| ==> BigsOutside(a[i].value)
    requires forall i :: 0 <= i < |b| ==> BigsOutside(b[i].value)
    requires forall i :: 0 <= i < |c| ==> BigsOutside(c[i].value)
    requires EntriesLess(a, b) && EntriesLess(b, c)
    ensures EntriesLess(a, c)
    decreases EntriesWeight(a) + EntriesWeight(b) + EntriesWeight(c)
  {
    if a != [] {
      var k, l, m := a[0].key, b[0].key, c[0].key;
      LessTrichotomy(k, l);
      LessTrichotomy(l, m);
      LessTrichotomy(k, m);
      if Less(k, l) && Less(l, m) {
        LessTransitive(k, l, m);
      } else if k == l && l == m {
        Trichotomy(a[0].value, b[0].value);
        Trichotomy(b[0].value, c[0].value);
        HeadsTransitive(a[0].value, b[0].value, c[0].value);
        if !LessThan(a[0].value, b[0].value) && !LessThan(b[0].value, c[0].value) {
          EntriesTransitive(a[1..], b[1..], c[1..]);
        }
      }
    }
  }

  // ---- equality ----

  /** On the same domain `==` is exactly equality up to grafts. */
  lemma {:induction false} EqualsIsIdentity(l: Json, r: Json)
    requires BigsOutside(l) && BigsOutside(r)
    ensures Equals(l, r) <==> Strip(l) == Strip(r)
    decreases Weight(l) + Weight(r)
  {
    if l.Graft? && !r.Graft? {
      EqualsIsIdentity(l.target, r);
    } else if r.Graft? && !l.Graft? {
      EqualsIsIdentity(l, r.target);
    } else if l.Graft? && r.Graft? {
      EqualsIsIdentity(l.target, r.target);
    } else if l.Map? && r.Map? {
      if |l.entries| == |r.entries| { EntriesEqualIsIdentity(l.entries, r.entries); }
    } else if l.List? && r.List? {
      if |l.items| == |r.items| { ItemsEqualIsIdentity(l.items, r.items); }
    }
  }

  lemma {:induction false} ItemsEqualIsIdentity(ls: seq<Json>, rs: seq<Json>)
    requires |ls| == |rs|
    requires forall i :: 0 <= i < |ls| ==> BigsOutside(ls[i])
    requires forall i :: 0 <= i < |rs| ==> BigsOutside(rs[i])
    ensures ItemsEqual(ls, rs) <==> StripItems(ls) == StripItems(rs)
    decreases ItemsWeight(ls) + ItemsWeight(rs)
  {
    if ls != [] {
      EqualsIsIdentity(ls[0], rs[0]);
      ItemsEqualIsIdentity(ls[1..], rs[1..]);
      assert StripItems(ls)[0] == Strip(ls[0]) && StripItems(ls)[1..] == StripItems(ls[1..]);
      assert StripItems(rs)[0] == Strip(rs[0]) && StripItems(rs)[1..] == StripItems(rs[1..]);
    }
  }

  lemma {:induction false} EntriesEqualIsIdentity(ls: seq<Entry>, rs: seq<Entry>)
    requires |ls| == |rs|
    requires forall i :: 0 <= i < |ls| ==> BigsOutside(ls[i].value)
    requires forall i :: 0 <= i < |rs| ==> BigsOutside(rs[i].value)
    ensures EntriesEqual(ls, rs) <==> StripEntries(ls) == StripEntries(rs)
    decreases EntriesWeight(ls) + EntriesWeight(rs)
  {
    if ls != [] {
      EqualsIsIdentity(ls[0].value, rs[0].value);
      EntriesEqualIsIdentity(ls[1..], rs[1..]);
      assert StripEntries(ls)[0] == Entry(ls[0].key, Strip(ls[0].value)) && StripEntries(ls)[1..] == StripEntries(ls[1..]);
      assert StripEntries(rs)[0] == Entry(rs[0].key, Strip(rs[0].value)) && StripEntries(rs)[1..] == StripEntries(rs[1..]);
    }
  }

  /** `<` is a strict total order whose equality is `==`, on all values without in-window big numbers. */
  lemma StrictTotalOrder(a: Json, b: Json, c: Json)
    requires BigsOutside(a) && BigsOutside(b) && BigsOutside(c)
    ensures OneOf(LessThan(a, b), LessThan(b, a), Equals(a, b))
    ensures LessThan(a, b) && LessThan(b, c) ==> LessThan(a, c)
    ensures Equals(a, b) && Equals(b, c) ==> Equals(a, c)
    ensures Equals(a, b) ==> (LessThan(a, c) == LessThan(b, c)) && (LessThan(c, a) == LessThan(c, b))
  {
    Trichotomy(a, b);
    EqualsIsIdentity(a, b);
    EqualsIsIdentity(b, c);
    EqualsIsIdentity(a, c);
    if LessThan(a, b) && LessThan(b, c) { Transitive(a, b, c); }
    if Equals(a, b) { Substitute(c, a, b); }
  }

  /** A big number below the window. */
  const FAR_BELOW: Numeral := "-100000000000000000000"

  /** Any in-window big number, beside the ints and one big number outside the window, makes `<` and `==`
      contradict each other. */
  lemma InWindowBigsBreakTheOrder(n: Numeral)
    requires InWindow(n)
    ensures BigsOutside(Big(FAR_BELOW)) && !BigsOutside(Big(n))
    ensures Equals(Big(n), Int(Atoll(n)))
    ensures LessThan(Int(Atoll(n)), Big(FAR_BELOW)) && LessThan(Big(FAR_BELOW), Big(n))
  {
    assert |FAR_BELOW| == 22 && |MIN_INT_DECIMAL| == 20;
  }
}
