/** Which order `<` is: kind by kind, and inside lists and maps, said without the comparison's own recursion. */
module OrderLaws {
  import opened Strings
  import opened Decimal
  import opened JsonValue
  import opened JsonOrder

  // ---- scalars ----

  /** Booleans, ints and doubles are in their usual order, strings in the order of their first difference; a null
      is not below a null. */
  lemma ScalarsInOrder(b: bool, c: bool, i: int64, j: int64, d: real, e: real, s: string, t: string)
    ensures !LessThan(Null, Null) && Equals(Null, Null)
    ensures LessThan(Bool(b), Bool(c)) <==> b == false && c == true
    ensures LessThan(Int(i), Int(j)) <==> i < j
    ensures LessThan(Double(d), Double(e)) <==> d < e
    ensures LessThan(Str(s), Str(t)) <==> Precedes(s, t)
    ensures Equals(Bool(b), Bool(c)) <==> b == c
    ensures Equals(Int(i), Int(j)) <==> i == j
    ensures Equals(Double(d), Double(e)) <==> d == e
    ensures Equals(Str(s), Str(t)) <==> s == t
  {
    LessExactly(s, t);
  }

  /** Big numbers: the negative ones first; then by length and by the first difference, turned round for negative
      ones. */
  lemma BigsInOrder(m: Numeral, n: Numeral)
    ensures LessThan(Big(m), Big(n)) <==>
      if m[0] == '-' && n[0] == '-' then |m| > |n| || (|m| == |n| && Precedes(n, m))
      else if m[0] == '-' then true
      else n[0] != '-' && (|m| < |n| || (|m| == |n| && Precedes(m, n)))
    ensures Equals(Big(m), Big(n)) <==> m == n
  {
    LessExactly(m, n);
    LessExactly(n, m);
  }

  /** On canonical numerals that is the order of the integers; against an int it is so inside the 64-bit window, and
      outside of it every int comes first, even before a big number of smaller value. */
  lemma IntegersInOrder(i: int64, m: int, n: int)
    ensures Dec(m) != "" && Dec(n) != ""
    ensures LessThan(Big(Dec(m)), Big(Dec(n))) <==> m < n
    ensures LessThan(Int(i), Big(Dec(n))) <==> if -TWO_63 <= n < TWO_63 then i < n else true
    ensures LessThan(Big(Dec(n)), Int(i)) <==> if -TWO_63 <= n < TWO_63 then n < i else false
    ensures Equals(Int(i), Big(Dec(n))) <==> i == n
    ensures Equals(Big(Dec(n)), Int(i)) <==> i == n
  {
    BigLessIsIntegerOrder(m, n);
    NormalizeIsExact(n);
    hide BigLess, NormalizeInt, Dec;
  }

  // ---- kinds ----

  /** Each of these is below all later ones, and none above. */
  ghost predicate Ascending(vs: seq<Json>) {
    forall i, j :: 0 <= i < j < |vs| ==> LessThan(vs[i], vs[j]) && !LessThan(vs[j], vs[i]) && !Equals(vs[i], vs[j])
  }

  /** The kinds: null, boolean, int, double, string, big number, map, list; a big number in the window counts as
      an int only against an int. */
  lemma KindsInOrder(b: bool, i: int64, d: real, s: string, n: Numeral, es: seq<Entry>, xs: seq<Json>)
    ensures Ascending([Null, Bool(b), Int(i), Double(d), Str(s), Map(es), List(xs)])
    ensures Ascending([Null, Bool(b), Double(d), Str(s), Big(n), Map(es), List(xs)])
    ensures !InWindow(n) ==> Ascending([Int(i), Big(n)])
  {
    var vs := [Null, Bool(b), Int(i), Double(d), Str(s), Map(es), List(xs)];
    var ws := [Null, Bool(b), Double(d), Str(s), Big(n), Map(es), List(xs)];
    if !InWindow(n) { BelowBig(i, n); }
    assert forall k, l :: 0 <= k < l < 7 ==> Disc(vs[k]) < Disc(vs[l]) && !MixedInts(vs[k], vs[l]);
    assert forall k, l :: 0 <= k < l < 7 ==> Disc(ws[k]) < Disc(ws[l]) && !MixedInts(ws[k], ws[l]);
    hide Disc, LessThan, Equals, InWindow, Ascending;
    AscendingKinds(vs);
    AscendingKinds(ws);
    assert !InWindow(n) ==> Ascending([Int(i), Big(n)]) by { TwoAscending(Int(i), Big(n)); }
  }

  lemma TwoAscending(l: Json, r: Json)
    ensures LessThan(l, r) && !LessThan(r, l) && !Equals(l, r) ==> Ascending([l, r])
  {
    hide LessThan, Equals;
  }

  lemma AscendingKinds(vs: seq<Json>)
    requires forall k :: 0 <= k < |vs| ==> !vs[k].Graft?
    requires forall k, l :: 0 <= k < l < |vs| ==> Disc(vs[k]) < Disc(vs[l]) && !MixedInts(vs[k], vs[l])
    ensures Ascending(vs)
  {
    hide Disc, LessThan, Equals, MixedInts;
    forall k, l | 0 <= k < l < |vs| ensures LessThan(vs[k], vs[l]) && !LessThan(vs[l], vs[k]) && !Equals(vs[k], vs[l]) {
      DifferentKinds(vs[k], vs[l]);
    }
  }

  lemma BelowBig(i: int64, n: Numeral)
    requires !InWindow(n)
    ensures LessThan(Int(i), Big(n)) && !LessThan(Big(n), Int(i)) && !Equals(Int(i), Big(n))
  {
  }

  lemma DifferentKinds(l: Json, r: Json)
    requires !l.Graft? && !r.Graft? && !MixedInts(l, r) && Disc(l) < Disc(r)
    ensures LessThan(l, r) && !LessThan(r, l) && !Equals(l, r)
  {
  }

  // ---- lists ----

  /** Neither is below the other. */
  predicate Even(l: Json, r: Json) { !LessThan(l, r) && !LessThan(r, l) }

  /** The lists are even up to here; and here the first one ends, or has the smaller item. */
  ghost predicate ItemsDecide(ls: seq<Json>, rs: seq<Json>, i: int) {
    && 0 <= i <= |ls| && i < |rs|
    && (forall j :: 0 <= j < i ==> Even(ls[j], rs[j]))
    && (i < |ls| ==> LessThan(ls[i], rs[i]))
  }

  /** The first uneven item decides; a proper prefix is less. */
  lemma {:induction false} ListsInOrder(ls: seq<Json>, rs: seq<Json>)
    ensures LessThan(List(ls), List(rs)) <==> exists i :: ItemsDecide(ls, rs, i)
    decreases |ls|
  {
    assert LessThan(List(ls), List(rs)) == ItemsLess(ls, rs);
    if rs == [] {
    } else if ls == [] || LessThan(ls[0], rs[0]) {
      assert ItemsDecide(ls, rs, 0);
    } else {
      ListsInOrder(ls[1..], rs[1..]);
      assert LessThan(List(ls[1..]), List(rs[1..])) == ItemsLess(ls[1..], rs[1..]);
      ItemsShift(ls, rs);
    }
  }

  lemma ItemsShift(ls: seq<Json>, rs: seq<Json>)
    requires ls != [] && rs != [] && !LessThan(ls[0], rs[0])
    ensures (exists i :: ItemsDecide(ls, rs, i)) <==> !LessThan(rs[0], ls[0]) && exists i :: ItemsDecide(ls[1..], rs[1..], i)
  {
    hide LessThan;
    if i :| ItemsDecide(ls, rs, i) {
      assert i > 0 ==> Even(ls[0], rs[0]);
      forall j | 0 <= j < i - 1 ensures Even(ls[1..][j], rs[1..][j]) { assert Even(ls[j + 1], rs[j + 1]); }
      assert ItemsDecide(ls[1..], rs[1..], i - 1);
    }
    if !LessThan(rs[0], ls[0]) && exists i :: ItemsDecide(ls[1..], rs[1..], i) {
      var i :| ItemsDecide(ls[1..], rs[1..], i);
      forall j | 0 <= j < i + 1 ensures Even(ls[j], rs[j]) {
        if j > 0 { assert Even(ls[1..][j - 1], rs[1..][j - 1]); }
      }
      assert ItemsDecide(ls, rs, i + 1);
    }
  }

  // ---- maps ----

  /** A smaller key, or the same key with a smaller value. */
  ghost predicate EntryBelow(l: Entry, r: Entry) {
    Precedes(l.key, r.key) || (l.key == r.key && LessThan(l.value, r.value))
  }

  ghost predicate EntriesDecide(ls: seq<Entry>, rs: seq<Entry>, i: int) {
    && 0 <= i <= |ls| && i < |rs|
    && (forall j :: 0 <= j < i ==> ls[j].key == rs[j].key && Even(ls[j].value, rs[j].value))
    && (i < |ls| ==> EntryBelow(ls[i], rs[i]))
  }

  /** The first uneven entry decides, by its key and then by its value; a proper prefix is less. */
  lemma {:induction false} MapsInOrder(ls: seq<Entry>, rs: seq<Entry>)
    ensures LessThan(Map(ls), Map(rs)) <==> exists i :: EntriesDecide(ls, rs, i)
    decreases |ls|
  {
    assert LessThan(Map(ls), Map(rs)) == EntriesLess(ls, rs);
    if rs == [] {
    } else if ls == [] {
      assert EntriesDecide(ls, rs, 0);
    } else {
      EntryTests(ls[0], rs[0]);
      if EntryBelow(ls[0], rs[0]) {
        assert EntriesDecide(ls, rs, 0);
      } else {
        MapsInOrder(ls[1..], rs[1..]);
        assert LessThan(Map(ls[1..]), Map(rs[1..])) == EntriesLess(ls[1..], rs[1..]);
        EntriesShift(ls, rs);
      }
    }
  }

  lemma EntryTests(l: Entry, r: Entry)
    ensures EntryBelow(l, r) <==> Less(l.key, r.key) || (!Less(r.key, l.key) && LessThan(l.value, r.value))
    ensures EntryBelow(r, l) <==> Less(r.key, l.key) || (!Less(l.key, r.key) && LessThan(r.value, l.value))
    ensures !EntryBelow(l, r) && !EntryBelow(r, l) <==> l.key == r.key && Even(l.value, r.value)
  {
    LessExactly(l.key, r.key);
    LessExactly(r.key, l.key);
    LessTrichotomy(l.key, r.key);
    hide LessThan, Less, Precedes;
  }

  lemma EntriesShift(ls: seq<Entry>, rs: seq<Entry>)
    requires ls != [] && rs != [] && !EntryBelow(ls[0], rs[0])
    ensures (exists i :: EntriesDecide(ls, rs, i)) <==>
      !EntryBelow(rs[0], ls[0]) && exists i :: EntriesDecide(ls[1..], rs[1..], i)
  {
    EntryTests(ls[0], rs[0]);
    hide LessThan, Less, EntryBelow, Even;
    if i :| EntriesDecide(ls, rs, i) {
      forall j | 0 <= j < i - 1 ensures ls[1..][j].key == rs[1..][j].key && Even(ls[1..][j].value, rs[1..][j].value) {
        assert ls[j + 1].key == rs[j + 1].key && Even(ls[j + 1].value, rs[j + 1].value);
      }
      assert i > 0 ==> ls[0].key == rs[0].key && Even(ls[0].value, rs[0].value);
      assert EntriesDecide(ls[1..], rs[1..], i - 1);
    }
    if !EntryBelow(rs[0], ls[0]) && exists i :: EntriesDecide(ls[1..], rs[1..], i) {
      var i :| EntriesDecide(ls[1..], rs[1..], i);
      forall j | 0 <= j < i + 1 ensures ls[j].key == rs[j].key && Even(ls[j].value, rs[j].value) {
        if j > 0 { assert ls[1..][j - 1].key == rs[1..][j - 1].key && Even(ls[1..][j - 1].value, rs[1..][j - 1].value); }
      }
      assert EntriesDecide(ls, rs, i + 1);
    }
  }

  // ---- equality inside lists and maps ----

  lemma {:induction false} ListsEqual(ls: seq<Json>, rs: seq<Json>)
    ensures Equals(List(ls), List(rs)) <==> |ls| == |rs| && forall i :: 0 <= i < |ls| ==> Equals(ls[i], rs[i])
    decreases |ls|
  {
    assert Equals(List(ls), List(rs)) == (|ls| == |rs| && ItemsEqual(ls, rs));
    if |ls| == |rs| && ls != [] {
      ListsEqual(ls[1..], rs[1..]);
      assert Equals(List(ls[1..]), List(rs[1..])) == ItemsEqual(ls[1..], rs[1..]);
      hide Equals;
      if ItemsEqual(ls, rs) {
        forall i | 0 <= i < |ls| ensures Equals(ls[i], rs[i]) {
          if i > 0 { assert Equals(ls[1..][i - 1], rs[1..][i - 1]); }
        }
      }
    }
  }

  /** In maps, the same keys in the same places, and equal values under them. */
  lemma {:induction false} MapsEqual(ls: seq<Entry>, rs: seq<Entry>)
    ensures Equals(Map(ls), Map(rs)) <==>
      |ls| == |rs| && forall i :: 0 <= i < |ls| ==> ls[i].key == rs[i].key && Equals(ls[i].value, rs[i].value)
    decreases |ls|
  {
    assert Equals(Map(ls), Map(rs)) == (|ls| == |rs| && EntriesEqual(ls, rs));
    if |ls| == |rs| && ls != [] {
      MapsEqual(ls[1..], rs[1..]);
      assert Equals(Map(ls[1..]), Map(rs[1..])) == EntriesEqual(ls[1..], rs[1..]);
      hide Equals;
      if EntriesEqual(ls, rs) {
        forall i | 0 <= i < |ls| ensures ls[i].key == rs[i].key && Equals(ls[i].value, rs[i].value) {
          if i > 0 { assert ls[1..][i - 1].key == rs[1..][i - 1].key && Equals(ls[1..][i - 1].value, rs[1..][i - 1].value); }
        }
      }
    }
  }
}
