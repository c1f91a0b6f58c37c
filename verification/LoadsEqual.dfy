/** Which values `string_to_json(json_to_string(v)) == v` holds of, in the sense of the program's own `==`. */
module LoadsEqual {
  import opened Strings
  import opened Decimal
  import opened JsonValue
  import opened JsonOrder
  import opened Render
  import opened TreeBuilder
  import opened Parsing
  import opened RoundTrip
  import opened FixedPoint
  import E = Events
  import RS = ReaderSpec

  /** What the text must keep of a value for `==`: named keys, big numbers without a float mark, in the int64
      window or not, and doubles that are written with a mark and read back as themselves. Grafts are free. */
  ghost predicate Survives(libc: Libc, v: Json) {
    match v
    case Double(r) => Pointed(libc.show(r)) && libc.scan(libc.show(r)) == r
    case Big(n) => !Pointed(n)
    case Map(es) => forall i :: 0 <= i < |es| ==> es[i].key != "" && Survives(libc, es[i].value)
    case List(xs) => forall i :: 0 <= i < |xs| ==> Survives(libc, xs[i])
    case Graft(t) => Survives(libc, t)
    case _ => true
  }

  /** Every big number consists of the characters of numbers. */
  ghost predicate BigsAreLexemes(v: Json) {
    match v
    case Big(n) => NumberChars(n)
    case Map(es) => forall i :: 0 <= i < |es| ==> BigsAreLexemes(es[i].value)
    case List(xs) => forall i :: 0 <= i < |xs| ==> BigsAreLexemes(xs[i])
    case Graft(t) => BigsAreLexemes(t)
    case _ => true
  }

  lemma {:induction false} LexemesArePrintable(libc: Libc, v: Json)
    requires ProperLibc(libc) && BigsAreLexemes(v)
    ensures Printable(libc, v)
    decreases v
  {
    match v
    case Map(es) =>
      forall i | 0 <= i < |es| ensures Printable(libc, es[i].value) { LexemesArePrintable(libc, es[i].value); }
    case List(xs) =>
      forall i | 0 <= i < |xs| ensures Printable(libc, xs[i]) { LexemesArePrintable(libc, xs[i]); }
    case Graft(t) => LexemesArePrintable(libc, t);
    case _ =>
  }

  // ---- a loaded value that equals `v` shows that the keys of `v` are named ----

  lemma {:induction false} EqualsNamed(w: Json, v: Json)
    requires Image(w) && Equals(w, v)
    ensures NamedKeys(v)
    decreases Weight(w) + Weight(v)
  {
    if v.Graft? {
      EqualsNamed(w, v.target);
    } else if v.Map? {
      EntriesNamed(w.entries, v.entries);
    } else if v.List? {
      ItemsNamed(w.items, v.items);
    }
  }

  lemma {:induction false} ItemsNamed(ws: seq<Json>, vs: seq<Json>)
    requires |ws| == |vs| && ItemsEqual(ws, vs) && forall i :: 0 <= i < |ws| ==> Image(ws[i])
    ensures forall i :: 0 <= i < |vs| ==> NamedKeys(vs[i])
    decreases ItemsWeight(ws) + ItemsWeight(vs)
  {
    hide Image, Equals, NamedKeys;
    if ws != [] {
      EqualsNamed(ws[0], vs[0]);
      ItemsNamed(ws[1..], vs[1..]);
    }
  }

  lemma {:induction false} EntriesNamed(ws: seq<Entry>, vs: seq<Entry>)
    requires |ws| == |vs| && EntriesEqual(ws, vs)
    requires forall i :: 0 <= i < |ws| ==> ws[i].key != "" && Image(ws[i].value)
    ensures forall i :: 0 <= i < |vs| ==> vs[i].key != "" && NamedKeys(vs[i].value)
    decreases EntriesWeight(ws) + EntriesWeight(vs)
  {
    hide Image, Equals, NamedKeys;
    if ws != [] {
      EqualsNamed(ws[0].value, vs[0].value);
      EntriesNamed(ws[1..], vs[1..]);
    }
  }

  // ---- the norm equals the value exactly when it survives ----

  lemma ScalarNormEquals(libc: Libc, v: Json)
    requires Storable(libc, v) && !v.Map? && !v.List? && !v.Graft?
    ensures !Norm(libc, v).Graft? && (Equals(Norm(libc, v), v) <==> Survives(libc, v))
  {
    if v.Double? { MarkExactly(libc.show(v.r)); }
    if v.Big? { MarkExactly(v.digits); }
    hide HasFloatMark, Pointed, InWindow, Atoll;
  }

  lemma {:induction false} NormEquals(libc: Libc, v: Json)
    requires Storable(libc, v)
    ensures !Norm(libc, v).Graft? && (Equals(Norm(libc, v), v) <==> Survives(libc, v))
    decreases v, 1, 0
  {
    match v
    case Map(es) =>
      NormEntriesEqual(libc, es, 0);
      assert es[0..] == es;
    case List(xs) =>
      NormItemsEqual(libc, xs, 0);
      assert xs[0..] == xs;
    case Graft(t) => NormEquals(libc, t);
    case _ => ScalarNormEquals(libc, v);
  }

  lemma {:induction false} NormItemsEqual(libc: Libc, xs: seq<Json>, i: nat)
    requires i <= |xs| && forall j :: 0 <= j < |xs| ==> Storable(libc, xs[j])
    ensures ItemsEqual(NormItems(libc, xs, i), xs[i..]) <==> forall j :: i <= j < |xs| ==> Survives(libc, xs[j])
    decreases xs, 0, |xs| - i
  {
    hide Storable, Norm, Equals, Survives;
    if i < |xs| {
      NormEquals(libc, xs[i]);
      NormItemsEqual(libc, xs, i + 1);
      assert NormItems(libc, xs, i)[1..] == NormItems(libc, xs, i + 1) && xs[i..][1..] == xs[i + 1..];
    }
  }

  lemma {:induction false} NormEntriesEqual(libc: Libc, es: seq<Entry>, i: nat)
    requires i <= |es| && forall j :: 0 <= j < |es| ==> Storable(libc, es[j].value)
    ensures EntriesEqual(NormEntries(libc, es, i), es[i..]) <==> forall j :: i <= j < |es| ==> Survives(libc, es[j].value)
    decreases es, 0, |es| - i
  {
    hide Storable, Norm, Equals, Survives;
    if i < |es| {
      NormEquals(libc, es[i].value);
      NormEntriesEqual(libc, es, i + 1);
      assert NormEntries(libc, es, i)[1..] == NormEntries(libc, es, i + 1) && es[i..][1..] == es[i + 1..];
    }
  }

  lemma {:induction false} SurvivorsAreNamed(libc: Libc, v: Json)
    requires Survives(libc, v)
    ensures NamedKeys(v)
    decreases v
  {
    match v
    case Map(es) =>
      forall i | 0 <= i < |es| ensures NamedKeys(es[i].value) { SurvivorsAreNamed(libc, es[i].value); }
    case List(xs) =>
      forall i | 0 <= i < |xs| ensures NamedKeys(xs[i]) { SurvivorsAreNamed(libc, xs[i]); }
    case Graft(t) => SurvivorsAreNamed(libc, t);
    case _ =>
  }

  /** Parsing undoes printing up to `==`, for a map or a list whose big numbers consist of number characters, if
      and only if no key is empty, no big number has a float mark and every double survives the C library.
      Grafts and big numbers in the int64 window do no harm. */
  lemma LoadsEqualExactly(libc: Libc, v: Json, pretty: bool)
    requires ProperLibc(libc) && WellFormed(v) && Container(Ungraft(v)) && BigsAreLexemes(v)
    ensures var r := StringToJson(libc, JsonToString(libc, v, pretty));
      (r.Loaded? && Equals(r.v, v)) <==> Survives(libc, v)
  {
    hide StringToJson, JsonToString, Norm, Equals, Survives, ProperLibc, BigsAreLexemes, Ungraft;
    var text := JsonToString(libc, v, pretty);
    var r := StringToJson(libc, text);
    LexemesArePrintable(libc, v);
    if r.Loaded? && Equals(r.v, v) {
      ParseImage(libc, text);
      EqualsNamed(r.v, v);
    }
    if Survives(libc, v) { SurvivorsAreNamed(libc, v); }
    if NamedKeys(v) {
      ParsePrint(libc, v, pretty);
      NormEquals(libc, v);
    }
  }

  // ---- why big numbers have to consist of number characters ----

  /** The reader on "[1 ]". */
  lemma BlankIsSkipped(s: string)
    requires s == "[1 ]"
    ensures RS.ParseText(RS.Lexemes, false, s) == RS.Ok(E.TreeEvents(E.Arr([E.Leaf(E.BigNum("1"))])), "")
  {
    var rest := "1 ]";
    assert s[1..] == rest && rest == "1" + " ]" && " ]"[1..] == "]" && "]"[1..] == "";
    NumberInverse("1", " ]");
    SkipNone("]");
    assert RS.SkipWhitespace(" ]") == "]";
    hide RS.ParseValue;
    assert RS.ParseElements(RS.Lexemes, rest, 0) == RS.Ok([E.BigNum("1")] + [E.EndArray(1)], "");
    assert E.ItemEvents([E.Leaf(E.BigNum("1"))]) == [E.BigNum("1")] by { OneItem(E.Leaf(E.BigNum("1"))); }
    Wrapped(E.StartArray, [E.BigNum("1")], E.EndArray(1));
  }

  lemma OneItem(t: E.Tree)
    ensures E.ItemEvents([t]) == E.TreeEvents(t)
  {
    assert [t][1..] == [];
    assert E.ItemEvents([]) == [];
  }

  lemma OneItemText(libc: Libc, v: Json, text: string)
    requires v == List([Big("1 ")]) && text == JsonToString(libc, v, false)
    ensures text == "[1 ]"
  {
    assert ItemsText(libc, Compact, 1, v.items, 1) == "";
    assert ItemsText(libc, Compact, 1, v.items, 0) == "1 ";
  }

  lemma OneDigit(libc: Libc)
    ensures NumberOf(libc, "1") == Some(Int(1))
    ensures JsonOf(libc, E.Arr([E.Leaf(E.BigNum("1"))])) == List([Int(1)]) && Clean(E.Arr([E.Leaf(E.BigNum("1"))]))
  {
    IntText(libc, 1);
    assert Dec(1) == "1";
    hide NumberOf;
    var xs := [E.Leaf(E.BigNum("1"))];
    assert xs[1..] == [];
    assert ItemsOf(libc, xs) == [Int(1)];
  }

  lemma BlankEquals()
    ensures Equals(List([Int(1)]), List([Big("1 ")]))
  {
    assert Atoll("1 ") == 1 by {
      assert DigitPrefix("1 ") == "1" by { assert "1 "[1..] == " " && DigitPrefix(" ") == ""; }
      assert Value("1") == 1 by { assert "1"[..0] == ""; }
    }
    assert InWindow("1 ");
    hide InWindow, Atoll;
    assert Equals(Int(1), Big("1 "));
    assert [Int(1)][1..] == [] && [Big("1 ")][1..] == [];
  }

  /** A big number with a blank after its digits is no lexeme, and yet its text loads to an equal value: the
      reader skips the blank, and `atoll` stops at it. */
  lemma BlankBigLoadsEqual(libc: Libc)
    ensures var v := List([Big("1 ")]);
      !BigsAreLexemes(v) && StringToJson(libc, JsonToString(libc, v, false)) == Loaded(List([Int(1)])) && Equals(List([Int(1)]), v)
  {
    var v := List([Big("1 ")]);
    var text := JsonToString(libc, v, false);
    var t := E.Arr([E.Leaf(E.BigNum("1"))]);
    assert !BigsAreLexemes(v) by { assert !RS.IsNumberChar("1 "[1]); assert !NumberChars("1 "); assert v.items[0] == Big("1 "); }
    OneItemText(libc, v, text);
    BlankIsSkipped(text);
    OneDigit(libc);
    BuildRoot(libc, t);
    BlankEquals();
  }
}
