/** `Writer` and `PrettyWriter`: printers driven by a stack of levels, and the visitor that feeds them. */
module JsonWriter {
  import opened Strings
  import opened Decimal
  import opened JsonValue
  import opened Render

  /** One open container: its kind and the number of values written into it; a key counts as a value. */
  datatype Level = Level(inArray: bool, valueCount: nat)

  /** The value kinds the assertions of `Prefix` tell apart. */
  datatype Kind = StringKind | ContainerKind | OtherKind

  /** The assertions of `Prefix` and `PrettyPrefix`: a container at the root, a string where a key belongs. */
  predicate Accepts(levels: seq<Level>, kind: Kind) {
    if levels == [] then kind.ContainerKind?
    else
      var top := levels[|levels| - 1];
      !top.inArray && top.valueCount % 2 == 0 ==> kind.StringKind?
  }

  /** The separator due before the next value. */
  function Lead(style: Style, levels: seq<Level>, big: bool): string {
    if levels == [] then ""
    else
      var top := levels[|levels| - 1];
      Separator(style, |levels|, top.inArray, top.valueCount, big)
  }

  /** One more value on the innermost level. */
  function Bumped(levels: seq<Level>): seq<Level> {
    if levels == [] then []
    else
      var top := levels[|levels| - 1];
      levels[..|levels| - 1] + [top.(valueCount := top.valueCount + 1)]
  }

  class Writer {
    const style: Style
    const libc: Libc
    var levels: seq<Level>
    var out: string

    constructor (libc: Libc, style: Style)
      requires ProperStyle(style)
      ensures this.libc == libc && this.style == style && levels == [] && out == ""
    {
      this.libc := libc;
      this.style := style;
      levels := [];
      out := "";
    }

    method Put(c: char)
      modifies this`out
      ensures out == old(out) + [c]
    {
      out := out + [c];
    }

    method PutN(c: char, n: nat)
      modifies this`out
      ensures out == old(out) + Repeat(c, n)
    {
      out := out + Repeat(c, n);
    }

    method PutAll(s: string)
      modifies this`out
      ensures out == old(out) + s
    {
      for i := 0 to |s|
        invariant out == old(out) + s[..i]
      {
        Put(s[i]);
        assert s[..i + 1] == s[..i] + [s[i]];
      }
      assert s[..|s|] == s;
    }

    method WriteIndent()
      requires style.Pretty?
      modifies this`out
      ensures out == old(out) + Indent(style, |levels|)
    {
      PutN(style.indentChar, |levels| * style.indentCount);
    }

    /** The base class's `Prefix`. */
    method Prefix(kind: Kind)
      requires Accepts(levels, kind)
      modifies this
      ensures levels == Bumped(old(levels))
      ensures out == old(out) + Lead(Compact, old(levels), true)
    {
      if levels != [] {
        var level := levels[|levels| - 1];
        if level.valueCount > 0 {
          if level.inArray {
            Put(',');
          } else {
            Put(if level.valueCount % 2 == 0 then ',' else ':');
          }
        }
        if !level.inArray && level.valueCount % 2 == 0 { assert kind.StringKind?; }
        levels := levels[|levels| - 1 := level.(valueCount := level.valueCount + 1)];
      } else {
        assert kind.ContainerKind?;
      }
    }

    /** `PrettyPrefix`. */
    method PrettyPrefix(kind: Kind)
      requires style.Pretty? && Accepts(levels, kind)
      modifies this
      ensures levels == Bumped(old(levels))
      ensures out == old(out) + Lead(style, old(levels), false)
    {
      if levels != [] {
        var level := levels[|levels| - 1];
        if level.inArray {
          if level.valueCount > 0 {
            Put(',');
            Put('\n');
          } else {
            Put('\n');
          }
          WriteIndent();
        } else {
          if level.valueCount > 0 {
            if level.valueCount % 2 == 0 {
              Put(',');
              Put('\n');
            } else {
              Put(':');
              Put(' ');
            }
          } else {
            Put('\n');
          }
          if level.valueCount % 2 == 0 {
            WriteIndent();
          }
        }
        if !level.inArray && level.valueCount % 2 == 0 { assert kind.StringKind?; }
        levels := levels[|levels| - 1 := level.(valueCount := level.valueCount + 1)];
      } else {
        assert kind.ContainerKind?;
      }
    }

    /** The prefix each writer uses for everything but big numbers. */
    method AnyPrefix(kind: Kind)
      requires Accepts(levels, kind)
      modifies this
      ensures levels == Bumped(old(levels))
      ensures out == old(out) + Lead(style, old(levels), false)
    {
      if style.Compact? {
        Prefix(kind);
      } else {
        PrettyPrefix(kind);
      }
    }

    method Null()
      requires Accepts(levels, OtherKind)
      modifies this
      ensures levels == Bumped(old(levels)) && out == old(out) + Lead(style, old(levels), false) + "null"
    {
      AnyPrefix(OtherKind);
      PutAll("null");
    }

    method Bool(b: bool)
      requires Accepts(levels, OtherKind)
      modifies this
      ensures levels == Bumped(old(levels))
      ensures out == old(out) + Lead(style, old(levels), false) + if b then "true" else "false"
    {
      AnyPrefix(OtherKind);
      PutAll(if b then "true" else "false");
    }

    method Int64(i: int64)
      requires Accepts(levels, OtherKind)
      modifies this
      ensures levels == Bumped(old(levels)) && out == old(out) + Lead(style, old(levels), false) + Dec(i)
    {
      AnyPrefix(OtherKind);
      WriteInt64(i);
    }

    method Double(d: real)
      requires Accepts(levels, OtherKind)
      modifies this
      ensures levels == Bumped(old(levels)) && out == old(out) + Lead(style, old(levels), false) + libc.show(d)
    {
      AnyPrefix(OtherKind);
      PutAll(libc.show(d));
    }

    method BigInt(digits: string)
      requires Accepts(levels, OtherKind)
      modifies this
      ensures levels == Bumped(old(levels)) && out == old(out) + Lead(style, old(levels), true) + digits
    {
      Prefix(OtherKind);
      PutAll(digits);
    }

    method String(s: string)
      requires Accepts(levels, StringKind)
      modifies this
      ensures levels == Bumped(old(levels)) && out == old(out) + Lead(style, old(levels), false) + Quoted(s)
    {
      AnyPrefix(StringKind);
      WriteString(s);
    }

    method StartObject()
      requires Accepts(levels, ContainerKind)
      modifies this
      ensures levels == Bumped(old(levels)) + [Level(false, 0)]
      ensures out == old(out) + Lead(style, old(levels), false) + "{"
    {
      AnyPrefix(ContainerKind);
      levels := levels + [Level(false, 0)];
      Put('{');
    }

    method EndObject()
      requires levels != [] && !levels[|levels| - 1].inArray
      modifies this
      ensures levels == old(levels[..|levels| - 1])
      ensures out == old(out) + Closing(style, |levels|, old(levels[|levels| - 1].valueCount) == 0) + "}"
    {
      var empty := levels[|levels| - 1].valueCount == 0;
      levels := levels[..|levels| - 1];
      if style.Pretty? && !empty {
        Put('\n');
        WriteIndent();
      }
      Put('}');
    }

    method StartArray()
      requires Accepts(levels, ContainerKind)
      modifies this
      ensures levels == Bumped(old(levels)) + [Level(true, 0)]
      ensures out == old(out) + Lead(style, old(levels), false) + "["
    {
      AnyPrefix(ContainerKind);
      levels := levels + [Level(true, 0)];
      Put('[');
    }

    method EndArray()
      requires levels != [] && levels[|levels| - 1].inArray
      modifies this
      ensures levels == old(levels[..|levels| - 1])
      ensures out == old(out) + Closing(style, |levels|, old(levels[|levels| - 1].valueCount) == 0) + "]"
    {
      var empty := levels[|levels| - 1].valueCount == 0;
      levels := levels[..|levels| - 1];
      if style.Pretty? && !empty {
        Put('\n');
        WriteIndent();
      }
      Put(']');
    }

    /** `-i64` in two's complement: the least integer is its own negation, and its bits read as 2^63. */
    method WriteInt64(i: int64)
      modifies this`out
      ensures out == old(out) + Dec(i)
    {
      var i64: int64 := i;
      if i64 < 0 {
        Put('-');
        i64 := if i64 == -0x8000_0000_0000_0000 then i64 else -i64;
      }
      WriteUint64(if i64 < 0 then i64 + 0x1_0000_0000_0000_0000 else i64);
    }

    method WriteUint64(u: uint64)
      modifies this`out
      ensures out == old(out) + Digits(u)
    {
      hide Digits;
      var buffer := new char[20];
      var p := CollectDigits(buffer, u);
      EmitDigits(buffer, p);
    }

    /** The second loop of `WriteUint64`: out in reverse. */
    method EmitDigits(buffer: array<char>, n: nat)
      requires n <= buffer.Length
      modifies this`out
      ensures out == old(out) + Reversed(buffer[..n])
    {
      hide Reversed;
      var p := n;
      while p != 0
        invariant 0 <= p <= n
        invariant out + Reversed(buffer[..p]) == old(out) + Reversed(buffer[..n])
      {
        p := p - 1;
        assert buffer[..p + 1] == buffer[..p] + [buffer[p]];
        ReversedSnoc(buffer[..p], buffer[p]);
        assert out + ([buffer[p]] + Reversed(buffer[..p])) == out + [buffer[p]] + Reversed(buffer[..p]);
        Put(buffer[p]);
      }
      assert Reversed(buffer[..0]) == "" by { ReversedNone(buffer[..0]); }
      assert out + "" == out;
    }

    /** The first loop of `WriteUint64`: digits are collected backwards, and twenty places always suffice. */
    static method CollectDigits(buffer: array<char>, u: uint64) returns (p: nat)
      requires buffer.Length == 20
      modifies buffer
      ensures p <= 20 && Reversed(buffer[..p]) == Digits(u)
    {
      hide Digits, Pow10, DigitChar, Reversed;
      var rest := u;
      p := 0;
      ghost var tail := "";
      PowZero(u, buffer[..0]);
      while true
        invariant 0 <= p < 20 && 0 <= rest && rest * Pow10(p) <= u
        invariant tail == Reversed(buffer[..p]) && Digits(u) == Digits(rest) + tail
        decreases rest
      {
        var d := rest % 10;
        buffer[p] := DigitChar(d);
        assert buffer[..p + 1] == buffer[..p] + [DigitChar(d)];
        ReversedSnoc(buffer[..p], DigitChar(d));
        DigitsSplit(rest, tail);
        NextPower(rest, p, u);
        tail := [DigitChar(d)] + tail;
        p := p + 1;
        rest := rest / 10;
        if rest == 0 {
          break;
        }
        BufferBound(rest, p, u);
      }
    }

    method WriteString(s: string)
      modifies this`out
      ensures out == old(out) + Quoted(s)
    {
      hide EscapeChar;
      Put('"');
      var i := 0;
      assert s[0..] == s;
      while i != |s|
        invariant 0 <= i <= |s|
        invariant out + Escaped(s[i..]) == old(out) + "\"" + Escaped(s)
      {
        assert s[i..][1..] == s[i + 1..];
        assert Escaped(s[i..]) == EscapeChar(s[i]) + Escaped(s[i + 1..]);
        WriteEscaped(s[i]);
        i := i + 1;
      }
      assert s[i..] == "" && Escaped("") == "";
      assert out + "" == out;
      assert old(out) + "\"" + Escaped(s) == old(out) + ("\"" + Escaped(s));
      Put('"');
      assert out == old(out) + ("\"" + Escaped(s) + "\"");
    }

    /** The body of the loop in `WriteString`. */
    method WriteEscaped(c: char)
      modifies this`out
      ensures out == old(out) + EscapeChar(c)
    {
      var e := EscapeOf(c);
      if e != '\0' {
        Put('\\');
        Put(e);
        if e == 'u' {
          Put('0');
          Put('0');
          Put(HEX_DIGITS[c as int / 16 % 16]);
          Put(HEX_DIGITS[c as int % 16]);
        }
      } else {
        Put(c);
      }
    }
  }

  // ---- the digit buffer ----

  function Reversed(s: string): string
    decreases |s|
  {
    if s == "" then "" else [s[|s| - 1]] + Reversed(s[..|s| - 1])
  }

  lemma ReversedSnoc(s: string, c: char)
    ensures Reversed(s + [c]) == [c] + Reversed(s)
  {
    assert (s + [c])[..|s|] == s;
  }

  lemma ReversedNone(s: string)
    requires s == ""
    ensures Reversed(s) == ""
  {
  }

  lemma DigitsSplit(n: nat, tail: string)
    ensures n / 10 > 0 ==> Digits(n) + tail == Digits(n / 10) + ([DigitChar(n % 10)] + tail)
    ensures n / 10 == 0 ==> Digits(n) + tail == [DigitChar(n % 10)] + tail
  {
  }

  lemma PowZero(u: nat, none: string)
    requires none == ""
    ensures u * Pow10(0) == u && Reversed(none) == "" && Digits(u) + "" == Digits(u)
  {
  }

  lemma NextPower(rest: nat, p: nat, u: nat)
    requires rest * Pow10(p) <= u
    ensures rest / 10 * Pow10(p + 1) <= u
  {
    var q, w := rest / 10, Pow10(p);
    assert q * (10 * w) == (q * 10) * w;
    assert rest == q * 10 + rest % 10;
    assert rest * w == (q * 10) * w + rest % 10 * w;
  }

  /** 2^64 has twenty digits: with a digit still to come, the buffer is not full. */
  lemma BufferBound(rest: nat, p: nat, u: uint64)
    requires rest > 0 && rest * Pow10(p) <= u
    ensures p < 20
  {
    var twenty := 20;
    TwentyDigits(u, twenty);
    Scaled(0, rest, Pow10(p));
    if p >= twenty { PowMonotone(twenty, p); }
  }

  // ---- the visitor ----

  function KindOf(v: Json): Kind {
    match v
    case Str(_) => StringKind
    case Map(_) => ContainerKind
    case List(_) => ContainerKind
    case Graft(t) => KindOf(t)
    case _ => OtherKind
  }

  /** A value, not a key, may come next. */
  predicate WantsValue(levels: seq<Level>) {
    levels != [] && (var top := levels[|levels| - 1]; top.inArray || top.valueCount % 2 == 1)
  }

  /** `rapid_json_printer`. Its calls meet the writer's assertions at every step. */
  method Print(w: Writer, v: Json)
    requires WantsValue(w.levels) || (w.levels == [] && KindOf(v).ContainerKind?)
    modifies w
    ensures w.levels == Bumped(old(w.levels))
    ensures w.out == old(w.out) + Lead(w.style, old(w.levels), Ungraft(v).Big?) + Text(w.libc, w.style, |old(w.levels)|, v)
    decreases v, 1
  {
    match v
    case Null => w.Null();
    case Bool(b) => w.Bool(b);
    case Int(i) => w.Int64(i);
    case Double(r) => w.Double(r);
    case Str(s) => w.String(s);
    case Big(n) => w.BigInt(n);
    case Map(es) => PrintMap(w, v);
    case List(xs) => PrintList(w, v);
    case Graft(t) => Print(w, t);
  }

  lemma AcceptsContainer(levels: seq<Level>)
    requires WantsValue(levels) || levels == []
    ensures Accepts(levels, ContainerKind)
  {
  }

  lemma ListText(libc: Libc, style: Style, d: nat, xs: seq<Json>, before: string)
    ensures before + "[" + ItemsText(libc, style, d + 1, xs, 0) + Closing(style, d, xs == []) + "]"
      == before + Text(libc, style, d, List(xs))
  {
    hide ItemsText, Closing;
  }

  lemma MapText(libc: Libc, style: Style, d: nat, es: seq<Entry>, before: string)
    ensures before + "{" + EntriesText(libc, style, d + 1, es, 0) + Closing(style, d, es == []) + "}"
      == before + Text(libc, style, d, Map(es))
  {
    hide EntriesText, Closing;
  }

  lemma ItemsStep(libc: Libc, style: Style, d: nat, xs: seq<Json>, i: nat, before: string)
    requires i < |xs|
    ensures before + ItemsText(libc, style, d, xs, i)
      == before + Separator(style, d, true, i, Ungraft(xs[i]).Big?) + Text(libc,
        style, d, xs[i]) + ItemsText(libc, style, d, xs, i + 1)
  {
    hide Text, Separator, Ungraft;
  }

  lemma EntriesStep(libc: Libc, style: Style, d: nat, es: seq<Entry>, i: nat, before: string)
    requires i < |es|
    ensures before + EntriesText(libc, style, d, es, i)
      == before + Separator(style, d, false, 2 * i, false) + Quoted(es[i].key)
         + Separator(style, d, false, 2 * i + 1, Ungraft(es[i].value).Big?) + Text(libc, style, d, es[i].value)
         + EntriesText(libc, style, d, es, i + 1)
  {
    hide Text, Separator, Ungraft, Quoted;
  }

  method PrintList(w: Writer, v: Json)
    requires v.List? && (WantsValue(w.levels) || w.levels == [])
    modifies w
    ensures w.levels == Bumped(old(w.levels))
    ensures w.out == old(w.out) + Lead(w.style, old(w.levels), false) + Text(w.libc, w.style, |old(w.levels)|, v)
    decreases v, 0
  {
    ghost var outer := Bumped(w.levels);
    assert |outer| == |w.levels|;
    AcceptsContainer(w.levels);
    hide Text, ItemsText, Closing, Lead, Bumped, Accepts, WantsValue;
    w.StartArray();
    PrintItems(w, v, outer);
    w.EndArray();
    ListText(w.libc, w.style, |outer|, v.items, old(w.out) + Lead(w.style, old(w.levels), false));
  }

  /** The loop over a list, between its brackets. */
  method PrintItems(w: Writer, v: Json, ghost outer: seq<Level>)
    requires v.List? && w.levels == outer + [Level(true, 0)]
    modifies w
    ensures w.levels == outer + [Level(true, |v.items|)]
    ensures w.out == old(w.out) + ItemsText(w.libc, w.style, |w.levels|, v.items, 0)
    decreases v, 0, 0
  {
    hide Separator, Accepts, Text, ItemsText;
    var xs := v.items;
    ghost var d := |w.levels|;
    for i := 0 to |xs|
      invariant w.levels == outer + [Level(true, i)]
      invariant w.out + ItemsText(w.libc, w.style, d, xs, i) == old(w.out) + ItemsText(w.libc, w.style, d, xs, 0)
    {
      ItemsStep(w.libc, w.style, d, xs, i, w.out);
      Print(w, xs[i]);
    }
    assert ItemsText(w.libc, w.style, d, xs, |xs|) == "" by { NoItems(w.libc, w.style, d, xs); }
  }

  lemma NoItems(libc: Libc, style: Style, d: nat, xs: seq<Json>)
    ensures ItemsText(libc, style, d, xs, |xs|) == ""
  {
  }

  lemma NoEntries(libc: Libc, style: Style, d: nat, es: seq<Entry>)
    ensures EntriesText(libc, style, d, es, |es|) == ""
  {
  }

  method PrintMap(w: Writer, v: Json)
    requires v.Map? && (WantsValue(w.levels) || w.levels == [])
    modifies w
    ensures w.levels == Bumped(old(w.levels))
    ensures w.out == old(w.out) + Lead(w.style, old(w.levels), false) + Text(w.libc, w.style, |old(w.levels)|, v)
    decreases v, 0
  {
    ghost var outer := Bumped(w.levels);
    assert |outer| == |w.levels|;
    AcceptsContainer(w.levels);
    hide Text, EntriesText, Closing, Lead, Bumped, Accepts, WantsValue;
    w.StartObject();
    PrintEntries(w, v, outer);
    w.EndObject();
    MapText(w.libc, w.style, |outer|, v.entries, old(w.out) + Lead(w.style, old(w.levels), false));
  }

  /** The loop over a map, between its braces. */
  method PrintEntries(w: Writer, v: Json, ghost outer: seq<Level>)
    requires v.Map? && w.levels == outer + [Level(false, 0)]
    modifies w
    ensures w.levels == outer + [Level(false, 2 * |v.entries|)]
    ensures w.out == old(w.out) + EntriesText(w.libc, w.style, |w.levels|, v.entries, 0)
    decreases v, 0, 0
  {
    hide Separator, Text, EntriesText, Quoted;
    var es := v.entries;
    ghost var d := |w.levels|;
    for i := 0 to |es|
      invariant w.levels == outer + [Level(false, 2 * i)]
      invariant w.out + EntriesText(w.libc, w.style, d, es, i) == old(w.out) + EntriesText(w.libc, w.style, d, es, 0)
    {
      EntriesStep(w.libc, w.style, d, es, i, w.out);
      w.String(es[i].key);
      Print(w, es[i].value);
    }
    assert EntriesText(w.libc, w.style, d, es, |es|) == "" by { NoEntries(w.libc, w.style, d, es); }
  }

  /** `json_to_string`: appends the text of a value that is, behind its grafts, a map or a list. */
  method JsonToString(libc: Libc, appendTo: string, v: Json, pretty: bool) returns (text: string)
    requires KindOf(v).ContainerKind?
    ensures text == appendTo + Text(libc, if pretty then PRETTY else Compact, 0, v)
  {
    hide Text, Ungraft;
    var style := if pretty then PRETTY else Compact;
    var w := new Writer(libc, style);
    Print(w, v);
    text := appendTo + w.out;
  }
}
