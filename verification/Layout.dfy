/** How the written texts look: which blanks and line breaks they hold outside of strings, and how strings are escaped. */
module Layout {
  import opened Strings
  import opened Decimal
  import opened JsonValue
  import opened Render
  import opened Parsing
  import opened RoundTrip
  import Grammar

  // ---- a scanner for the layout ----

  /** Where a scan stands: before a value at a level, behind an opening bracket, a comma or a colon, in the blanks
      behind a line break before a value or before a closing bracket, behind (part of) a value, or in a string. */
  datatype Place =
    | Start(depth: int)
    | Opened(depth: int)
    | Comma(depth: int)
    | Colon(depth: int)
    | Broken(depth: int, blanks: nat)
    | Closing(depth: int, blanks: nat)
    | Behind(depth: int)
    | Quote(depth: int)
    | Escape(depth: int)
    | Wrong

  /** The first character of a value or a name. */
  function Token(d: int, c: char): Place {
    if c == '"' then Quote(d)
    else if c == '{' || c == '[' then Opened(d + 1)
    else if c == '}' || c == ']' || c == ',' || c == ':' || c as int <= 0x20 then Wrong
    else Behind(d)
  }

  /** Behind an opening bracket or a comma: in the plain form the value itself; in the pretty form a line break,
      except before a big number. */
  function Separated(pretty: bool, d: int, c: char): Place {
    if !pretty then Token(d, c)
    else if c == '\n' then Broken(d, 0)
    else if Grammar.NumberLetter(c) then Behind(d)
    else Wrong
  }

  /** One character. In the plain form nothing outside of strings is a blank or a line break. In the pretty form a line
      break comes behind every opening bracket and comma and before every closing bracket, unless the container is
      empty, with two blanks for each level of what follows, and one blank comes behind a colon. */
  function Step(pretty: bool, p: Place, c: char): Place {
    match p
    case Start(d) => Token(d, c)
    case Opened(d) => if c == ']' || c == '}' then Behind(d - 1) else Separated(pretty, d, c)
    case Comma(d) => Separated(pretty, d, c)
    case Colon(d) =>
      if !pretty then Token(d, c)
      else if c == ' ' then Start(d)
      else if Grammar.NumberLetter(c) then Behind(d)
      else Wrong
    case Broken(d, n) =>
      if c == ' ' then Broken(d, n + 1) else if n == 2 * d then Token(d, c) else Wrong
    case Closing(d, n) =>
      if c == ' ' then Closing(d, n + 1)
      else if (c == ']' || c == '}') && n == 2 * (d - 1) then Behind(d - 1)
      else Wrong
    case Behind(d) =>
      if c == ',' then Comma(d)
      else if c == ':' then Colon(d)
      else if c == ']' || c == '}' then (if pretty then Wrong else Behind(d - 1))
      else if c == '\n' && pretty then Closing(d, 0)
      else if c == '"' || c == '{' || c == '[' || c as int <= 0x20 then Wrong
      else Behind(d)
    case Quote(d) => if c == '\\' then Escape(d) else if c == '"' then Behind(d) else if c as int < 0x20 then Wrong else Quote(d)
    case Escape(d) => Quote(d)
    case Wrong => Wrong
  }

  function Scan(pretty: bool, p: Place, s: string): Place
    decreases |s|
  {
    if s == "" then p else Scan(pretty, Step(pretty, p, s[0]), s[1..])
  }

  lemma {:induction false} ScanConcat(pretty: bool, p: Place, a: string, b: string)
    ensures Scan(pretty, p, a + b) == Scan(pretty, Scan(pretty, p, a), b)
    decreases |a|
  {
    hide Step;
    if a == "" {
      assert a + b == b;
    } else {
      ScanConcat(pretty, Step(pretty, p, a[0]), a[1..], b);
      assert (a + b)[1..] == a[1..] + b;
    }
  }

  lemma ScanOne(pretty: bool, p: Place, c: char)
    ensures Scan(pretty, p, [c]) == Step(pretty, p, c)
  {
    hide Step;
    assert [c][1..] == "";
  }

  // ---- strings ----

  /** The written form of a character, as section 2.5 of RFC 4627 has it: a quote, a backslash and the five controls
      with short escapes by those, other controls by four digits, everything else, slashes included, plain. */
  lemma EscapeSpelled(c: char)
    ensures c == '"' ==> EscapeChar(c) == ['\\', '"']
    ensures c == '\\' ==> EscapeChar(c) == ['\\', '\\']
    ensures c as int == 0x08 ==> EscapeChar(c) == "\\b"
    ensures c as int == 0x09 ==> EscapeChar(c) == "\\t"
    ensures c as int == 0x0A ==> EscapeChar(c) == "\\n"
    ensures c as int == 0x0C ==> EscapeChar(c) == "\\f"
    ensures c as int == 0x0D ==> EscapeChar(c) == "\\r"
    ensures c as int < 0x20 && c as int !in {0x08, 0x09, 0x0A, 0x0C, 0x0D} ==>
      var h := c as int / 16; var l := c as int % 16;
      EscapeChar(c) == "\\u00" + [("0123456789ABCDEF")[h], ("0123456789ABCDEF")[l]]
    ensures c as int >= 0x20 && c != '"' && c != '\\' ==> EscapeChar(c) == [c]
  {
  }

  /** A character in a string that is neither a quote nor a backslash nor a control. */
  lemma PlainScanned(pretty: bool, d: int, c: char, rest: string)
    requires c != '\\' && c != '"' && c as int >= 0x20
    ensures Scan(pretty, Quote(d), [c] + rest) == Scan(pretty, Quote(d), rest)
  {
    assert ([c] + rest)[1..] == rest;
  }

  lemma EscapeScanned(pretty: bool, d: int, e: char, rest: string)
    ensures Scan(pretty, Quote(d), ['\\', e] + rest) == Scan(pretty, Quote(d), rest)
  {
    var s := ['\\', e] + rest;
    assert s[1..] == [e] + rest && ([e] + rest)[1..] == rest;
  }

  lemma CharScanned(pretty: bool, d: int, c: char)
    ensures Scan(pretty, Quote(d), EscapeChar(c)) == Quote(d)
  {
    var e := EscapeOf(c);
    ScanNothing(pretty, Quote(d));
    if e == '\0' {
      PlainScanned(pretty, d, c, "");
      assert [c] + "" == [c];
    } else if e == 'u' {
      var x, y := HEX_DIGITS[c as int / 16 % 16], HEX_DIGITS[c as int % 16];
      HexPlain(c as int / 16 % 16);
      HexPlain(c as int % 16);
      assert EscapeChar(c) == ['\\', 'u'] + (['0'] + (['0'] + ([x] + ([y] + ""))));
      hide Scan, EscapeChar, EscapeOf;
      EscapeScanned(pretty, d, 'u', ['0'] + (['0'] + ([x] + ([y] + ""))));
      PlainScanned(pretty, d, '0', ['0'] + ([x] + ([y] + "")));
      PlainScanned(pretty, d, '0', [x] + ([y] + ""));
      PlainScanned(pretty, d, x, [y] + "");
      PlainScanned(pretty, d, y, "");
    } else {
      EscapeScanned(pretty, d, e, "");
      assert ['\\', e] + "" == EscapeChar(c);
    }
  }

  lemma HexPlain(h: nat)
    requires h < 16
    ensures var c := HEX_DIGITS[h]; c != '\\' && c != '"' && c as int >= 0x20
  {
  }

  lemma {:induction false} EscapedScanned(pretty: bool, d: int, s: string)
    ensures Scan(pretty, Quote(d), Escaped(s)) == Quote(d)
    decreases |s|
  {
    hide EscapeChar, Step, Scan;
    if s == "" {
      ScanNothing(pretty, Quote(d));
    } else {
      CharScanned(pretty, d, s[0]);
      EscapedScanned(pretty, d, s[1..]);
      ScanConcat(pretty, Quote(d), EscapeChar(s[0]), Escaped(s[1..]));
    }
  }

  lemma ScanNothing(pretty: bool, p: Place)
    ensures Scan(pretty, p, "") == p
  {
  }

  /** Does a value, or a big number, begin here? */
  predicate Begins(pretty: bool, p: Place, d: int, big: bool) {
    || p == Start(d) || p == Broken(d, if d >= 0 then 2 * d else 0)
    || ((!pretty || big) && (p == Opened(d) || p == Comma(d) || p == Colon(d)))
  }

  lemma QuotedScanned(pretty: bool, p: Place, d: nat, s: string)
    requires Begins(pretty, p, d, false)
    ensures Scan(pretty, p, Quoted(s)) == Behind(d)
  {
    assert Quoted(s) == ['"'] + (Escaped(s) + ['"']);
    EscapedScanned(pretty, d, s);
    ScanConcat(pretty, p, ['"'], Escaped(s) + ['"']);
    ScanConcat(pretty, Quote(d), Escaped(s), ['"']);
    ScanOne(pretty, p, '"');
    ScanOne(pretty, Quote(d), '"');
    hide Scan, Escaped;
  }

  // ---- scalars ----

  lemma LettersAreNumberChars(s: string)
    requires NumberChars(s)
    ensures forall i :: 0 <= i < |s| ==> Grammar.NumberLetter(s[i])
  {
  }

  lemma {:induction false} LettersScanned(pretty: bool, d: int, s: string)
    requires forall i :: 0 <= i < |s| ==> Grammar.NumberLetter(s[i])
    ensures Scan(pretty, Behind(d), s) == Behind(d)
    decreases |s|
  {
    if s != "" { LettersScanned(pretty, d, s[1..]); }
  }

  lemma NumberScanned(pretty: bool, p: Place, d: nat, s: string, big: bool)
    requires Begins(pretty, p, d, big) && NumberText(s)
    ensures Scan(pretty, p, s) == Behind(d)
  {
    LettersAreNumberChars(s);
    LettersScanned(pretty, d, s[1..]);
    assert Step(pretty, p, s[0]) == Behind(d);
  }

  lemma WordScanned(pretty: bool, p: Place, d: nat, s: string)
    requires Begins(pretty, p, d, false) && s != "" && forall i :: 0 <= i < |s| ==> 'a' <= s[i] <= 'z'
    ensures Scan(pretty, p, s) == Behind(d)
  {
    LowerScanned(pretty, d, s[1..]);
    assert Step(pretty, p, s[0]) == Behind(d);
  }

  lemma {:induction false} LowerScanned(pretty: bool, d: int, s: string)
    requires forall i :: 0 <= i < |s| ==> 'a' <= s[i] <= 'z'
    ensures Scan(pretty, Behind(d), s) == Behind(d)
    decreases |s|
  {
    if s != "" { LowerScanned(pretty, d, s[1..]); }
  }

  // ---- separators ----

  function StyleOf(pretty: bool): Style { if pretty then PRETTY else Compact }

  lemma {:induction false} BlanksScanned(pretty: bool, d: int, m: nat, n: nat)
    ensures Scan(pretty, Broken(d, m), Repeat(' ', n)) == Broken(d, m + n)
    ensures Scan(pretty, Closing(d, m), Repeat(' ', n)) == Closing(d, m + n)
    decreases n
  {
    if n > 0 {
      BlanksScanned(pretty, d, m + 1, n - 1);
      assert Repeat(' ', n)[1..] == Repeat(' ', n - 1);
    }
  }

  lemma BreakScanned(pretty: bool, p: Place, d: nat)
    requires pretty && (p == Opened(d) || p == Comma(d))
    ensures Scan(pretty, p, "\n" + Indent(PRETTY, d)) == Broken(d, 2 * d)
  {
    assert Indent(PRETTY, d) == Repeat(' ', 2 * d);
    ScanConcat(pretty, p, ['\n'], Repeat(' ', 2 * d));
    ScanOne(pretty, p, '\n');
    BlanksScanned(pretty, d, 0, 2 * d);
  }

  /** Where a container's values begin: behind the bracket, or behind the value before. */
  function From(d: int, count: nat): Place { if count == 0 then Opened(d) else Behind(d) }

  lemma MarkScanned(pretty: bool, d: int)
    ensures Scan(pretty, Behind(d), ",") == Comma(d) && Scan(pretty, Behind(d), ":") == Colon(d)
  {
    ScanOne(pretty, Behind(d), ',');
    ScanOne(pretty, Behind(d), ':');
  }

  lemma SeparatorScanned(pretty: bool, d: nat, inArray: bool, count: nat, big: bool)
    ensures Begins(pretty, Scan(pretty, From(d, count), Separator(StyleOf(pretty), d, inArray, count, big)), d, big)
  {
    var p, sep := From(d, count), Separator(StyleOf(pretty), d, inArray, count, big);
    var breaks := "\n" + Indent(PRETTY, d);
    MarkScanned(pretty, d);
    ScanNothing(pretty, p);
    if pretty && !big {
      if !inArray && count % 2 == 1 {
        assert sep == ":" + " ";
        ScanConcat(pretty, p, ":", " ");
        ScanOne(pretty, Colon(d), ' ');
      } else if count > 0 {
        assert sep == "," + breaks;
        ScanConcat(pretty, p, ",", breaks);
        BreakScanned(pretty, Comma(d), d);
      } else {
        assert sep == breaks;
        BreakScanned(pretty, p, d);
      }
    }
    hide Scan, Indent;
  }

  lemma ClosingScanned(pretty: bool, d: nat, empty: bool, close: char)
    requires close == ']' || close == '}'
    ensures var p := if empty then Opened(d + 1) else Behind(d + 1);
      Scan(pretty, p, Render.Closing(StyleOf(pretty), d, empty) + [close]) == Behind(d)
  {
    var p, t := if empty then Opened(d + 1) else Behind(d + 1), Render.Closing(StyleOf(pretty), d, empty);
    ScanConcat(pretty, p, t, [close]);
    ScanNothing(pretty, p);
    if pretty && !empty {
      assert Indent(PRETTY, d) == Repeat(' ', 2 * d) && t == ['\n'] + Repeat(' ', 2 * d);
      ScanConcat(pretty, p, ['\n'], Repeat(' ', 2 * d));
      ScanOne(pretty, p, '\n');
      BlanksScanned(pretty, d + 1, 0, 2 * d);
      ScanOne(pretty, Closing(d + 1, 2 * d), close);
    } else {
      ScanOne(pretty, p, close);
    }
    hide Scan, Indent;
  }

  // ---- values ----

  /** A container around the text of its values. */
  lemma ContainerScanned(pretty: bool, p: Place, d: nat, open: char, body: string, empty: bool, close: char)
    requires Begins(pretty, p, d, false) && (open == '[' || open == '{') && (close == ']' || close == '}')
    requires Scan(pretty, Opened(d + 1), body) == if empty then Opened(d + 1) else Behind(d + 1)
    ensures Scan(pretty, p, [open] + body + Render.Closing(StyleOf(pretty), d, empty) + [close]) == Behind(d)
  {
    var t := Render.Closing(StyleOf(pretty), d, empty) + [close];
    assert [open] + body + Render.Closing(StyleOf(pretty), d, empty) + [close] == [open] + (body + t);
    ScanConcat(pretty, p, [open], body + t);
    ScanOne(pretty, p, open);
    ScanConcat(pretty, Opened(d + 1), body, t);
    ClosingScanned(pretty, d, empty, close);
    hide Scan, Render.Closing;
  }

  lemma {:induction false} ValueScanned(libc: Libc, pretty: bool, p: Place, d: nat, v: Json)
    requires Printable(libc, v) && Begins(pretty, p, d, Ungraft(v).Big?)
    ensures Scan(pretty, p, Render.Text(libc, StyleOf(pretty), d, v)) == Behind(d)
    decreases v, 1, 0
  {
    hide Scan, Begins, Render.Closing, Step;
    match v
    case Null => WordScanned(pretty, p, d, "null");
    case Bool(b) => WordScanned(pretty, p, d, if b then "true" else "false");
    case Int(i) => DecIsNumber(i); NumberScanned(pretty, p, d, Dec(i), false);
    case Double(r) => NumberScanned(pretty, p, d, libc.show(r), false);
    case Str(s) => QuotedScanned(pretty, p, d, s);
    case Big(n) => NumberScanned(pretty, p, d, n, true);
    case Map(es) =>
      EntriesScanned(libc, pretty, d + 1, es, 0);
      ContainerScanned(pretty, p, d, '{', EntriesText(libc, StyleOf(pretty), d + 1, es, 0), es == [], '}');
    case List(xs) =>
      ItemsScanned(libc, pretty, d + 1, xs, 0);
      ContainerScanned(pretty, p, d, '[', ItemsText(libc, StyleOf(pretty), d + 1, xs, 0), xs == [], ']');
    case Graft(t) => ValueScanned(libc, pretty, p, d, t);
  }

  lemma {:induction false} ItemsScanned(libc: Libc, pretty: bool, d: nat, xs: seq<Json>, i: nat)
    requires i <= |xs| && forall j :: 0 <= j < |xs| ==> Printable(libc, xs[j])
    ensures Scan(pretty, From(d, i), ItemsText(libc, StyleOf(pretty), d, xs, i)) == From(d, |xs|)
    decreases xs, 0, |xs| - i
  {
    hide Scan, Begins, Step, Separator, Render.Text, Printable;
    if i == |xs| {
      ScanNothing(pretty, From(d, i));
    } else {
      var big := Ungraft(xs[i]).Big?;
      var sep, t := Separator(StyleOf(pretty), d, true, i, big), Render.Text(libc, StyleOf(pretty), d, xs[i]);
      var rest := ItemsText(libc, StyleOf(pretty), d, xs, i + 1);
      SeparatorScanned(pretty, d, true, i, big);
      ValueScanned(libc, pretty, Scan(pretty, From(d, i), sep), d, xs[i]);
      ItemsScanned(libc, pretty, d, xs, i + 1);
      ScanConcat(pretty, From(d, i), sep + t, rest);
      ScanConcat(pretty, From(d, i), sep, t);
    }
  }

  lemma {:induction false} EntriesScanned(libc: Libc, pretty: bool, d: nat, es: seq<Entry>, i: nat)
    requires i <= |es| && forall j :: 0 <= j < |es| ==> Printable(libc, es[j].value)
    ensures Scan(pretty, From(d, i), EntriesText(libc, StyleOf(pretty), d, es, i)) == From(d, |es|)
    decreases es, 0, |es| - i
  {
    hide Scan, Begins, Step, Separator, Render.Text, Printable, Quoted;
    if i == |es| {
      ScanNothing(pretty, From(d, i));
    } else {
      var style, big := StyleOf(pretty), Ungraft(es[i].value).Big?;
      var sep, key := Separator(style, d, false, 2 * i, false), Quoted(es[i].key);
      var colon, t := Separator(style, d, false, 2 * i + 1, big), Render.Text(libc, style, d, es[i].value);
      var rest := EntriesText(libc, style, d, es, i + 1);
      SeparatorScanned(pretty, d, false, 2 * i, false);
      QuotedScanned(pretty, Scan(pretty, From(d, i), sep), d, es[i].key);
      SeparatorScanned(pretty, d, false, 2 * i + 1, big);
      assert es[i].value < es[i];
      ValueScanned(libc, pretty, Scan(pretty, Behind(d), colon), d, es[i].value);
      EntriesScanned(libc, pretty, d, es, i + 1);
      ScanConcat(pretty, From(d, i), sep + key + colon + t, rest);
      ScanConcat(pretty, From(d, i), sep + key + colon, t);
      ScanConcat(pretty, From(d, i), sep + key, colon);
      ScanConcat(pretty, From(d, i), sep, key);
    }
  }

  /** Every written text has exactly that layout, from its first character to its last, and ends where it began. */
  lemma LaidOut(libc: Libc, v: Json, pretty: bool)
    requires Printable(libc, v) && Container(Ungraft(v))
    ensures Scan(pretty, Start(0), JsonToString(libc, v, pretty)) == Behind(0)
  {
    hide Scan, Render.Text;
    ValueScanned(libc, pretty, Start(0), 0, v);
  }
}
