/** The text the writers produce for a value. */
module Render {
  import opened Strings
  import opened Decimal
  import opened JsonValue
  import RS = ReaderSpec

  /** `Writer` or `PrettyWriter` with its indentation. */
  datatype Style = Compact | Pretty(indentChar: char, indentCount: nat)

  /** `SetIndent` asserts that the indentation is white space. */
  predicate ProperStyle(style: Style) {
    style.Compact? || RS.IsBlank(style.indentChar)
  }

  /** `json_to_string(…, pretty)` indents by two blanks. */
  const PRETTY: Style := Pretty(' ', 2)

  function Indent(style: Style, depth: nat): string {
    if style.Compact? then "" else Repeat(style.indentChar, depth * style.indentCount)
  }

  // ---- strings ----

  /** The writer's escape table; '\0' where it has no entry. */
  function EscapeOf(c: char): char {
    if c == '"' then '"'
    else if c == '\\' then '\\'
    else if c >= ' ' then '\0'
    else if c == RS.BACKSPACE then 'b'
    else if c == '\t' then 't'
    else if c == '\n' then 'n'
    else if c == RS.FORM_FEED then 'f'
    else if c == '\r' then 'r'
    else 'u'
  }

  const HEX_DIGITS: string := "0123456789ABCDEF"

  function EscapeChar(c: char): string {
    var e := EscapeOf(c);
    if e == '\0' then [c]
    else if e == 'u' then "\\u00" + [HEX_DIGITS[c as int / 16 % 16], HEX_DIGITS[c as int % 16]]
    else ['\\', e]
  }

  function Escaped(s: string): string
    decreases |s|
  {
    if s == "" then "" else EscapeChar(s[0]) + Escaped(s[1..])
  }

  function Quoted(s: string): string {
    "\"" + Escaped(s) + "\""
  }

  // ---- values ----

  /** The value behind any chain of grafts. */
  function Ungraft(v: Json): Json {
    if v.Graft? then Ungraft(v.target) else v
  }

  /** What goes between values: the text `Prefix` or `PrettyPrefix` writes before the value number `count`
      of a container whose values sit at level `depth`. `BigInt` always uses the plain `Prefix`. */
  function Separator(style: Style, depth: nat, inArray: bool, count: nat, big: bool): string {
    if style.Compact? || big then
      if count == 0 then "" else if inArray || count % 2 == 0 then "," else ":"
    else if inArray then
      (if count > 0 then ",\n" else "\n") + Indent(style, depth)
    else if count % 2 == 1 then ": "
    else (if count > 0 then ",\n" else "\n") + Indent(style, depth)
  }

  /** What comes before the closing bracket of a container at level `depth`. */
  function Closing(style: Style, depth: nat, empty: bool): string {
    if style.Compact? || empty then "" else "\n" + Indent(style, depth)
  }

  /** The text of a value at level `depth`, without what separates it from its neighbours. */
  function Text(libc: Libc, style: Style, depth: nat, v: Json): string
    decreases v, 0, 0
  {
    match v
    case Null => "null"
    case Bool(b) => if b then "true" else "false"
    case Int(i) => Dec(i)
    case Double(r) => libc.show(r)
    case Str(s) => Quoted(s)
    case Big(n) => n
    case Map(es) => "{" + EntriesText(libc, style, depth + 1, es, 0) + Closing(style, depth, es == []) + "}"
    case List(xs) => "[" + ItemsText(libc, style, depth + 1, xs, 0) + Closing(style, depth, xs == []) + "]"
    case Graft(t) => Text(libc, style, depth, t)
  }

  /** The items from `i` on, each with its separator. */
  function ItemsText(libc: Libc, style: Style, depth: nat, xs: seq<Json>, i: nat): string
    requires i <= |xs|
    decreases xs, 1, |xs| - i
  {
    if i == |xs| then ""
    else Separator(style, depth, true, i, Ungraft(xs[i]).Big?) + Text(libc, style, depth, xs[i]) +
         ItemsText(libc, style, depth, xs, i + 1)
  }

  /** The entries from `i` on: key and value are two values each. */
  function EntriesText(libc: Libc, style: Style, depth: nat, es: seq<Entry>, i: nat): string
    requires i <= |es|
    decreases es, 1, |es| - i
  {
    if i == |es| then ""
    else Separator(style, depth, false, 2 * i, false) + Quoted(es[i].key) +
         Separator(style, depth, false, 2 * i + 1, Ungraft(es[i].value).Big?) + Text(libc, style, depth, es[i].value) +
         EntriesText(libc, style, depth, es, i + 1)
  }
}
