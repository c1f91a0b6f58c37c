/** The texts a JSON reader takes, character by character, and the trees they spell: the grammar of RFC 4627, with
    the digits of numbers left to the handler. Nothing here mentions how the reader goes about it. */
module Grammar {
  import opened Decimal
  import opened Unicode
  import E = Events
  import RS = ReaderSpec

  /** One character of a string as it is written: plain, by a two-character escape, or by its code point. */
  datatype Piece =
    | Plain(c: char)
    | Short(letter: char, c: char)
    | Escape(digits: string, codepoint: nat)

  /** A value as it is written. The gap is the blanks in an empty container. */
  datatype Node =
    | NullWord
    | TrueWord
    | FalseWord
    | Number(lexeme: string)
    | Text(pieces: seq<Piece>)
    | Arr(gap: string, items: seq<Item>)
    | Obj(gap: string, members: seq<Member>)

  datatype Item = Item(before: string, value: Node, after: string)

  datatype Member = Member(before: string, name: seq<Piece>, beforeColon: string, afterColon: string, value: Node, after: string)

  /** A whole text: a container between blanks. */
  datatype Doc = Doc(before: string, root: Node, after: string)

  // ---- what is legal ----

  /** The four blanks of section 2. */
  predicate Gap(s: string) {
    forall i :: 0 <= i < |s| ==> s[i] == ' ' || s[i] == '\t' || s[i] == '\n' || s[i] == '\r'
  }

  /** The two-character escapes of section 2.5 and what they stand for. */
  predicate ShortEscape(letter: char, c: char) {
    || (letter == '"' && c == '"')
    || (letter == '\\' && c == '\\')
    || (letter == '/' && c == '/')
    || (letter == 'b' && c as int == 0x08)
    || (letter == 'f' && c as int == 0x0C)
    || (letter == 'n' && c as int == 0x0A)
    || (letter == 'r' && c as int == 0x0D)
    || (letter == 't' && c as int == 0x09)
  }

  /** A code point is escaped as a scalar value is, or, beyond the standard, as a lone low surrogate. */
  predicate LegalPiece(p: Piece) {
    match p
    case Plain(c) => c as int >= 0x20 && c != '"' && c != '\\'
    case Short(letter, c) => ShortEscape(letter, c)
    case Escape(digits, cp) => cp <= 0x10FFFF && !(0xD800 <= cp <= 0xDBFF) && Escapes(digits, cp)
  }

  predicate LegalString(ps: seq<Piece>) {
    forall i :: 0 <= i < |ps| ==> LegalPiece(ps[i])
  }

  predicate NumberLetter(c: char) {
    '0' <= c <= '9' || c == '+' || c == '-' || c == '.' || c == 'e' || c == 'E'
  }

  /** A run of the letters of numbers; beyond the standard it may be any, and even empty. */
  predicate LegalNumber(s: string) {
    forall i :: 0 <= i < |s| ==> NumberLetter(s[i])
  }

  ghost predicate Legal(v: Node) {
    match v
    case Number(l) => LegalNumber(l)
    case Text(ps) => LegalString(ps)
    case Arr(gap, items) =>
      && Gap(gap) && (items != [] ==> gap == "")
      && (|items| == 1 ==> items[0].value != Number(""))
      && forall i :: 0 <= i < |items| ==> LegalItem(items[i])
    case Obj(gap, members) =>
      && Gap(gap) && (members != [] ==> gap == "")
      && forall i :: 0 <= i < |members| ==> LegalMember(members[i])
    case _ => true
  }

  ghost predicate LegalItem(x: Item) {
    Gap(x.before) && Legal(x.value) && Gap(x.after)
  }

  ghost predicate LegalMember(m: Member) {
    && Gap(m.before) && LegalString(m.name) && Gap(m.beforeColon) && Gap(m.afterColon) && Legal(m.value) && Gap(m.after)
  }

  ghost predicate LegalDoc(d: Doc) {
    Gap(d.before) && Legal(d.root) && (d.root.Arr? || d.root.Obj?) && Gap(d.after)
  }

  // ---- how it is written ----

  function PieceText(p: Piece): string {
    match p
    case Plain(c) => [c]
    case Short(letter, _) => ['\\', letter]
    case Escape(digits, _) => "\\u" + digits
  }

  function PiecesText(ps: seq<Piece>): string {
    if ps == [] then "" else PieceText(ps[0]) + PiecesText(ps[1..])
  }

  function StringText(ps: seq<Piece>): string {
    "\"" + PiecesText(ps) + "\""
  }

  function Written(v: Node): string
    decreases v, 1
  {
    match v
    case NullWord => "null"
    case TrueWord => "true"
    case FalseWord => "false"
    case Number(l) => l
    case Text(ps) => StringText(ps)
    case Arr(gap, items) => "[" + gap + ItemsText(items) + "]"
    case Obj(gap, members) => "{" + gap + MembersText(members) + "}"
  }

  /** Items with commas between them. */
  function ItemsText(items: seq<Item>): string
    decreases items, 0
  {
    if items == [] then ""
    else ItemText(items[0]) + (if |items| == 1 then "" else ",") + ItemsText(items[1..])
  }

  function ItemText(x: Item): string
    decreases x, 2
  {
    x.before + Written(x.value) + x.after
  }

  function MembersText(members: seq<Member>): string
    decreases members, 0
  {
    if members == [] then ""
    else MemberText(members[0]) + (if |members| == 1 then "" else ",") + MembersText(members[1..])
  }

  function MemberText(m: Member): string
    decreases m, 2
  {
    m.before + StringText(m.name) + m.beforeColon + ":" + m.afterColon + Written(m.value) + m.after
  }

  function DocText(d: Doc): string {
    d.before + Written(d.root) + d.after
  }

  // ---- what it spells ----

  function PieceChars(p: Piece): string {
    match p
    case Plain(c) => [c]
    case Short(_, c) => [c]
    case Escape(_, cp) => if cp <= 0x10FFFF then RS.Utf8(cp) else ""
  }

  function Chars(ps: seq<Piece>): string {
    if ps == [] then "" else PieceChars(ps[0]) + Chars(ps[1..])
  }

  function Tree(v: Node): E.Tree
    decreases v, 1
  {
    match v
    case NullWord => E.Leaf(E.Null)
    case TrueWord => E.Leaf(E.Bool(true))
    case FalseWord => E.Leaf(E.Bool(false))
    case Number(l) => E.Leaf(E.BigNum(l))
    case Text(ps) => E.Leaf(E.String(Chars(ps)))
    case Arr(_, items) => E.Arr(Trees(items))
    case Obj(_, members) => E.Obj(Members(members))
  }

  function Trees(items: seq<Item>): (ts: seq<E.Tree>)
    ensures |ts| == |items|
    decreases items, 0
  {
    if items == [] then [] else [Tree(items[0].value)] + Trees(items[1..])
  }

  function Members(members: seq<Member>): (ms: seq<E.Member>)
    ensures |ms| == |members|
    decreases members, 0
  {
    if members == [] then []
    else [E.Member(Chars(members[0].name), Tree(members[0].value))] + Members(members[1..])
  }
}
