/** The SAX events that flow from a reader to a handler, and the trees they spell out. */
module Events {
  import opened Decimal

  datatype Event =
    | Null
    | Bool(b: bool)
    | BigNum(lexeme: string)
    | Int(i: int32)
    | Uint(u: uint32)
    | Int64(i64: int64)
    | Uint64(u64: uint64)
    | Double(r: real)
    | String(s: string)
    | StartObject
    | EndObject(memberCount: nat)
    | StartArray
    | EndArray(elementCount: nat)

  predicate IsNumber(e: Event) {
    e.BigNum? || e.Int? || e.Uint? || e.Int64? || e.Uint64? || e.Double?
  }

  /** Events that deliver a whole value on their own. */
  predicate IsScalar(e: Event) {
    e.Null? || e.Bool? || e.String? || IsNumber(e)
  }

  /** The structure behind a balanced event sequence. */
  datatype Tree =
    | Leaf(e: Event)
    | Obj(members: seq<Member>)
    | Arr(items: seq<Tree>)

  datatype Member = Member(name: string, value: Tree)

  predicate IsContainer(t: Tree) { t.Obj? || t.Arr? }

  /** The balanced event sequence of a tree: keys and values alternate, the end event carries the count. */
  function TreeEvents(t: Tree): seq<Event>
    decreases t, 1
  {
    match t
    case Leaf(e) => [e]
    case Obj(ms) => [StartObject] + MemberEvents(ms) + [EndObject(|ms|)]
    case Arr(xs) => [StartArray] + ItemEvents(xs) + [EndArray(|xs|)]
  }

  function MemberEvents(ms: seq<Member>): seq<Event>
    decreases ms, 0
  {
    if ms == [] then []
    else [String(ms[0].name)] + TreeEvents(ms[0].value) + MemberEvents(ms[1..])
  }

  function ItemEvents(xs: seq<Tree>): seq<Event>
    decreases xs, 0
  {
    if xs == [] then [] else TreeEvents(xs[0]) + ItemEvents(xs[1..])
  }
}
