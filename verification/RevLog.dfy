/** The revision log: a JSON list whose first item lists conflicting revisions, whose second is reserved, and
    whose other items are [number, identifier, available, deleted]. */
module RevLog {
  import opened Strings
  import opened Decimal
  import opened JsonValue
  import opened Revision

  datatype Quad = Quad(num: uint32, uniq: string, available: bool, deleted: bool)

  /** What a well-formed log says; the last quad is the top. */
  datatype Log = Log(conflicts: seq<string>, quads: seq<Quad>)

  function Strs(ss: seq<string>): (js: seq<Json>)
    ensures |js| == |ss| && forall i :: 0 <= i < |ss| ==> js[i] == Str(ss[i])
  {
    seq(|ss|, i requires 0 <= i < |ss| => Str(ss[i]))
  }

  function QuadJson(q: Quad): Json {
    List([Int(q.num), Str(q.uniq), Bool(q.available), Bool(q.deleted)])
  }

  function Quads(qs: seq<Quad>): (js: seq<Json>)
    ensures |js| == |qs| && forall i :: 0 <= i < |qs| ==> js[i] == QuadJson(qs[i])
  {
    seq(|qs|, i requires 0 <= i < |qs| => QuadJson(qs[i]))
  }

  function ToJson(l: Log): Json {
    List([List(Strs(l.conflicts)), List([])] + Quads(l.quads))
  }

  // ---- `revlog_wrapper` on JSON; none where a cast or an index throws, and on an empty list, which has no back ----

  /** `init`. */
  const EMPTY_LOG: Json := List([List([]), List([])])

  /** `top_quad`. */
  function TopQuad(log: Json): Option<seq<Json>> {
    if log.List? && log.items != [] && log.items[|log.items| - 1].List? then Some(log.items[|log.items| - 1].items)
    else None
  }

  /** The number and identifier in a quad, as `get_int` and `get_str` deliver them. */
  function QuadRev(quad: seq<Json>): Option<(int64, string)> {
    if |quad| >= 2 && quad[0].Int? && quad[1].Str? then Some((quad[0].i, quad[1].s)) else None
  }

  /** `top_rev_id`: the stored number is cut to 32 bits. */
  function TopRev(log: Json): Option<Rev> {
    match TopQuad(log)
    case None => None
    case Some(quad) =>
      match QuadRev(quad)
      case None => None
      case Some((n, u)) => Some(MakeRev(n % 0x1_0000_0000, u))
  }

  /** `get_conflicts`. */
  function Conflicts(log: Json): Option<seq<Json>> {
    if log.List? && log.items != [] && log.items[0].List? then Some(log.items[0].items) else None
  }

  /** The log with other conflicts. */
  function WithConflicts(log: Json, conflicts: seq<Json>): Json
    requires Conflicts(log).Some?
  {
    List(log.items[0 := List(conflicts)])
  }

  /** `add_rev_info`. */
  function AddRevInfo(log: Json, rev: Rev, available: bool, deleted: bool): Json
    requires log.List?
  {
    List(log.items + [QuadJson(Quad(rev.num, rev.uniq, available, deleted))])
  }

  /** `get_str` of every item. */
  function GetStrs(js: seq<Json>): Option<seq<string>>
    decreases |js|
  {
    if js == [] then Some([])
    else if !js[0].Str? then None
    else match GetStrs(js[1..]) case None => None case Some(ss) => Some([js[0].s] + ss)
  }

  // ---- on well-formed logs ----

  function Top(l: Log): Rev
    requires l.quads != []
  {
    var q := l.quads[|l.quads| - 1];
    MakeRev(q.num, q.uniq)
  }

  function AddQuad(l: Log, q: Quad): Log {
    l.(quads := l.quads + [q])
  }

  lemma {:induction false} GetStrsInverse(ss: seq<string>)
    ensures GetStrs(Strs(ss)) == Some(ss)
    decreases |ss|
  {
    if ss != [] {
      GetStrsInverse(ss[1..]);
      assert Strs(ss)[1..] == Strs(ss[1..]);
      assert [ss[0]] + ss[1..] == ss;
    }
  }

  // The wrapper's operations on a well-formed log are the log's.

  lemma ConflictsOf(l: Log)
    ensures Conflicts(ToJson(l)) == Some(Strs(l.conflicts)) && GetStrs(Strs(l.conflicts)) == Some(l.conflicts)
  {
    GetStrsInverse(l.conflicts);
  }

  lemma SetConflicts(l: Log, cs: seq<string>)
    ensures Conflicts(ToJson(l)).Some? && WithConflicts(ToJson(l), Strs(cs)) == ToJson(l.(conflicts := cs))
  {
    hide Quads, Strs;
    assert ToJson(l).items[0 := List(Strs(cs))] == [List(Strs(cs)), List([])] + Quads(l.quads);
  }

  lemma AddedQuad(l: Log, r: Rev, available: bool, deleted: bool)
    ensures AddRevInfo(ToJson(l), r, available, deleted) == ToJson(AddQuad(l, Quad(r.num, r.uniq, available, deleted)))
  {
    hide QuadJson, Strs;
    var q := Quad(r.num, r.uniq, available, deleted);
    assert Quads(l.quads + [q]) == Quads(l.quads) + [QuadJson(q)];
    var head := [List(Strs(l.conflicts)), List([])];
    assert head + Quads(l.quads) + [QuadJson(q)] == head + (Quads(l.quads) + [QuadJson(q)]);
  }

  lemma TopOf(l: Log)
    requires l.quads != []
    ensures var q := l.quads[|l.quads| - 1];
      TopQuad(ToJson(l)) == Some(QuadJson(q).items) && QuadRev(QuadJson(q).items) == Some((q.num, q.uniq))
    ensures TopRev(ToJson(l)) == Some(Top(l))
  {
    hide Strs, MakeRev;
    var js := ToJson(l).items;
    assert js[|js| - 1] == QuadJson(l.quads[|l.quads| - 1]);
  }

  lemma EmptyLog()
    ensures ToJson(Log([], [])) == EMPTY_LOG
  {
    assert Strs([]) == [] && Quads([]) == [];
  }
}
