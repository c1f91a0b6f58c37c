/** A content that `put` accepts and no later `get` returns. */
module LostContent {
  import opened Strings
  import opened JsonValue
  import opened Render
  import opened TreeBuilder
  import opened Parsing
  import opened RoundTrip
  import opened Revision
  import opened DatabaseSpec
  import opened Immutability
  import opened History
  import E = Events
  import RS = ReaderSpec

  /** A map whose only key is empty. */
  const NAMELESS: Json := Map([Entry("", Null)])

  lemma NamelessItem(libc: Libc, st: State)
    requires st.Building? && !st.first && |st.frames| == 1 && st.curKey == "" && st.frames[0].value.List?
    ensures Printable(libc, NAMELESS) && Run(libc, st, E.TreeEvents(TreeOf(libc, NAMELESS))) == Threw
  {
    var ms := MembersOf(libc, NAMELESS.entries, 0);
    assert ms == [E.Member("", E.Leaf(E.Null))];
    assert E.MemberEvents(ms) == [E.String(""), E.Null];
    Bracketed(libc, st, E.StartObject, E.MemberEvents(ms), E.EndObject(1));
    var st1 := Step(libc, st, E.StartObject);
    assert st1.Building? && st1.curKey == "" && st1.frames[1].value == Map([]);
    RunConcat(libc, st1, [E.String("")], [E.Null]);
    RunOne(libc, st1, E.String(""));
    RunOne(libc, st1, E.Null);
  }

  lemma ItemsRun(libc: Libc, st: State, ts: seq<E.Tree>)
    requires ts != []
    ensures Run(libc, st, E.ItemEvents(ts)) == Run(libc, Run(libc, st, E.TreeEvents(ts[0])), E.ItemEvents(ts[1..]))
  {
    hide Run;
    RunConcat(libc, st, E.TreeEvents(ts[0]), E.ItemEvents(ts[1..]));
  }

  lemma FourTrees(libc: Libc, xs: seq<Json>)
    requires |xs| == 4
    ensures TreesOf(libc, xs, 0) == [TreeOf(libc, xs[0]), TreeOf(libc, xs[1]), TreeOf(libc, xs[2]), TreeOf(libc, xs[3])]
  {
    hide TreeOf;
    assert TreesOf(libc, xs, 4) == [];
    assert TreesOf(libc, xs, 3) == [TreeOf(libc, xs[3])];
    assert TreesOf(libc, xs, 2) == [TreeOf(libc, xs[2]), TreeOf(libc, xs[3])];
    assert TreesOf(libc, xs, 1) == [TreeOf(libc, xs[1]), TreeOf(libc, xs[2]), TreeOf(libc, xs[3])];
  }

  function InList(xs: seq<Json>): State { Building([Frame(List(xs), Root)], "", false) }

  lemma InListStep(libc: Libc, xs: seq<Json>, e: E.Event, v: Json)
    requires match e case Null => v == Null case Bool(b) => v == Bool(b) case String(s) => v == Str(s) case _ => false
    ensures Run(libc, InList(xs), E.TreeEvents(E.Leaf(e))) == InList(xs + [v])
  {
    RunOne(libc, InList(xs), e);
    assert [Frame(List(xs), Root)][0 := Frame(List(xs + [v]), Root)] == [Frame(List(xs + [v]), Root)];
  }

  lemma NamelessItems(libc: Libc, ts: seq<E.Tree>, text: string)
    requires ts == [E.Leaf(E.Bool(false)), E.Leaf(E.String(text)), E.Leaf(E.Null), TreeOf(libc, NAMELESS)]
    ensures Run(libc, InList([]), E.ItemEvents(ts)) == Threw
  {
    InListStep(libc, [], E.Bool(false), Bool(false));
    InListStep(libc, [] + [Bool(false)], E.String(text), Str(text));
    InListStep(libc, [] + [Bool(false)] + [Str(text)], E.Null, Null);
    var st1, st2 := InList([] + [Bool(false)]), InList([] + [Bool(false)] + [Str(text)]);
    var st3 := InList([] + [Bool(false)] + [Str(text)] + [Null]);
    NamelessItem(libc, st3);
    hide Run, InList;
    ItemsRun(libc, InList([]), ts);
    ItemsRun(libc, st1, ts[1..]);
    ItemsRun(libc, st2, ts[2..]);
    ItemsRun(libc, st3, ts[3..]);
    assert ts[1..][1..] == ts[2..] && ts[2..][1..] == ts[3..];
    RunThrew(libc, E.ItemEvents(ts[3..][1..]));
  }

  /** The builder takes the empty key for none, and throws when the key's value arrives. */
  lemma NamelessThrows(env: Env, prev: Rev)
    ensures StringToJson(env.libc, BodyText(env, prev, NAMELESS)) == HandlerThrew
  {
    var libc, xs := env.libc, [Bool(false), Str(prev.text), Null, NAMELESS];
    NamelessItem(libc, InList([]));
    NamelessList(libc, xs, prev.text);
    hide Run, Text, RS.ParseText, TreeOf;
    TextInverse(libc, Compact, List(xs), false);
  }

  lemma NamelessList(libc: Libc, xs: seq<Json>, text: string)
    requires xs == [Bool(false), Str(text), Null, NAMELESS]
    ensures Run(libc, INITIAL, E.TreeEvents(TreeOf(libc, List(xs)))) == Threw
  {
    var ts := TreesOf(libc, xs, 0);
    assert Step(libc, INITIAL, E.StartArray) == InList([]);
    assert Step(libc, Threw, E.EndArray(4)) == Threw;
    hide Run, Step, InList;
    FourTrees(libc, xs);
    NamelessItems(libc, ts, text);
    Bracketed(libc, INITIAL, E.StartArray, E.ItemEvents(ts), E.EndArray(4));
  }

  /** The first call on a document accepts it. */
  lemma NamelessIsAccepted(env: Env, store: Store, db: string, id: string)
    requires MakePath(db, id) !in store
    ensures var outcome := Apply(env, store, Op(db, id, EMPTY, NAMELESS, false)).1;
      outcome.Done? && outcome.result.code.UpdateOk?
  {
    var op := Op(db, id, EMPTY, NAMELESS, false);
    hide Apply, MakePath, NewRev, Extended, HasLog;
    NewNumber(env, op);
    FirstCall(env, store, op);
  }

  /** And once a call has stored it, every `get` under its revision throws after every later run. */
  lemma NamelessIsLost(env: Env, store: Store, op: Op, later: seq<Op>, wantContent: bool, wantRev: bool)
    requires op.content == NAMELESS && NoCollision(env, NewBody(env, op), later) && (wantContent || wantRev)
    requires var outcome := Apply(env, store, op).1; outcome.Done? && outcome.result.code.UpdateOk?
    ensures var (after, outcome) := Apply(env, store, op);
      DatabaseSpec.Get(env, RunOps(env, after, later), op.db, op.id, Some(outcome.result.newRev), wantContent, wantRev, false)
        == GetThrew
  {
    var (after, outcome) := Apply(env, store, op);
    SuccessStores(env, store, op);
    NamelessThrows(env, op.prev);
    hide Apply, RunOps, BodyText, ComputeRevision, MakePath, DocKey, StringToJson, NAMELESS;
    RunKeepsDoc(env, after, op.db, op.id, op.prev, NewBody(env, op), later);
  }
}
