/** Documents do not interfere: exactly which queries no call on another document can change. */
module Isolation {
  import opened Strings
  import opened Decimal
  import opened JsonValue
  import opened RoundTrip
  import opened Revision
  import opened RevLog
  import opened DatabaseSpec
  import opened StoredText
  import opened Keys
  import opened Immutability
  import opened History

  // ---- one document under two names ----

  /** Calls and queries see a document's keys only, so under another name of the document they do the same;
      only the revision information repeats the name. */
  lemma UnderOtherName(env: Env, store: Store, op: Op, db: string, id: string, num: Option<Rev>, wantContent: bool, wantLog: bool)
    requires SameDoc(db, id, op.db, op.id)
    ensures Apply(env, store, op) == Apply(env, store, op.(db := db, id := id))
    ensures wantContent || wantLog ==>
      Get(env, store, db, id, num, wantContent, false, wantLog) == Get(env, store, op.db, op.id, num, wantContent, false, wantLog)
  {
    hide MakePath, Write, StringToJson, TopQuad, TopDiffers, TopRev;
  }

  lemma FirstCallShows(env: Env, store: Store, op: Op)
    requires MakePath(op.db, op.id) !in store && !NewRev(env, op).Empty()
    ensures Get(env, Apply(env, store, op).0, op.db, op.id, None, false, false, true)
      == Got(true, None, None, Some(ToJson(Extended(Log([], []), false, op.prev, NewRev(env, op)))))
  {
    var l := Extended(Log([], []), false, op.prev, NewRev(env, op));
    hide Apply, Get, MakePath, NewRev, StringToJson, ToJson, LogText, Extended;
    FirstCall(env, store, op);
    LogReads(env, l);
    GetLogUnfold(env, Apply(env, store, op).0, op.db, op.id, ToJson(l));
  }

  /** In a database whose name holds the separator every document is one of a properly named database as well:
      what a call stores there, `get` finds here. */
  lemma ImproperNameInterferes(env: Env, db: string, id: string) returns (op: Op, log: Json)
    requires !ProperName(db)
    ensures RealOp(op) && ProperName(op.db) && op.db != db
    ensures Get(env, map[], db, id, None, false, false, true) == Got(false, None, None, None)
    ensures Get(env, Apply(env, map[], op).0, db, id, None, false, false, true) == Got(true, None, None, Some(log))
  {
    var db2, id2 := ImproperNameIsShared(db, id);
    op := Op(db2, id2, EMPTY, Null, false);
    log := ToJson(Extended(Log([], []), false, op.prev, NewRev(env, op)));
    assert RealOp(op);
    hide Apply, Get, ProperName, MakePath, ToJson, Extended, RealOp, SameDoc;
    NewNumber(env, op);
    NothingFound(env, db, id);
    FirstCallShows(env, map[], op);
    UnderOtherName(env, Apply(env, map[], op).0, op, db, id, None, false, true);
  }

  lemma NothingFound(env: Env, db: string, id: string)
    ensures Get(env, map[], db, id, None, false, false, true) == Got(false, None, None, None)
  {
    hide StringToJson, MakePath;
  }

  // ---- queries ----

  /** A query whose revision, asked for or found in the log, has an isolated string. */
  ghost predicate IsolatedQuery(env: Env, store: Store, db: string, id: string, num: Option<Rev>) {
    if num.Some? then Isolated(num.value.text)
    else
      var path := MakePath(db, id);
      path in store ==>
        forall log, top ::
          StringToJson(env.libc, store[path]) == Loaded(log) && TopRev(log) == Some(top) ==> Isolated(top.text)
  }

  /** A good document's own top makes an isolated query. */
  lemma GoodQueryIsIsolated(env: Env, store: Store, db: string, id: string)
    requires GoodDoc(env, store, db, id)
    ensures IsolatedQuery(env, store, db, id, None)
  {
    hide StringToJson, WellFormed, MakePath, ToJson, LogText, BodyText, HexText, Isolated, PlainText, Computed, Legit;
    if MakePath(db, id) in store {
      var l, prev, content :| Readable(env, store, db, id, l, prev, content);
      LogReads(env, l);
      TopOf(l);
      TopIsPlain(l);
      PlainIsIsolated(Top(l).text);
    }
  }

  lemma MovedHasNoTop(log: Json)
    ensures MovedFrom(log) == List([]) || TopRev(MovedFrom(log)) == None
  {
  }

  /** A call on one document leaves every isolated `get` on any other as it was. */
  lemma CallLeavesOthers(env: Env, store: Store, op: Op, db: string,
    id: string, num: Option<Rev>, wantContent: bool, wantRev: bool, wantLog: bool)
    requires !SameDoc(db, id, op.db, op.id) && IsolatedQuery(env, store, db, id, num)
    requires wantContent || wantRev || wantLog
    ensures Get(env, Apply(env, store, op).0, db, id, num, wantContent, wantRev, wantLog)
      == Get(env, store, db, id, num, wantContent, wantRev, wantLog)
    ensures IsolatedQuery(env, Apply(env, store, op).0, db, id, num)
  {
    hide StringToJson, MakePath, DocKey, Apply, TopRev, ParseRev, SameDoc, Isolated;
    OtherLog(env, store, op, db, id);
    if num.Some? {
      OtherText(env, store, op, db, id, num.value);
    } else if MakePath(db, id) in store {
      match StringToJson(env.libc, store[MakePath(db, id)])
      case Loaded(log) =>
        MovedHasNoTop(log);
        if TopRev(log).Some? { OtherText(env, store, op, db, id, TopRev(log).value); }
      case _ =>
    }
  }

  /** No call of the run is on this document. */
  predicate OnOthers(ops: seq<Op>, db: string, id: string) {
    forall i :: 0 <= i < |ops| ==> !SameDoc(db, id, ops[i].db, ops[i].id)
  }

  /** So do whole runs of calls on other documents. */
  lemma {:induction false} RunLeavesOthers(env: Env, store: Store,
    ops: seq<Op>, db: string, id: string, num: Option<Rev>, wantContent: bool, wantRev: bool, wantLog: bool)
    requires OnOthers(ops, db, id) && IsolatedQuery(env, store, db, id, num)
    requires wantContent || wantRev || wantLog
    ensures Get(env, RunOps(env, store, ops), db, id, num, wantContent, wantRev, wantLog)
      == Get(env, store, db, id, num, wantContent, wantRev, wantLog)
    decreases |ops|
  {
    hide Get, Apply, IsolatedQuery, SameDoc;
    if ops != [] {
      CallLeavesOthers(env, store, ops[0], db, id, num, wantContent, wantRev, wantLog);
      RunLeavesOthers(env, Apply(env, store, ops[0]).0, ops[1..], db, id, num, wantContent, wantRev, wantLog);
    }
  }

  /** In a store that a run of calls has left, no premise about the log is needed: calls on other documents
      leave every `get` on this one as it was, without a revision or with an isolated one. */
  lemma GoodRunLeavesOthers(env: Env, store: Store,
    ops: seq<Op>, db: string, id: string, num: Option<Rev>, wantContent: bool, wantRev: bool, wantLog: bool)
    requires GoodStore(env, store) && OnOthers(ops, db, id)
    requires num.Some? ==> Isolated(num.value.text)
    requires wantContent || wantRev || wantLog
    ensures Get(env, RunOps(env, store, ops), db, id, num, wantContent, wantRev, wantLog)
      == Get(env, store, db, id, num, wantContent, wantRev, wantLog)
  {
    assert GoodDoc(env, store, db, id);
    assert num.Some? ==> IsolatedQuery(env, store, db, id, num);
    hide *;
    if num.None? { GoodQueryIsIsolated(env, store, db, id); }
    RunLeavesOthers(env, store, ops, db, id, num, wantContent, wantRev, wantLog);
  }

  // ---- the condition on an asked revision cannot be weaker ----

  /** A call on the document named `id`, from the empty store, that writes under number and identifier of `rev`
      when the digest of everything is `digest`. */
  function Intruder(id: string, num: uint32): Op {
    Op("", id, MakeRev((num + 0xFFFF_FFFF) % 0x1_0000_0000, ""), Null, false)
  }

  lemma IntruderRev(env: Env, id: string, num: uint32, uniq: string)
    requires forall s :: HexOf(env.md5(s)) == uniq
    ensures NewRev(env, Intruder(id, num)) == MakeRev(num, uniq)
  {
    hide BodyText, HexOf, Dec, AsInt32;
    assert ((num + 0xFFFF_FFFF) % 0x1_0000_0000 + 1) % 0x1_0000_0000 == num;
  }

  lemma IntruderWrites(env: Env, id: string, num: uint32, uniq: string)
    requires forall s :: HexOf(env.md5(s)) == uniq
    ensures MakePath("", id) + MakeRev(num, uniq).text in Apply(env, map[], Intruder(id, num)).0
    ensures num != 0 ==> MakePath("", id) in Apply(env, map[], Intruder(id, num)).0
  {
    IntruderRev(env, id, num, uniq);
    hide Apply, MakePath, BodyText, ComputeRevision, LogText, Write, ToJson, MakeRev, HexOf;
    var op := Intruder(id, num);
    PutOnNothing(env, map[], op);
    WriteExtends(env, map[], MakePath("", id), Log([], []), false, op.prev, op.content);
  }

  /** What a call leaves of every query on this document under this revision: all of it. */
  ghost predicate LeftAlone(env: Env, store: Store, op: Op, db: string, id: string, rev: Rev) {
    forall wantContent, wantRev, wantLog :: wantContent || wantRev || wantLog ==>
      Get(env, Apply(env, store, op).0, db, id, Some(rev), wantContent, wantRev, wantLog)
        == Get(env, store, db, id, Some(rev), wantContent, wantRev, wantLog)
  }

  lemma NewKeyShows(env: Env, op: Op, db: string, id: string, rev: Rev)
    requires DocKey(db, id, rev) in Apply(env, map[], op).0
    ensures !LeftAlone(env, map[], op, db, id, rev)
  {
    hide Apply, DocKey, StringToJson, ParseRev;
    assert Get(env, map[], db, id, Some(rev), true, false, false) == Got(false, None, None, None);
    assert Get(env, Apply(env, map[], op).0, db, id, Some(rev), true, false, false) != Got(false, None, None, None);
  }

  lemma PathsNest(a: string)
    ensures MakePath("", "@" + a) == MakePath("", "") + a + "@" && !SameDoc("", "", "", "@" + a)
  {
    var p := "_data/\0" + "" + "!\0";
    assert MakePath("", "") == p + "@" && MakePath("", "@" + a) == p + "@" + a + "@";
  }

  /** What is wrong with a string that is not isolated, with a number and a digest that a call may meet it with. */
  lemma NotIsolatedParts(text: string) returns (a: string, b: string, num: uint32, digest: Digest)
    requires !Isolated(text)
    ensures text == a + "@" + b && (if b == "" then num != 0 else b == MakeRev(num, HexOf(digest)).text)
  {
    a, b :| text == a + "@" + b && Without(b, '@') && (b == "" || ComputedText(b));
    num, digest := 1, seq(16, _ => 0);
    if b != "" {
      var n: uint32, u :| HexText(u) && b == MakeRev(n, u).text;
      num := n;
      digest := HexOfSurjective(u);
    }
  }

  /** An environment and a call on another document that put something under the key of a revision whose string
      is not isolated. */
  lemma NotIsolatedIsReached(rev: Rev) returns (env: Env, op: Op)
    requires !Isolated(rev.text)
    ensures RealOp(op) && ProperName(op.db) && !SameDoc("", "", op.db, op.id) && !LeftAlone(env, map[], op, "", "", rev)
  {
    hide Isolated, Apply, LeftAlone, HexOf, MakeRev;
    var a, b, num, digest := NotIsolatedParts(rev.text);
    env := Env(Libc(_ => 0.0, _ => ""), _ => digest);
    op := Intruder("@" + a, num);
    IntruderWrites(env, "@" + a, num, HexOf(digest));
    IntruderIsReal("@" + a, num);
    PathsNest(a);
    hide MakePath;
    KeysNest(MakePath("", ""), a, b, rev.text);
    assert DocKey("", "", rev) == MakePath("", "@" + a) + b;
    if b == "" { assert MakePath("", "@" + a) + b == MakePath("", "@" + a); }
    NewKeyShows(env, op, "", "", rev);
  }

  lemma KeysNest(p: string, a: string, b: string, text: string)
    requires text == a + "@" + b
    ensures p + text == p + a + "@" + b
  {
  }

  lemma IntruderIsReal(id: string, num: uint32)
    ensures RealOp(Intruder(id, num))
  {
  }

  /** No call on another document can change what `get` returns under a revision, whatever the document, the store,
      the digest and the call, if and only if the revision's string is isolated. */
  lemma IsolatedExactly(rev: Rev)
    ensures Isolated(rev.text) <==>
      forall env: Env, store: Store, op: Op, db: string, id: string ::
        RealOp(op) && ProperName(db) && ProperName(op.db) && !SameDoc(db, id, op.db, op.id) ==>
          LeftAlone(env, store, op, db, id, rev)
  {
    hide Isolated, Apply, Get, MakePath, RealOp, SameDoc;
    if Isolated(rev.text) {
      forall env: Env, store: Store, op: Op, db: string, id: string | !SameDoc(db, id, op.db, op.id)
        ensures LeftAlone(env, store, op, db, id, rev)
      {
        forall wantContent, wantRev, wantLog | wantContent || wantRev || wantLog
          ensures Get(env, Apply(env, store, op).0, db, id, Some(rev), wantContent, wantRev, wantLog)
            == Get(env, store, db, id, Some(rev), wantContent, wantRev, wantLog)
        {
          CallLeavesOthers(env, store, op, db, id, Some(rev), wantContent, wantRev, wantLog);
        }
      }
    } else {
      var env, op := NotIsolatedIsReached(rev);
      assert ProperName("");
      assert !LeftAlone(env, map[], op, "", "", rev);
    }
  }

  /** Such a revision is read back from its own string like any other: under it, `get` on document "a" reads
      document "a@1-x". */
  lemma SeparatorInRevision(env: Env, store: Store, db: string, u: string)
    requires u != ""
    ensures var rev := MakeRev(1, "x@1-" + u);
      ReadsBack(rev) && !SameDoc(db, "a", db, "a@1-x") && (HexText(u) ==> !Isolated(rev.text)) &&
      Get(env, store, db, "a", Some(rev), true, false, false)
        == Get(env, store, db, "a@1-x", Some(MakeRev(1, u)), true, false, false)
  {
    var rev, other := MakeRev(1, "x@1-" + u), MakeRev(1, u);
    ParseMake(1, "x@1-" + u);
    OneDash("x@1-" + u);
    OneDash(u);
    NestedPath(db);
    assert rev.text == "1-x" + "@" + other.text;
    if HexText(u) { NestedIsNotIsolated(rev.text, "1-x", 1, u); }
    hide *;
    KeysNest(MakePath(db, "a"), "1-x", other.text, rev.text);
    KeyOf(db, "a", rev);
    KeyOf(db, "a@1-x", other);
    SameKeySameContent(env, store, db, "a", rev, "a@1-x", other);
    ReadBackIs(rev);
  }

  lemma ReadBackIs(r: Rev)
    ensures ParseRev(r.text) == Some(r) ==> ReadsBack(r)
  {
  }

  lemma KeyOf(db: string, id: string, r: Rev)
    ensures DocKey(db, id, r) == MakePath(db, id) + r.text
  {
  }

  lemma NestedIsNotIsolated(text: string, a: string, num: uint32, u: string)
    requires HexText(u) && text == a + "@" + MakeRev(num, u).text
    ensures !Isolated(text)
  {
    HexRevIsPlain(num, u);
    assert ComputedText(MakeRev(num, u).text);
    hide ComputedText, MakeRev;
  }

  lemma SameKeySameContent(env: Env, store: Store, db: string, id: string, rev: Rev, id2: string, rev2: Rev)
    requires DocKey(db, id, rev) == DocKey(db, id2, rev2)
    ensures Get(env, store, db, id, Some(rev), true, false, false) == Get(env, store, db, id2, Some(rev2), true, false, false)
  {
    hide DocKey, StringToJson;
  }

  lemma NestedPath(db: string)
    ensures MakePath(db, "a") + "1-x" + "@" == MakePath(db, "a@1-x") && !SameDoc(db, "a", db, "a@1-x")
  {
    assert "a@1-x" == "a" + "@" + "1-x";
  }

  lemma OneDash(u: string)
    ensures MakeRev(1, u).text == "1-" + u
  {
  }
}
