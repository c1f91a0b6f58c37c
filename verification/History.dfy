/** What every run of calls keeps: each log is well formed and its top can be read. */
module History {
  import opened Strings
  import opened JsonValue
  import opened Render
  import opened RoundTrip
  import opened Revision
  import opened RevLog
  import opened DatabaseSpec
  import opened StoredText
  import opened Keys
  import opened Immutability
  import Conflict

  // ---- put on a document whose log is well formed ----

  /** The document's log, as stored. */
  ghost predicate HasLog(env: Env, store: Store, db: string, id: string, l: Log) {
    l.quads != [] && MakePath(db, id) in store && store[MakePath(db, id)] == LogText(env, l)
  }

  /** The document's log, and its top. */
  ghost predicate EndsIn(env: Env, store: Store, db: string, id: string, l: Log, top: Rev) {
    HasLog(env, store, db, id, l) && Top(l) == top
  }

  predicate OnTop(l: Log, prev: Rev)
    requires l.quads != []
  {
    Same(prev, Top(l))
  }

  /** The log after a call that does not merge. */
  function Extended(l: Log, hasPrev: bool, prev: Rev, rev: Rev): Log {
    var l1 := if !prev.Empty() && !hasPrev then AddQuad(l, Quad(prev.num, prev.uniq, false, false)) else l;
    AddQuad(l1, Quad(rev.num, rev.uniq, true, false))
  }

  lemma WriteExtends(env: Env, store: Store, path: string, l: Log, hasPrev: bool, prev: Rev, content: Json)
    ensures var body := BodyText(env, prev, content); var rev := ComputeRevision(env, prev, body);
      var store1 := store[path + rev.text := body];
      Write(env, store, path, ToJson(l), hasPrev, false, prev, content) ==
      if rev.Empty() then (store1, AssertFailure)
      else (store1[path := LogText(env, Extended(l, hasPrev, prev, rev))],
            Done(PutResult(UpdateOk, rev, ToJson(Extended(l, hasPrev, prev, rev)))))
  {
    hide BodyText, ToJson, AddRevInfo, Text;
    LogIsList(l);
    var rev := ComputeRevision(env, prev, BodyText(env, prev, content));
    hide ComputeRevision;
    var l1 := if !prev.Empty() && !hasPrev then AddQuad(l, Quad(prev.num, prev.uniq, false, false)) else l;
    AddedQuad(l, prev, false, false);
    AddedQuad(l1, rev, true, false);
    LogIsList(l1);
  }

  lemma WriteMerges(env: Env, store: Store, path: string, l: Log, prev: Rev, content: Json)
    requires l.quads != []
    ensures var body := BodyText(env, prev, content); var rev := ComputeRevision(env, prev, body);
      var store1 := store[path + rev.text := body];
      Write(env, store, path, ToJson(l), true, true, prev, content) ==
      if rev.Empty() then (store1, AssertFailure)
      else match Conflict.MergeLog(l, rev, [])
        case AssertFailed => (store1, AssertFailure)
        case Thrown => (store1, Exception)
        case Merged(m) => (store1[path := LogText(env, m)], Done(PutResult(UpdateOk, rev, ToJson(m))))
  {
    hide BodyText, ToJson, Conflict.MergeJson, Conflict.MergeLog, Text;
    LogIsList(l);
    var rev := ComputeRevision(env, prev, BodyText(env, prev, content));
    hide ComputeRevision;
    assert Strs([]) == [];
    Conflict.MergeJsonIsMergeLog(l, rev, []);
  }

  lemma PutOnLog(env: Env, store: Store, op: Op, l: Log)
    requires HasLog(env, store, op.db, op.id, l)
    ensures Apply(env, store, op) ==
      if !OnTop(l, op.prev) && !op.doMerge then (store, Done(PutResult(UpdateConflict, EMPTY, ToJson(l))))
      else Write(env, store, MakePath(op.db, op.id), ToJson(l), true, !OnTop(l, op.prev), op.prev, op.content)
  {
    hide StringToJson, BodyText, ToJson, Conflict.MergeJson, Text, Write, TopQuad, MakePath, Apply, LogText;
    LogReads(env, l);
    TopOf(l);
    LogIsList(l);
    var q := l.quads[|l.quads| - 1];
    QuadDiffers(q, op.prev);
    PutUnfold(env, store, op, ToJson(l), QuadJson(q).items, !OnTop(l, op.prev));
  }

  lemma QuadDiffers(q: Quad, prev: Rev)
    ensures TopDiffers(QuadJson(q).items, prev) == Some(!Same(prev, MakeRev(q.num, q.uniq)))
  {
  }

  lemma PutUnfold(env: Env, store: Store, op: Op, log: Json, quad: seq<Json>, differs: bool)
    requires MakePath(op.db, op.id) in store && StringToJson(env.libc, store[MakePath(op.db, op.id)]) == Loaded(log)
    requires log.List? && TopQuad(log) == Some(quad) && TopDiffers(quad, op.prev) == Some(differs)
    ensures Apply(env, store, op) ==
      if differs && !op.doMerge then (store, Done(PutResult(UpdateConflict, EMPTY, log)))
      else Write(env, store, MakePath(op.db, op.id), log, true, differs, op.prev, op.content)
  {
    hide StringToJson, Write, TopQuad, TopDiffers, MakePath;
  }

  lemma PutOnNothing(env: Env, store: Store, op: Op)
    requires MakePath(op.db, op.id) !in store
    ensures Apply(env, store, op) == Write(env, store, MakePath(op.db,
      op.id), ToJson(Log([], [])), false, false, op.prev, op.content)
  {
    EmptyLog();
    hide Write, ToJson, MakePath, StringToJson;
  }

  /** The stored text says which log it is, as far as top and conflicts go. */
  lemma LogIsUnique(env: Env, store: Store, db: string, id: string, l: Log, m: Log)
    requires HasLog(env, store, db, id, l) && HasLog(env, store, db, id, m)
    ensures Top(l) == Top(m) && l.conflicts == m.conflicts
  {
    hide StringToJson, LogText, MakePath, ToJson, TopRev, Conflicts, GetStrs;
    LogReads(env, l);
    LogReads(env, m);
    TopOf(l);
    TopOf(m);
    ConflictsOf(l);
    ConflictsOf(m);
  }

  // ---- the top of every log can be read ----

  /** A document that is absent, or whose log ends in a computed revision that is stored, with the content and
      the parent it was computed from. */
  ghost predicate GoodDoc(env: Env, store: Store, db: string, id: string) {
    MakePath(db, id) in store ==>
      exists l, prev, content :: Readable(env, store, db, id, l, prev, content)
  }

  ghost predicate Readable(env: Env, store: Store, db: string, id: string, l: Log, prev: Rev, content: Json) {
    HasLog(env, store, db, id, l) && HexText(Top(l).uniq) && WellFormed(content) && Legit(prev) &&
    HasDoc(env, store, db, id, Top(l), prev, content) && Computed(env, Top(l), prev, content)
  }

  /** A revision is what its parent and content give. */
  ghost predicate Computed(env: Env, rev: Rev, prev: Rev, content: Json) {
    rev == ComputeRevision(env, prev, BodyText(env, prev, content))
  }

  /** The invariant of a store over whole runs. */
  ghost predicate GoodStore(env: Env, store: Store) {
    forall db, id :: GoodDoc(env, store, db, id)
  }

  lemma EmptyStoreIsGood(env: Env)
    ensures GoodStore(env, map[])
  {
  }

  lemma TopIsPlain(l: Log)
    requires l.quads != [] && HexText(Top(l).uniq)
    ensures PlainText(Top(l).text)
  {
    HexRevIsPlain(Top(l).num, Top(l).uniq);
  }

  /** A call on one document leaves another document's log alone. */
  lemma OtherLog(env: Env, store: Store, op: Op, db: string, id: string)
    requires !SameDoc(db, id, op.db, op.id)
    ensures var path, after := MakePath(db, id), Apply(env, store, op).0;
      (path in after <==> path in store) && (path in store ==> after[path] == store[path])
  {
    hide MakePath, Apply, NewRev;
    ApplyFrame(env, store, op);
    NewRevIsPlain(env, op);
    DocKeyIsNoPath(op.db, op.id, NewRev(env, op), db, id);
  }

  /** And its texts under isolated strings. */
  lemma OtherText(env: Env, store: Store, op: Op, db: string, id: string, rev: Rev)
    requires !SameDoc(db, id, op.db, op.id) && Isolated(rev.text)
    ensures var key, after := DocKey(db, id, rev), Apply(env, store, op).0;
      (key in after <==> key in store) && (key in store ==> after[key] == store[key])
  {
    ApplyFrame(env, store, op);
    NewRevIsPlain(env, op);
    IsolatedKeys(db, id, rev, op.db, op.id, NewRev(env, op).num, NewRev(env, op).uniq);
  }

  lemma OtherDocStaysGood(env: Env, store: Store, op: Op, db: string, id: string)
    requires !SameDoc(db, id, op.db, op.id) && GoodDoc(env, store, db, id)
    ensures GoodDoc(env, Apply(env, store, op).0, db, id)
  {
    hide Apply, WellFormed, HexText, MakePath, DocKey, BodyText, LogText, Legit, Computed, Isolated, SameDoc;
    OtherLog(env, store, op, db, id);
    if MakePath(db, id) in store {
      var l, prev, content :| Readable(env, store, db, id, l, prev, content);
      TopIsPlain(l);
      PlainIsIsolated(Top(l).text);
      OtherText(env, store, op, db, id, Top(l));
      assert Readable(env, Apply(env, store, op).0, db, id, l, prev, content);
    }
  }

  /** A call leaves a stored revision alone unless it assigns that very revision to the same document. */
  lemma DocKept(env: Env, store: Store, op: Op, db: string, id: string, rev: Rev, prev: Rev, content: Json)
    requires HexText(rev.uniq) && rev == MakeRev(rev.num, rev.uniq)
    requires HasDoc(env, store, db, id, rev, prev, content)
    requires !SameDoc(db, id, op.db, op.id) || rev != NewRev(env, op)
    ensures HasDoc(env, Apply(env, store, op).0, db, id, rev, prev, content)
  {
    hide Apply, HexText, MakePath, BodyText, ComputeRevision, DocKey;
    ApplyFrame(env, store, op);
    var new1 := NewRev(env, op);
    NewRevIsPlain(env, op);
    HexRevIsPlain(rev.num, rev.uniq);
    DocKeyIsNoPath(db, id, rev, op.db, op.id);
    if DocKey(db, id, rev) == DocKey(op.db, op.id, new1) {
      DocKeyInjective(db, id, rev, op.db, op.id, new1);
      TextInjective(rev.num, rev.uniq, new1.num, new1.uniq);
    }
  }

  /** What a call can leave behind for its own document: nothing at all, only the text, or a log that is
      the old one, or ends in the new revision, or ends in the old top. */
  lemma OwnLogAfter(env: Env, store: Store, op: Op, l: Log)
    requires HasLog(env, store, op.db, op.id, l)
    ensures var after := Apply(env, store, op).0;
      exists m :: EndsIn(env, after, op.db, op.id, m, NewRev(env, op)) || EndsIn(env, after, op.db, op.id, m, Top(l))
  {
    hide Apply, MakePath, BodyText, ComputeRevision, LogText, Write, ToJson, Extended, Top, Conflict.MergeLog;
    var path, body, rev := MakePath(op.db, op.id), NewBody(env, op), NewRev(env, op);
    var store1 := store[path + rev.text := body];
    NewRevIsPlain(env, op);
    DocKeyIsNoPath(op.db, op.id, rev, op.db, op.id);
    assert EndsIn(env, store1, op.db, op.id, l, Top(l));
    assert EndsIn(env, store, op.db, op.id, l, Top(l));
    PutOnLog(env, store, op, l);
    if OnTop(l, op.prev) {
      WriteExtends(env, store, path, l, true, op.prev, op.content);
      ExtendedTop(l, true, op.prev, rev);
      assert !rev.Empty() ==> EndsIn(env, Apply(env, store, op).0, op.db, op.id, Extended(l, true, op.prev, rev), rev);
    } else if op.doMerge {
      WriteMerges(env, store, path, l, op.prev, op.content);
      MergedTop(l, rev);
      var r := Conflict.MergeLog(l, rev, []);
      if !rev.Empty() && r.Merged? {
        assert EndsIn(env, Apply(env, store, op).0, op.db, op.id, r.log, Top(r.log));
      }
    }
  }

  lemma ExtendedTop(l: Log, hasPrev: bool, prev: Rev, rev: Rev)
    ensures var m := Extended(l, hasPrev, prev, rev); m.quads != [] && Top(m) == MakeRev(rev.num, rev.uniq)
  {
  }

  lemma MergedTop(l: Log, rev: Rev)
    requires l.quads != [] && rev == MakeRev(rev.num, rev.uniq)
    ensures var r := Conflict.MergeLog(l, rev, []);
      r.Merged? ==> r.log.quads != [] && (Top(r.log) == rev || Top(r.log) == Top(l))
  {
    hide Conflict.AddMissing, Wins;
  }

  /** A call on a document that has no log. */
  lemma FirstCall(env: Env, store: Store, op: Op)
    requires MakePath(op.db, op.id) !in store
    ensures var (after, outcome) := Apply(env, store, op); var m := Extended(Log([], []), false, op.prev, NewRev(env, op));
      if NewRev(env, op).Empty() then MakePath(op.db, op.id) !in after && outcome == AssertFailure
      else HasLog(env, after, op.db, op.id, m) && outcome == Done(PutResult(UpdateOk, NewRev(env, op), ToJson(m)))
  {
    hide Apply, MakePath, BodyText, ComputeRevision, LogText, Write, ToJson;
    var path, rev := MakePath(op.db, op.id), NewRev(env, op);
    NewRevIsPlain(env, op);
    DocKeyIsNoPath(op.db, op.id, rev, op.db, op.id);
    PutOnNothing(env, store, op);
    WriteExtends(env, store, path, Log([], []), false, op.prev, op.content);
  }

  lemma OwnLogFromNothing(env: Env, store: Store, op: Op)
    requires MakePath(op.db, op.id) !in store
    ensures var after := Apply(env, store, op).0;
      MakePath(op.db, op.id) in after ==> exists m :: EndsIn(env, after, op.db, op.id, m, NewRev(env, op))
  {
    var m := Extended(Log([], []), false, op.prev, NewRev(env, op));
    NewRevIsPlain(env, op);
    ExtendedTop(Log([], []), false, op.prev, NewRev(env, op));
    hide Apply, MakePath, NewRev, LogText, Extended, MakeRev, ToJson;
    FirstCall(env, store, op);
    assert !NewRev(env, op).Empty() ==> EndsIn(env, Apply(env, store, op).0, op.db, op.id, m, NewRev(env, op));
  }

  /** An own log that was there: it ends in the new revision, or in the old top, whose text is still there. */
  lemma OwnLogStaysGood(env: Env, store: Store, op: Op)
    requires GoodDoc(env, store, op.db, op.id) && MakePath(op.db, op.id) in store
    requires var after, rev := Apply(env, store, op).0, NewRev(env, op);
      forall m :: EndsIn(env, after, op.db, op.id, m, rev) ==> Readable(env, after, op.db, op.id, m, op.prev, op.content)
    ensures GoodDoc(env, Apply(env, store, op).0, op.db, op.id)
  {
    var l, prev, content :| Readable(env, store, op.db, op.id, l, prev, content);
    OwnLogAfter(env, store, op, l);
    hide Apply, MakePath, BodyText, ComputeRevision, LogText, WellFormed, HexText, DocKey, Legit, Computed, NewRev;
    var after := Apply(env, store, op).0;
    var m :| EndsIn(env, after, op.db, op.id, m, NewRev(env, op)) || EndsIn(env, after, op.db, op.id, m, Top(l));
    if Top(m) != NewRev(env, op) {
      DocKept(env, store, op, op.db, op.id, Top(l), prev, content);
      assert Readable(env, after, op.db, op.id, m, prev, content);
    }
  }

  lemma OwnDocStaysGood(env: Env, store: Store, op: Op)
    requires WellFormed(op.content) && Legit(op.prev) && GoodDoc(env, store, op.db, op.id)
    ensures GoodDoc(env, Apply(env, store, op).0, op.db, op.id)
  {
    assert Computed(env, NewRev(env, op), op.prev, op.content);
    hide Apply, MakePath, BodyText, ComputeRevision, LogText, WellFormed, HexText, DocKey, Legit, Computed, NewRev;
    var after, rev := Apply(env, store, op).0, NewRev(env, op);
    NewRevIsPlain(env, op);
    if after != store && MakePath(op.db, op.id) in after {
      NewDocStored(env, store, op);
      forall m | EndsIn(env, after, op.db, op.id, m, rev) ensures Readable(env, after, op.db, op.id, m, op.prev, op.content) {}
      if MakePath(op.db, op.id) in store {
        OwnLogStaysGood(env, store, op);
      } else {
        OwnLogFromNothing(env, store, op);
      }
    }
  }

  /** A call that changes anything has stored its document. */
  lemma NewDocStored(env: Env, store: Store, op: Op)
    ensures var after := Apply(env, store, op).0;
      after == store || HasDoc(env, after, op.db, op.id, NewRev(env, op), op.prev, op.content)
  {
    hide Apply, MakePath, BodyText, ComputeRevision;
    NewRevIsPlain(env, op);
    ApplyFrame(env, store, op);
    DocKeyIsNoPath(op.db, op.id, NewRev(env, op), op.db, op.id);
  }

  /** Being good is a matter of keys alone. */
  lemma GoodByKeys(env: Env, store: Store, db: string, id: string, db2: string, id2: string)
    requires SameDoc(db, id, db2, id2) && GoodDoc(env, store, db, id)
    ensures GoodDoc(env, store, db2, id2)
  {
    hide MakePath, HexText, WellFormed, Legit, Computed, BodyText, LogText;
    if MakePath(db, id) in store {
      var l, prev, content :| Readable(env, store, db, id, l, prev, content);
      assert Readable(env, store, db2, id2, l, prev, content);
    }
  }

  /** A call with values the program can build: maps sorted by their keys, and a revision that a constructor made. */
  ghost predicate RealOp(op: Op) {
    WellFormed(op.content) && Legit(op.prev)
  }

  /** Every call keeps the invariant, whatever it does to its document. */
  lemma ApplyKeepsGood(env: Env, store: Store, op: Op)
    requires RealOp(op) && GoodStore(env, store)
    ensures GoodStore(env, Apply(env, store, op).0)
  {
    hide Apply, GoodDoc, WellFormed, Legit, MakePath;
    forall db, id ensures GoodDoc(env, Apply(env, store, op).0, db, id) {
      if SameDoc(db, id, op.db, op.id) {
        OwnDocStaysGood(env, store, op);
        GoodByKeys(env, Apply(env, store, op).0, op.db, op.id, db, id);
      } else {
        OtherDocStaysGood(env, store, op, db, id);
      }
    }
  }

  ghost predicate RealOps(ops: seq<Op>) {
    forall i :: 0 <= i < |ops| ==> RealOp(ops[i])
  }

  lemma {:induction false} RunKeepsGood(env: Env, store: Store, ops: seq<Op>)
    requires GoodStore(env, store) && RealOps(ops)
    ensures GoodStore(env, RunOps(env, store, ops))
    decreases |ops|
  {
    hide Apply, GoodStore, RealOp;
    if ops != [] {
      ApplyKeepsGood(env, store, ops[0]);
      RunKeepsGood(env, Apply(env, store, ops[0]).0, ops[1..]);
    }
  }

  lemma GetTopUnfold(env: Env, store: Store, db: string, id: string, log: Json, top: Rev)
    requires MakePath(db, id) in store && StringToJson(env.libc, store[MakePath(db, id)]) == Loaded(log) && TopRev(log) == Some(top)
    ensures forall wantContent, wantRev :: wantContent || wantRev ==>
      Get(env, store, db, id, None, wantContent, wantRev, false) == Get(env, store, db, id, Some(top), wantContent, wantRev, false)
  {
    assert log != List([]);
    hide StringToJson, MakePath, TopRev, ReadDoc;
  }

  lemma GetLogUnfold(env: Env, store: Store, db: string, id: string, log: Json)
    requires MakePath(db, id) in store && StringToJson(env.libc, store[MakePath(db, id)]) == Loaded(log)
    ensures Get(env, store, db, id, None, false, false, true) == Got(true, None, None, Some(log))
  {
    hide StringToJson, MakePath, TopRev, ReadDoc;
  }

  /** `get` reads the log; without a revision it finds whatever it finds under the log's top, whose number and
      identifier are computed from a content and a parent; and under the top it says of these two what can be
      read, exactly. */
  ghost predicate FoundAtTop(env: Env, store: Store, db: string, id: string, l: Log, prev: Rev, content: Json) {
    && l.quads != [] && Legit(prev) && WellFormed(content) && Computed(env, Top(l), prev, content)
    && Get(env, store, db, id, None, false, false, true) == Got(true, None, None, Some(ToJson(l)))
    && (forall wantContent, wantRev :: wantContent || wantRev ==>
      Get(env, store, db, id, None, wantContent, wantRev, false)
        == Get(env, store, db, id, Some(Top(l)), wantContent, wantRev, false))
    && ReadExactly(env, store, db, id, Top(l), prev, content)
  }

  lemma GetFindsTop(env: Env, store: Store, db: string, id: string)
    requires GoodStore(env, store) && MakePath(db, id) in store
    ensures exists l, prev, content :: FoundAtTop(env, store, db, id, l, prev, content)
  {
    hide StringToJson, WellFormed, MakePath, Get, ToJson, LogText, BodyText, HexText, Computed, Legit, ReadExactly;
    assert GoodDoc(env, store, db, id);
    var l, prev, content :| Readable(env, store, db, id, l, prev, content);
    LogReads(env, l);
    TopOf(l);
    GetLogUnfold(env, store, db, id, ToJson(l));
    GetTopUnfold(env, store, db, id, ToJson(l), Top(l));
    DocReadsExactly(env, store, db, id, Top(l), prev, content);
    assert FoundAtTop(env, store, db, id, l, prev, content);
  }

  /** After any run of calls from an empty store, merging or not, every existing document is found without a
      revision at its log's top, with the content and the parent that top was computed from, exactly where the
      content's text keeps it. */
  lemma RunsAlwaysReadable(env: Env, ops: seq<Op>, db: string, id: string)
    requires RealOps(ops)
    ensures var store := RunOps(env, map[], ops);
      MakePath(db, id) in store ==> exists l, prev, content :: FoundAtTop(env, store, db, id, l, prev, content)
  {
    hide StringToJson, MakePath, RunOps, FoundAtTop, GoodStore, RealOps;
    EmptyStoreIsGood(env);
    RunKeepsGood(env, map[], ops);
    var store := RunOps(env, map[], ops);
    if MakePath(db, id) in store {
      GetFindsTop(env, store, db, id);
    }
  }
}
