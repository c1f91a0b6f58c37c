/** Stored revisions survive every later call. */
module Immutability {
  import opened Strings
  import opened JsonValue
  import opened Render
  import opened Parsing
  import opened RoundTrip
  import opened Revision
  import opened DatabaseSpec
  import opened StoredText
  import opened Keys
  import Conflict
  import FixedPoint

  /** The revision a call would assign, and the text it would store. */
  function NewBody(env: Env, op: Op): string { BodyText(env, op.prev, op.content) }
  function NewRev(env: Env, op: Op): Rev { ComputeRevision(env, op.prev, NewBody(env, op)) }

  /** A call writes nothing, or its own document and at most its own log: no other key changes. */
  lemma ApplyFrame(env: Env, store: Store, op: Op)
    ensures var path, key := MakePath(op.db, op.id), DocKey(op.db, op.id, NewRev(env, op));
      var after := Apply(env, store, op).0;
      (forall k :: k != path && k != key ==> (k in after <==> k in store) && (k in store ==> after[k] == store[k])) &&
      (after == store || (key in after && (key != path ==> after[key] == NewBody(env, op))))
    ensures var path := MakePath(op.db, op.id); path in store ==> path in Apply(env, store, op).0
  {
    hide StringToJson, BodyText, Text, Conflict.MergeJson, ComputeRevision, MakePath;
  }

  /** A successful call has stored its document. */
  lemma SuccessStores(env: Env, store: Store, op: Op)
    ensures var (after, outcome) := Apply(env, store, op);
      outcome.Done? && outcome.result.code.UpdateOk? ==>
        outcome.result.newRev == NewRev(env, op) && !NewRev(env, op).Empty() &&
        DocKey(op.db, op.id, NewRev(env, op)) in after && after[DocKey(op.db, op.id, NewRev(env, op))] == NewBody(env, op)
  {
    NewRevIsPlain(env, op);
    DocKeyIsNoPath(op.db, op.id, NewRev(env, op), op.db, op.id);
    hide StringToJson, BodyText, Text, Conflict.MergeJson, ComputeRevision, MakePath;
  }

  lemma NewRevIsPlain(env: Env, op: Op)
    ensures HexText(NewRev(env, op).uniq) && PlainText(NewRev(env, op).text)
    ensures NewRev(env, op) == MakeRev(NewRev(env, op).num, NewRev(env, op).uniq)
  {
    ComputedIsHex(env, op.prev, NewBody(env, op));
    HexRevIsPlain(NewRev(env, op).num, NewRev(env, op).uniq);
  }

  /** The number a call assigns: one more than its parent's, or none left. */
  lemma NewNumber(env: Env, op: Op)
    ensures NewRev(env, op).Empty() <==> op.prev.num == 0xFFFF_FFFF
    ensures NewRev(env, op).Empty() || NewRev(env, op).num == op.prev.num + 1
  {
  }

  /** No later call stores a different text with the digest of this one: what "MD5 never collides" means for
      the texts of one run. */
  ghost predicate NoCollision(env: Env, body: string, ops: seq<Op>) {
    forall i :: 0 <= i < |ops| ==> env.md5(NewBody(env, ops[i])) == env.md5(body) ==> NewBody(env, ops[i]) == body
  }

  /** One later call leaves a stored text alone. */
  lemma OpKeepsDoc(env: Env, store: Store, db: string, id: string, prev: Rev, body: string, op: Op)
    requires var key := DocKey(db, id, ComputeRevision(env, prev, body)); key in store && store[key] == body
    requires env.md5(NewBody(env, op)) == env.md5(body) ==> NewBody(env, op) == body
    ensures var key, after := DocKey(db, id, ComputeRevision(env, prev, body)), Apply(env, store, op).0;
      key in after && after[key] == body
  {
    var rev := ComputeRevision(env, prev, body);
    ApplyFrame(env, store, op);
    ComputedIsHex(env, prev, body);
    HexRevIsPlain(rev.num, rev.uniq);
    NewRevIsPlain(env, op);
    DocKeyIsNoPath(db, id, rev, op.db, op.id);
    DocKeyIsNoPath(op.db, op.id, NewRev(env, op), op.db, op.id);
    if DocKey(db, id, rev) == DocKey(op.db, op.id, NewRev(env, op)) {
      DocKeyInjective(db, id, rev, op.db, op.id, NewRev(env, op));
      TextInjective(rev.num, rev.uniq, NewRev(env, op).num, NewRev(env, op).uniq);
      HexOfInjective(env.md5(body), env.md5(NewBody(env, op)));
    }
  }

  lemma {:induction false} RunKeepsDoc(env: Env, store: Store, db: string, id: string, prev: Rev, body: string, ops: seq<Op>)
    requires NoCollision(env, body, ops)
    requires var key := DocKey(db, id, ComputeRevision(env, prev, body)); key in store && store[key] == body
    ensures var key, after := DocKey(db, id, ComputeRevision(env, prev, body)), RunOps(env, store, ops);
      key in after && after[key] == body
    decreases |ops|
  {
    hide DocKey, ComputeRevision, Apply, NewBody;
    if ops != [] {
      OpKeepsDoc(env, store, db, id, prev, body, ops[0]);
      RunKeepsDoc(env, Apply(env, store, ops[0]).0, db, id, prev, body, ops[1..]);
    }
  }

  // ---- what `get` says of a stored revision ----

  /** A stored text under a revision. */
  ghost predicate HasDoc(env: Env, store: Store, db: string, id: string, rev: Rev, prev: Rev, content: Json) {
    DocKey(db, id, rev) in store && store[DocKey(db, id, rev)] == BodyText(env, prev, content)
  }

  /** A storable document read under its revision. */
  lemma DocReads(env: Env, store: Store, db: string, id: string, rev: Rev, prev: Rev, content: Json)
    requires Storable(env.libc, content) && HasDoc(env, store, db, id, rev, prev, content)
    ensures forall log :: ReadDoc(env, store, db, id, rev, true, false, log) == Got(true, Some(Norm(env.libc, content)), None, log)
    ensures ParseRev(prev.text) == Some(prev) ==>
      forall log :: ReadDoc(env, store, db, id, rev, true, true, log)
        == Got(true, Some(Norm(env.libc, content)), Some(RevInfo(id, false, prev, rev)), log)
    ensures ParseRev(prev.text) == None ==> forall log :: ReadDoc(env, store, db, id, rev, true, true, log) == GetThrew
  {
    hide StringToJson, BodyText, ParseRev, Norm, DocKey;
    BodyReads(env, prev, content);
  }

  /** `get` returns a content exactly when the stored text has it. */
  lemma ContentRead(env: Env, store: Store, db: string, id: string, rev: Rev, content: Json)
    requires DocKey(db, id, rev) in store
    ensures Get(env, store, db, id, Some(rev), true, false, false) == Got(true, Some(content), None, None) <==>
      ContentOf(env, store[DocKey(db, id, rev)]) == Some(content)
  {
    hide StringToJson, DocKey;
  }

  lemma InfoNeedsContent(env: Env, store: Store, db: string, id: string, rev: Rev, content: Json, info: Option<RevInfo>)
    requires Get(env, store, db, id, Some(rev), true, true, false) == Got(true, Some(content), info, None)
    ensures Get(env, store, db, id, Some(rev), true, false, false) == Got(true, Some(content), None, None)
  {
    hide StringToJson, DocKey, ParseRev;
  }

  /** What `get` returns for content and revision information of a storable document: a parent whose string
      does not read back makes it throw. */
  function Both(id: string, rev: Rev, prev: Rev, content: Json): Got {
    if ReadsBack(prev) then Got(true, Some(content), Some(RevInfo(id, false, prev, rev)), None) else GetThrew
  }

  /** What `get` says under a revision, exactly. If the content prints as JSON, its norm comes back if and only if
      no key in it is empty, and then the parent comes with it. If the C library writes doubles as numbers, the
      very content comes back if and only if it has the stable shape and its doubles survive. */
  ghost predicate ReadExactly(env: Env, store: Store, db: string, id: string, rev: Rev, prev: Rev, content: Json) {
    var alone := Get(env, store, db, id, Some(rev), true, false, false);
    var both := Get(env, store, db, id, Some(rev), true, true, false);
    var norm := Norm(env.libc, content);
    && (Printable(env.libc, content) ==>
      && (alone == Got(true, Some(norm), None, None) <==> NamedKeys(content))
      && (NamedKeys(content) ==> both == Both(id, rev, prev, norm))
      && (ReadsBack(prev) ==> (both == Both(id, rev, prev, norm) <==> NamedKeys(content))))
    && (FixedPoint.ProperLibc(env.libc) ==>
      (alone == Got(true, Some(content), None, None) <==>
        FixedPoint.Image(content) && FixedPoint.DoublesSurvive(env.libc, content)))
  }

  lemma DocReadsExactly(env: Env, store: Store, db: string, id: string, rev: Rev, prev: Rev, content: Json)
    requires HasDoc(env, store, db, id, rev, prev, content) && WellFormed(content) && Legit(prev)
    ensures ReadExactly(env, store, db, id, rev, prev, content)
  {
    hide Get, DocKey, BodyText, ContentOf, Norm, WellFormed, Printable, NamedKeys, Legit, ParseRev, Storable,
      FixedPoint.Image, FixedPoint.DoublesSurvive, FixedPoint.ProperLibc;
    var norm := Norm(env.libc, content);
    ContentRead(env, store, db, id, rev, norm);
    ContentRead(env, store, db, id, rev, content);
    if FixedPoint.ProperLibc(env.libc) { ContentReadsExactly(env, prev, content); }
    if Printable(env.libc, content) {
      NormReadsExactly(env, prev, content);
      if NamedKeys(content) { BothRead(env, store, db, id, rev, prev, content); }
      if ReadsBack(prev) && Get(env, store, db, id, Some(rev), true, true, false) == Both(id, rev, prev, norm) {
        InfoNeedsContent(env, store, db, id, rev, norm, Some(RevInfo(id, false, prev, rev)));
      }
    }
  }

  lemma BothRead(env: Env, store: Store, db: string, id: string, rev: Rev, prev: Rev, content: Json)
    requires HasDoc(env, store, db, id, rev, prev, content) && Legit(prev)
    requires WellFormed(content) && Printable(env.libc, content) && NamedKeys(content)
    ensures Get(env, store, db, id, Some(rev), true, true, false) == Both(id, rev, prev, Norm(env.libc, content))
  {
    LegitReads(prev);
    assert Storable(env.libc, content);
    hide DocKey, BodyText, Norm, Storable, WellFormed, Printable, NamedKeys, Legit, ParseRev, ReadDoc;
    DocReads(env, store, db, id, rev, prev, content);
  }

  /** Stored revisions are immutable over whole runs: after a call that assigns revision `r`, and any calls
      after it, on this or other documents and databases, merging or not, `get` under `r` returns the content and
      the parent of that call, exactly where the content's text keeps it. */
  lemma StoredForever(env: Env, store: Store, op: Op, later: seq<Op>)
    requires NoCollision(env, NewBody(env, op), later) && WellFormed(op.content) && Legit(op.prev)
    requires var outcome := Apply(env, store, op).1; outcome.Done? && outcome.result.code.UpdateOk?
    ensures var (after, outcome) := Apply(env, store, op);
      ReadExactly(env, RunOps(env, after, later), op.db, op.id, outcome.result.newRev, op.prev, op.content)
  {
    var (after, outcome) := Apply(env, store, op);
    SuccessStores(env, store, op);
    hide Apply, RunOps, BodyText, ComputeRevision, WellFormed, MakePath, DocKey, Legit, ReadExactly;
    RunKeepsDoc(env, after, op.db, op.id, op.prev, NewBody(env, op), later);
    DocReadsExactly(env, RunOps(env, after, later), op.db, op.id, outcome.result.newRev, op.prev, op.content);
  }

  /** Under a C library that writes doubles as numbers, `get` returns the very content after every later run if
      and only if that content is a value that survives its text. */
  lemma StoredExactly(env: Env, store: Store, op: Op, later: seq<Op>)
    requires NoCollision(env, NewBody(env, op), later) && WellFormed(op.content) && Legit(op.prev)
    requires FixedPoint.ProperLibc(env.libc)
    requires var outcome := Apply(env, store, op).1; outcome.Done? && outcome.result.code.UpdateOk?
    ensures var (after, outcome) := Apply(env, store, op);
      var got := Get(env, RunOps(env, after, later), op.db, op.id, Some(outcome.result.newRev), true, false, false);
      got == Got(true, Some(op.content), None, None) <==>
      FixedPoint.Image(op.content) && FixedPoint.DoublesSurvive(env.libc, op.content)
  {
    StoredForever(env, store, op, later);
    hide Apply, RunOps, NoCollision, Get, WellFormed, Legit, FixedPoint.Image, FixedPoint.DoublesSurvive;
  }
}
