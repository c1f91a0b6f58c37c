/** What merging and non-merging calls do to the heads of a document: the merge invariant over whole runs. */
module MergingRuns {
  import opened Revision
  import opened RevLog
  import opened DatabaseSpec
  import opened StoredText
  import opened Keys
  import opened Immutability
  import opened History
  import opened Convergence
  import Conflict

  /** The document's log says what these heads say, and they satisfy the merge invariant. */
  ghost predicate HasHeads(env: Env, store: Store, db: string, id: string, h: Heads) {
    Inv(h) && exists l :: HasLog(env, store, db, id, l) && Represents(l, h)
  }

  ghost predicate Headed(env: Env, store: Store, db: string, id: string) {
    MakePath(db, id) in store ==> exists h :: HasHeads(env, store, db, id, h)
  }

  /** A computed revision, unless its number wrapped around, is canonical. */
  lemma NewIsCanonical(env: Env, op: Op)
    ensures Canonical(NewRev(env, op)) <==> !NewRev(env, op).Empty()
  {
    NewRevIsPlain(env, op);
  }

  /** A merging call joins the new revision to the heads, and no assertion fails. */
  lemma MergingCall(env: Env, store: Store, op: Op, h: Heads)
    requires HasHeads(env, store, op.db, op.id, h) && op.doMerge && !Same(op.prev, h.top)
    requires !NewRev(env, op).Empty() && NewRev(env, op) != h.top
    ensures var (after, outcome) := Apply(env, store, op);
      outcome.Done? && outcome.result.code.UpdateOk? &&
      exists g :: HasHeads(env, after, op.db, op.id, g) && Members(g) == Members(h) + {NewRev(env, op)}
  {
    hide Apply, MakePath, BodyText, NewRev, LogText, Write, Wins, Members, Conflict.MergeLog, MergeHeads, Inv, ToJson;
    var rev := NewRev(env, op);
    var l :| HasLog(env, store, op.db, op.id, l) && Represents(l, h);
    NewIsCanonical(env, op);
    NewRevIsPlain(env, op);
    PutOnLog(env, store, op, l);
    WriteMergesNew(env, store, op, l);
    OneHead(rev);
    assert Texts([]) == [];
    MergeLogIsMergeHeads(l, h, rev, []);
    MergeJoins(h, Heads(rev, []));
    var g := MergeHeads(h, rev, []).log;
    assert HasHeads(env, Apply(env, store, op).0, op.db, op.id, g);
  }

  /** A revision alone makes well-formed heads. */
  lemma OneHead(rev: Rev)
    requires Canonical(rev)
    ensures Inv(Heads(rev, [])) && Members(Heads(rev, [])) == {rev}
  {
    assert SetOf([]) == {};
  }

  lemma WriteMergesNew(env: Env, store: Store, op: Op, l: Log)
    requires HasLog(env, store, op.db, op.id, l)
    ensures var rev := NewRev(env, op); var (after, outcome) := Write(env,
      store, MakePath(op.db, op.id), ToJson(l), true, true, op.prev, op.content);
      !rev.Empty() && Conflict.MergeLog(l, rev, []).Merged? && Conflict.MergeLog(l, rev, []).log.quads != [] ==>
        outcome.Done? && outcome.result.code.UpdateOk? && HasLog(env, after, op.db, op.id, Conflict.MergeLog(l, rev, []).log)
  {
    hide MakePath, BodyText, ComputeRevision, LogText, Write, Conflict.MergeLog, ToJson;
    WriteMerges(env, store, MakePath(op.db, op.id), l, op.prev, op.content);
  }

  /** A call on the current top, merging or not, puts the new revision in its place. */
  lemma CallOnTop(env: Env, store: Store, op: Op, h: Heads)
    requires HasHeads(env, store, op.db, op.id, h) && Same(op.prev, h.top) && !NewRev(env, op).Empty()
    ensures var (after, outcome) := Apply(env, store, op);
      outcome.Done? && outcome.result.code.UpdateOk? && HasHeads(env, after, op.db, op.id, Heads(NewRev(env, op), h.conflicts))
  {
    hide Apply, MakePath, BodyText, ComputeRevision, LogText, Write, ToJson;
    var rev := NewRev(env, op);
    var l :| HasLog(env, store, op.db, op.id, l) && Represents(l, h);
    NewIsCanonical(env, op);
    NewRevIsPlain(env, op);
    PutOnLog(env, store, op, l);
    WriteExtends(env, store, MakePath(op.db, op.id), l, true, op.prev, op.content);
    var m := Extended(l, true, op.prev, rev);
    assert m.conflicts == l.conflicts && Top(m) == rev;
    NewNumber(env, op);
    NextBeatsAll(h, rev);
    assert HasLog(env, Apply(env, store, op).0, op.db, op.id, m) && Represents(m, Heads(rev, h.conflicts));
  }

  lemma NextBeatsAll(h: Heads, rev: Rev)
    requires Inv(h) && Canonical(rev) && rev.num > h.top.num
    ensures Inv(Heads(rev, h.conflicts))
  {
    hide Canonical;
  }

  lemma FirstHead(env: Env, store: Store, op: Op)
    requires MakePath(op.db, op.id) !in store && !NewRev(env, op).Empty()
    ensures var (after, outcome) := Apply(env, store, op);
      outcome.Done? && outcome.result.code.UpdateOk? && HasHeads(env, after, op.db, op.id, Heads(NewRev(env, op), []))
  {
    hide Apply, MakePath, BodyText, ComputeRevision, LogText, Write, ToJson;
    var rev := NewRev(env, op);
    NewIsCanonical(env, op);
    NewRevIsPlain(env, op);
    PutOnNothing(env, store, op);
    WriteExtends(env, store, MakePath(op.db, op.id), Log([], []), false, op.prev, op.content);
    var m := Extended(Log([], []), false, op.prev, rev);
    assert Top(m) == rev && Texts([]) == [];
    OneHead(rev);
    assert HasLog(env, Apply(env, store, op).0, op.db, op.id, m) && Represents(m, Heads(rev, []));
  }

  // ---- exactly when a call keeps the heads well formed, and exactly when it crashes ----

  /** The call is rejected: it names another revision than the top, and does not merge. */
  ghost predicate Rejected(env: Env, store: Store, op: Op) {
    !op.doMerge && exists h :: HasHeads(env, store, op.db, op.id, h) && !Same(op.prev, h.top)
  }

  /** The call merges a revision that is the top already. */
  ghost predicate Remerges(env: Env, store: Store, op: Op) {
    op.doMerge && exists h :: HasHeads(env, store, op.db, op.id, h) && !Same(op.prev, h.top) && NewRev(env, op) == h.top
  }

  /** No number is left for the revision. */
  predicate Wraps(op: Op) { op.prev.num == 0xFFFF_FFFF }

  lemma WrapsExactly(env: Env, op: Op)
    ensures NewRev(env, op).Empty() <==> Wraps(op)
  {
  }

  lemma HeadsAreUnique(env: Env, store: Store, db: string, id: string, h: Heads, g: Heads)
    requires HasHeads(env, store, db, id, h) && HasHeads(env, store, db, id, g)
    ensures h.top == g.top && Texts(h.conflicts) == Texts(g.conflicts)
  {
    hide HasLog, Inv;
    var l :| HasLog(env, store, db, id, l) && Represents(l, h);
    var m :| HasLog(env, store, db, id, m) && Represents(m, g);
    LogIsUnique(env, store, db, id, l, m);
  }

  lemma NoHeadsWithTopBelow(h: Heads)
    requires Inv(h)
    ensures h.top.text !in Texts(h.conflicts)
  {
    TextIn(h.conflicts, h.top);
    WinsTrichotomy(h.top, h.top);
  }

  /** What `merge` makes of its own top: another entry for it, and the top among its own conflicts. */
  lemma RemergedLog(l: Log, h: Heads)
    requires Represents(l, h) && Inv(h)
    ensures var r := Conflict.MergeLog(l, h.top, []);
      r.Merged? && r.log.quads != [] && Top(r.log) == h.top && h.top.text in r.log.conflicts
  {
    NoHeadsWithTopBelow(h);
    WinsTrichotomy(h.top, h.top);
    hide Wins, Texts;
  }

  /** Merging the current top succeeds and leaves a log that no well-formed heads describe. */
  lemma RemergeBreaks(env: Env, store: Store, op: Op, h: Heads)
    requires HasHeads(env, store, op.db, op.id, h) && op.doMerge && !Same(op.prev, h.top)
    requires NewRev(env, op) == h.top
    ensures var (after, outcome) := Apply(env, store, op);
      outcome.Done? && outcome.result.code.UpdateOk? && !Headed(env, after, op.db, op.id)
  {
    hide Apply, MakePath, NewRev, LogText, Write, Wins, Conflict.MergeLog, Inv, ToJson, Texts;
    var l :| HasLog(env, store, op.db, op.id, l) && Represents(l, h);
    NewIsCanonical(env, op);
    PutOnLog(env, store, op, l);
    WriteMergesNew(env, store, op, l);
    RemergedLog(l, h);
    var after := Apply(env, store, op).0;
    var m := Conflict.MergeLog(l, h.top, []).log;
    forall g | HasHeads(env, after, op.db, op.id, g) ensures false {
      var n :| HasLog(env, after, op.db, op.id, n) && Represents(n, g);
      LogIsUnique(env, after, op.db, op.id, m, n);
      NoHeadsWithTopBelow(g);
    }
  }

  /** A call whose number wraps around stops at an assertion, with its log as it was, unless it is rejected. */
  lemma WrappedCall(env: Env, store: Store, op: Op)
    requires Headed(env, store, op.db, op.id) && NewRev(env, op).Empty() && !Rejected(env, store, op)
    ensures Apply(env, store, op).1 == AssertFailure && Headed(env, Apply(env, store, op).0, op.db, op.id)
  {
    hide Apply, MakePath, BodyText, ComputeRevision, LogText, Write, ToJson, Inv, Represents;
    var path := MakePath(op.db, op.id);
    NewRevIsPlain(env, op);
    DocKeyIsNoPath(op.db, op.id, NewRev(env, op), op.db, op.id);
    if path !in store {
      PutOnNothing(env, store, op);
      WriteExtends(env, store, path, Log([], []), false, op.prev, op.content);
    } else {
      var h :| HasHeads(env, store, op.db, op.id, h);
      var l :| HasLog(env, store, op.db, op.id, l) && Represents(l, h);
      TopOfHeads(l, h);
      PutOnLog(env, store, op, l);
      WriteExtends(env, store, path, l, true, op.prev, op.content);
      WriteMerges(env, store, path, l, op.prev, op.content);
      assert HasLog(env, Apply(env, store, op).0, op.db, op.id, l);
      assert HasHeads(env, Apply(env, store, op).0, op.db, op.id, h);
    }
  }

  lemma TopOfHeads(l: Log, h: Heads)
    requires Represents(l, h)
    ensures l.quads != [] && Top(l) == h.top
  {
  }

  lemma RejectedCall(env: Env, store: Store, op: Op)
    requires Rejected(env, store, op)
    ensures var (after, outcome) := Apply(env, store, op); after == store && outcome.Done? && outcome.result.code.UpdateConflict?
  {
    hide Apply, MakePath, LogText, ToJson, Inv, Write;
    var h :| HasHeads(env, store, op.db, op.id, h) && !Same(op.prev, h.top);
    var l :| HasLog(env, store, op.db, op.id, l) && Represents(l, h);
    PutOnLog(env, store, op, l);
  }

  /** A call, merging or not, keeps its document's heads well formed if and only if it does not merge the
      current top; and it fails an assertion if and only if its number wraps around and it is not rejected. */
  lemma CallKeepsHeadsExactly(env: Env, store: Store, op: Op)
    requires Headed(env, store, op.db, op.id)
    ensures var (after, outcome) := Apply(env, store, op);
      (Headed(env, after, op.db, op.id) <==> !Remerges(env, store, op)) &&
      (if Wraps(op) && !Rejected(env, store, op) then outcome == AssertFailure else outcome.Done?)
  {
    hide Apply, HasHeads, NewRev;
    WrapsExactly(env, op);
    if Rejected(env, store, op) {
      RejectedCall(env, store, op);
    } else if Wraps(op) {
      WrappedCall(env, store, op);
      RemergeNeedsNumber(env, store, op);
    } else if MakePath(op.db, op.id) !in store {
      NoLogNoHeads(env, store, op.db, op.id);
      FirstHead(env, store, op);
    } else {
      var h :| HasHeads(env, store, op.db, op.id, h);
      forall g | HasHeads(env, store, op.db, op.id, g) ensures g.top == h.top { HeadsAreUnique(env, store, op.db, op.id, h, g); }
      if Same(op.prev, h.top) {
        CallOnTop(env, store, op, h);
      } else if NewRev(env, op) != h.top {
        MergingCall(env, store, op, h);
      } else {
        RemergeBreaks(env, store, op, h);
      }
    }
  }

  lemma RemergeNeedsNumber(env: Env, store: Store, op: Op)
    ensures Remerges(env, store, op) ==> !NewRev(env, op).Empty()
  {
    hide NewRev, HasLog, AllCanonical;
  }

  lemma NoLogNoHeads(env: Env, store: Store, db: string, id: string)
    ensures forall h :: HasHeads(env, store, db, id, h) ==> MakePath(db, id) in store
  {
    hide MakePath, Inv, Represents;
  }

  lemma OtherDocStaysHeaded(env: Env, store: Store, op: Op, db: string, id: string)
    requires !SameDoc(db, id, op.db, op.id) && Headed(env, store, db, id)
    ensures Headed(env, Apply(env, store, op).0, db, id)
  {
    hide Apply, MakePath, LogText, DocKey, Inv, Represents;
    OtherLog(env, store, op, db, id);
    if MakePath(db, id) in store {
      var h :| HasHeads(env, store, db, id, h);
      var l :| HasLog(env, store, db, id, l) && Represents(l, h);
      assert HasLog(env, Apply(env, store, op).0, db, id, l);
      assert HasHeads(env, Apply(env, store, op).0, db, id, h);
    }
  }

  // ---- runs ----

  ghost predicate AllHeaded(env: Env, store: Store) {
    forall db, id :: Headed(env, store, db, id)
  }

  /** At every point of the run every document has well-formed heads. */
  ghost predicate HeadedThroughout(env: Env, store: Store, ops: seq<Op>)
    decreases |ops|
  {
    AllHeaded(env, store) && (ops != [] ==> HeadedThroughout(env, Apply(env, store, ops[0]).0, ops[1..]))
  }

  /** No call of the run merges a revision that is the top already. */
  ghost predicate NeverRemerges(env: Env, store: Store, ops: seq<Op>)
    decreases |ops|
  {
    ops != [] ==> !Remerges(env, store, ops[0]) && NeverRemerges(env, Apply(env, store, ops[0]).0, ops[1..])
  }

  /** Every call of the run returns. */
  predicate NoCrash(env: Env, store: Store, ops: seq<Op>)
    decreases |ops|
  {
    ops != [] ==> Apply(env, store, ops[0]).1.Done? && NoCrash(env, Apply(env, store, ops[0]).0, ops[1..])
  }

  /** Every call of the run has a number left or is rejected. */
  ghost predicate NeverWraps(env: Env, store: Store, ops: seq<Op>)
    decreases |ops|
  {
    ops != [] ==> (Wraps(ops[0]) ==> Rejected(env, store, ops[0])) && NeverWraps(env, Apply(env, store, ops[0]).0, ops[1..])
  }

  lemma HeadedByKeys(env: Env, store: Store, db: string, id: string, db2: string, id2: string)
    requires SameDoc(db, id, db2, id2)
    ensures Headed(env, store, db, id) ==> Headed(env, store, db2, id2)
  {
    hide MakePath, Inv, Represents, LogText;
    if Headed(env, store, db, id) && MakePath(db, id) in store {
      var h :| HasHeads(env, store, db, id, h);
      var l :| HasLog(env, store, db, id, l) && Represents(l, h);
      assert HasLog(env, store, db2, id2, l);
      assert HasHeads(env, store, db2, id2, h);
    }
  }

  lemma CallKeepsAllHeaded(env: Env, store: Store, op: Op)
    requires AllHeaded(env, store)
    ensures AllHeaded(env, Apply(env, store, op).0) <==> !Remerges(env, store, op)
    ensures Apply(env, store, op).1.Done? <==> (Wraps(op) ==> Rejected(env, store, op))
  {
    hide Apply, Headed, Remerges, Rejected;
    CallKeepsHeadsExactly(env, store, op);
    var after := Apply(env, store, op).0;
    forall db, id ensures Headed(env, after, op.db, op.id) || !SameDoc(db, id, op.db, op.id) ==> Headed(env, after, db, id) {
      if SameDoc(db, id, op.db, op.id) {
        HeadedByKeys(env, after, op.db, op.id, db, id);
      } else {
        OtherDocStaysHeaded(env, store, op, db, id);
      }
    }
  }

  /** Over whole runs, merging or not, on any documents: every document's top stays the strict winner over its
      conflicts, none listed twice, if and only if no call merges a current top; and then the run never crashes
      if and only if every call has a number left or is rejected. */
  lemma {:induction false} RunKeepsHeads(env: Env, store: Store, ops: seq<Op>)
    requires AllHeaded(env, store)
    ensures HeadedThroughout(env, store, ops) <==> NeverRemerges(env, store, ops)
    ensures NeverRemerges(env, store, ops) ==> (NoCrash(env, store, ops) <==> NeverWraps(env, store, ops))
    decreases |ops|
  {
    hide Apply, AllHeaded, Remerges, Rejected, Wraps;
    if ops != [] {
      CallKeepsAllHeaded(env, store, ops[0]);
      var after := Apply(env, store, ops[0]).0;
      if Remerges(env, store, ops[0]) {
        assert !AllHeaded(env, after);
        NotHeadedAtStart(env, after, ops[1..]);
      } else {
        RunKeepsHeads(env, after, ops[1..]);
      }
    }
  }

  lemma NotHeadedAtStart(env: Env, store: Store, ops: seq<Op>)
    requires !AllHeaded(env, store)
    ensures !HeadedThroughout(env, store, ops)
  {
    hide AllHeaded, Apply;
  }

  /** The same from an empty store. */
  lemma RunFromNothingKeepsHeads(env: Env, ops: seq<Op>)
    ensures HeadedThroughout(env, map[], ops) <==> NeverRemerges(env, map[], ops)
    ensures NeverRemerges(env, map[], ops) ==> (NoCrash(env, map[], ops) <==> NeverWraps(env, map[], ops))
  {
    assert AllHeaded(env, map[]);
    hide *;
    RunKeepsHeads(env, map[], ops);
  }
}
