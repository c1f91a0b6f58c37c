/** Without merging, the history of a document is a line. */
module Linear {
  import opened Strings
  import opened JsonValue
  import opened Render
  import opened RoundTrip
  import opened Revision
  import opened RevLog
  import opened DatabaseSpec
  import opened StoredText
  import opened Keys
  import opened Immutability
  import opened History
  import Conflict

  function RevOf(q: Quad): Rev { MakeRev(q.num, q.uniq) }

  /** Quad `i` follows quad `i - 1`; the first has no parent. The parent is a real revision, so its string,
      which is all that is stored of it, says which one it is. */
  predicate Follows(quads: seq<Quad>, i: nat, parent: Rev)
    requires i < |quads|
  {
    Legit(parent) && if i == 0 then parent.Empty() else Same(parent, RevOf(quads[i - 1]))
  }

  /** The revision in quad `i` is stored, with the quad before it as its parent; and, if `storable` asks for
      it, with content that can be read back. */
  ghost predicate EntryStored(env: Env, store: Store, db: string, id: string, quads: seq<Quad>, i: nat, storable: bool)
    requires i < |quads|
  {
    HexText(quads[i].uniq) &&
    exists parent, content :: Entry(env, store, db, id, quads, i, storable, parent, content)
  }

  ghost predicate Entry(env: Env, store: Store, db: string, id: string, quads: seq<Quad>, i: nat, storable: bool,
    parent: Rev, content: Json)
    requires i < |quads|
  {
    Follows(quads, i, parent) && HasDoc(env, store, db, id, RevOf(quads[i]), parent, content) &&
    (storable ==> Storable(env.libc, content))
  }

  /** Consecutive numbers from at least 1; only a first quad that is a missing prior revision is unavailable. */
  predicate Line(quads: seq<Quad>) {
    && (forall i :: 0 <= i < |quads| ==> quads[i].num == quads[0].num + i && quads[i].num >= 1)
    && (forall i :: 0 <= i < |quads| ==> !quads[i].deleted && (quads[i].available || (i == 0 && |quads| > 1)))
  }

  /** All available entries of a log are stored. */
  ghost predicate AllStored(env: Env, store: Store, db: string, id: string, quads: seq<Quad>, storable: bool) {
    forall i :: 0 <= i < |quads| && quads[i].available ==> EntryStored(env, store, db, id, quads, i, storable)
  }

  ghost predicate LinearLog(env: Env, store: Store, db: string, id: string, l: Log, storable: bool) {
    && HasLog(env, store, db, id, l) && l.conflicts == [] && Line(l.quads)
    && AllStored(env, store, db, id, l.quads, storable)
  }

  ghost predicate LinearDoc(env: Env, store: Store, db: string, id: string, storable: bool) {
    MakePath(db, id) in store ==> exists l :: LinearLog(env, store, db, id, l, storable)
  }

  lemma EntryKept(env: Env, store: Store, op: Op, db: string, id: string, quads: seq<Quad>, i: nat, storable: bool)
    requires i < |quads| && EntryStored(env, store, db, id, quads, i, storable)
    requires !SameDoc(db, id, op.db, op.id) || quads[i].num != NewRev(env, op).num
    ensures EntryStored(env, Apply(env, store, op).0, db, id, quads, i, storable)
  {
    hide Apply, HasDoc, HexText, Follows, NewRev, Storable;
    var parent, content :| Entry(env, store, db, id, quads, i, storable, parent, content);
    DocKept(env, store, op, db, id, RevOf(quads[i]), parent, content);
    assert Entry(env, Apply(env, store, op).0, db, id, quads, i, storable, parent, content);
  }

  /** A longer list of quads says the same of its beginning. */
  lemma EntryExtends(env: Env, store: Store, db: string, id: string, quads: seq<Quad>, q: Quad, i: nat, storable: bool)
    requires i < |quads| && EntryStored(env, store, db, id, quads, i, storable)
    ensures EntryStored(env, store, db, id, quads + [q], i, storable)
  {
    hide HasDoc, HexText, MakeRev, Legit, Storable;
    var parent, content :| Entry(env, store, db, id, quads, i, storable, parent, content);
    assert (quads + [q])[i] == quads[i];
    assert Entry(env, store, db, id, quads + [q], i, storable, parent, content);
  }

  // ---- one call ----

  lemma OtherDocStaysLinear(env: Env, store: Store, op: Op, db: string, id: string, storable: bool)
    requires !SameDoc(db, id, op.db, op.id) && LinearDoc(env, store, db, id, storable)
    ensures LinearDoc(env, Apply(env, store, op).0, db, id, storable)
  {
    hide Apply, MakePath, EntryStored, Line, LogText, DocKey;
    var after := Apply(env, store, op).0;
    OtherLog(env, store, op, db, id);
    if MakePath(db, id) in store {
      var l :| LinearLog(env, store, db, id, l, storable);
      forall i | 0 <= i < |l.quads| && l.quads[i].available ensures EntryStored(env, after, db, id, l.quads, i, storable) {
        EntryKept(env, store, op, db, id, l.quads, i, storable);
      }
      assert LinearLog(env, after, db, id, l, storable);
    }
  }

  /** The new revision's own entry. */
  lemma NewEntry(env: Env, store: Store, op: Op, quads: seq<Quad>, storable: bool)
    requires HasDoc(env, store, op.db, op.id, NewRev(env, op), op.prev, op.content)
    requires storable ==> Storable(env.libc, op.content)
    requires Follows(quads + [Quad(NewRev(env, op).num, NewRev(env, op).uniq, true, false)], |quads|, op.prev)
    ensures var q := Quad(NewRev(env, op).num, NewRev(env, op).uniq, true, false);
      EntryStored(env, store, op.db, op.id, quads + [q], |quads|, storable)
  {
    hide Follows, HasDoc, HexText, NewRev, MakeRev;
    NewRevIsPlain(env, op);
    var all := quads + [Quad(NewRev(env, op).num, NewRev(env, op).uniq, true, false)];
    assert RevOf(all[|quads|]) == NewRev(env, op);
    assert Entry(env, store, op.db, op.id, all, |quads|, storable, op.prev, op.content);
  }

  lemma SuccessHasDoc(env: Env, store: Store, op: Op)
    requires var outcome := Apply(env, store, op).1; outcome.Done? && outcome.result.code.UpdateOk?
    ensures HasDoc(env, Apply(env, store, op).0, op.db, op.id, NewRev(env, op), op.prev, op.content)
  {
    hide Apply, NewRev, BodyText, DocKey;
    SuccessStores(env, store, op);
  }

  /** A call that does not merge on a document that has a log. */
  lemma NoMergeOnLog(env: Env, store: Store, op: Op, l: Log)
    requires HasLog(env, store, op.db, op.id, l) && !op.doMerge
    ensures var (after, outcome) := Apply(env, store, op); var m := Extended(l, true, op.prev, NewRev(env, op));
      if !OnTop(l, op.prev) then after == store && outcome == Done(PutResult(UpdateConflict, EMPTY, ToJson(l)))
      else if NewRev(env, op).Empty() then HasLog(env, after, op.db, op.id, l) && outcome == AssertFailure
      else HasLog(env, after, op.db, op.id, m) && outcome == Done(PutResult(UpdateOk, NewRev(env, op), ToJson(m)))
  {
    hide Apply, MakePath, BodyText, ComputeRevision, LogText, Write, ToJson;
    var path, rev := MakePath(op.db, op.id), NewRev(env, op);
    NewRevIsPlain(env, op);
    DocKeyIsNoPath(op.db, op.id, rev, op.db, op.id);
    PutOnLog(env, store, op, l);
    WriteExtends(env, store, path, l, true, op.prev, op.content);
  }

  lemma LineExtends(quads: seq<Quad>, q: Quad)
    requires Line(quads) && quads != [] && q.num == quads[|quads| - 1].num + 1 && q.available && !q.deleted
    ensures Line(quads + [q])
  {
  }

  lemma AllKept(env: Env, store: Store, op: Op, quads: seq<Quad>, storable: bool)
    requires Line(quads) && quads != [] && AllStored(env, store, op.db, op.id, quads, storable)
    requires Same(op.prev, RevOf(quads[|quads| - 1]))
    ensures AllStored(env, Apply(env, store, op).0, op.db, op.id, quads, storable)
  {
    hide Apply, EntryStored, Line, NewRev;
    NewNumber(env, op);
    forall i | 0 <= i < |quads| && quads[i].available
      ensures EntryStored(env, Apply(env, store, op).0, op.db, op.id, quads, i, storable)
    {
      NumbersBelow(quads, i);
      EntryKept(env, store, op, op.db, op.id, quads, i, storable);
    }
  }

  lemma AllExtends(env: Env, store: Store, op: Op, quads: seq<Quad>, storable: bool)
    requires quads != [] && AllStored(env, store, op.db, op.id, quads, storable)
    requires Legit(op.prev) && (storable ==> Storable(env.libc, op.content))
    requires Same(op.prev, RevOf(quads[|quads| - 1])) && HasDoc(env, store, op.db, op.id, NewRev(env, op), op.prev, op.content)
    ensures AllStored(env, store, op.db, op.id, quads + [Quad(NewRev(env, op).num, NewRev(env, op).uniq, true, false)], storable)
  {
    hide EntryStored, NewRev, HasDoc;
    var q := Quad(NewRev(env, op).num, NewRev(env, op).uniq, true, false);
    NewEntry(env, store, op, quads, storable);
    forall i | 0 <= i < |quads| && quads[i].available ensures EntryStored(env, store, op.db, op.id, quads + [q], i, storable) {
      EntryExtends(env, store, op.db, op.id, quads, q, i, storable);
    }
  }

  lemma LinearFacts(env: Env, store: Store, db: string, id: string, l: Log, storable: bool)
    requires LinearLog(env, store, db, id, l, storable)
    ensures HasLog(env, store, db, id, l) && l.quads != [] && l.conflicts == [] && Line(l.quads) &&
      AllStored(env, store, db, id, l.quads, storable)
  {
  }

  lemma MakeLinear(env: Env, store: Store, db: string, id: string, l: Log, storable: bool)
    requires HasLog(env, store, db, id, l) && l.conflicts == [] && Line(l.quads) && AllStored(env, store, db, id, l.quads, storable)
    ensures LinearLog(env, store, db, id, l, storable)
  {
  }

  lemma ExtendedOnTop(l: Log, prev: Rev, rev: Rev)
    requires l.quads != [] && l.conflicts == []
    ensures Extended(l, true, prev, rev) == Log([], l.quads + [Quad(rev.num, rev.uniq, true, false)])
    ensures OnTop(l, prev) ==> Same(prev, RevOf(l.quads[|l.quads| - 1])) && prev.num == l.quads[|l.quads| - 1].num
  {
  }

  lemma OwnDocExtends(env: Env, store: Store, op: Op, l: Log, storable: bool)
    requires LinearLog(env, store, op.db, op.id, l, storable) && !op.doMerge
    requires Legit(op.prev) && (storable ==> Storable(env.libc, op.content))
    ensures exists m :: LinearLog(env, Apply(env, store, op).0, op.db, op.id, m, storable)
  {
    hide *;
    LinearFacts(env, store, op.db, op.id, l, storable);
    NoMergeOnLog(env, store, op, l);
    var after, rev := Apply(env, store, op).0, NewRev(env, op);
    var q := Quad(rev.num, rev.uniq, true, false);
    ExtendedOnTop(l, op.prev, rev);
    if OnTop(l, op.prev) {
      AllKept(env, store, op, l.quads, storable);
      if !rev.Empty() {
        NewNumber(env, op);
        LineExtends(l.quads, q);
        SuccessHasDoc(env, store, op);
        AllExtends(env, after, op, l.quads, storable);
        MakeLinear(env, after, op.db, op.id, Log([], l.quads + [q]), storable);
      } else {
        MakeLinear(env, after, op.db, op.id, l, storable);
      }
    }
  }

  lemma NumbersBelow(quads: seq<Quad>, i: nat)
    requires Line(quads) && i < |quads|
    ensures 1 <= quads[i].num <= quads[|quads| - 1].num
  {
  }

  lemma OwnDocBegins(env: Env, store: Store, op: Op, storable: bool)
    requires MakePath(op.db, op.id) !in store
    requires Legit(op.prev) && (storable ==> Storable(env.libc, op.content))
    ensures LinearDoc(env, Apply(env, store, op).0, op.db, op.id, storable)
  {
    hide Apply, MakePath, LogText, EntryStored, NewRev, HasLog, ToJson, HasDoc;
    FirstCall(env, store, op);
    var after, rev := Apply(env, store, op).0, NewRev(env, op);
    NewNumber(env, op);
    if !rev.Empty() {
      var q := Quad(rev.num, rev.uniq, true, false);
      var m := Extended(Log([], []), false, op.prev, rev);
      var before := if op.prev.Empty() then [] else [Quad(op.prev.num, op.prev.uniq, false, false)];
      assert m == Log([], before + [q]);
      SuccessHasDoc(env, store, op);
      NewEntry(env, after, op, before, storable);
      assert LinearLog(env, after, op.db, op.id, m, storable);
    }
  }

  // ---- runs ----

  /** No call in the run merges into this document; those on it have real revisions as parents and, if `storable`
      asks for it, contents that can be read back. */
  ghost predicate NeverMerged(env: Env, ops: seq<Op>, db: string, id: string, storable: bool) {
    forall i :: 0 <= i < |ops| ==> SameDoc(db, id, ops[i].db, ops[i].id) ==> Unmerged(env, ops[i], storable)
  }

  ghost predicate Unmerged(env: Env, op: Op, storable: bool) {
    !op.doMerge && Legit(op.prev) && (storable ==> Storable(env.libc, op.content))
  }

  /** Being linear is a matter of keys alone. */
  lemma LinearByKeys(env: Env, store: Store, db: string, id: string, db2: string, id2: string, storable: bool)
    requires SameDoc(db, id, db2, id2) && LinearDoc(env, store, db, id, storable)
    ensures LinearDoc(env, store, db2, id2, storable)
  {
    hide MakePath, HexText, Line, LogText, Follows, RevOf, Storable, BodyText;
    if MakePath(db, id) in store {
      var l :| LinearLog(env, store, db, id, l, storable);
      forall i | 0 <= i < |l.quads| && l.quads[i].available ensures EntryStored(env, store, db2, id2, l.quads, i, storable) {
        var parent, content :| Entry(env, store, db, id, l.quads, i, storable, parent, content);
        assert Entry(env, store, db2, id2, l.quads, i, storable, parent, content);
      }
      assert LinearLog(env, store, db2, id2, l, storable);
    }
  }

  lemma CallKeepsLinear(env: Env, store: Store, op: Op, db: string, id: string, storable: bool)
    requires NeverMerged(env, [op], db, id, storable) && LinearDoc(env, store, db, id, storable)
    ensures LinearDoc(env, Apply(env, store, op).0, db, id, storable)
  {
    assert [op][0] == op;
    assert SameDoc(db, id, op.db, op.id) ==> SameDoc(op.db, op.id, db, id);
    hide Apply, LinearLog, MakePath, Legit, Storable, SameDoc;
    if !SameDoc(db, id, op.db, op.id) {
      OtherDocStaysLinear(env, store, op, db, id, storable);
    } else {
      LinearByKeys(env, store, db, id, op.db, op.id, storable);
      if MakePath(op.db, op.id) in store {
        var l :| LinearLog(env, store, op.db, op.id, l, storable);
        OwnDocExtends(env, store, op, l, storable);
      } else {
        OwnDocBegins(env, store, op, storable);
      }
      LinearByKeys(env, Apply(env, store, op).0, op.db, op.id, db, id, storable);
    }
  }

  /** In every run that never merges into a document, its log has no conflicts, its numbers are consecutive,
      only a missing first revision is unavailable, and each available revision's stored body names the
      revision before it as its parent. */
  lemma {:induction false} RunKeepsLinear(env: Env, store: Store, ops: seq<Op>, db: string, id: string, storable: bool)
    requires NeverMerged(env, ops, db, id, storable) && LinearDoc(env, store, db, id, storable)
    ensures LinearDoc(env, RunOps(env, store, ops), db, id, storable)
    decreases |ops|
  {
    hide Apply, LinearDoc, Unmerged;
    if ops != [] {
      CallKeepsLinear(env, store, ops[0], db, id, storable);
      RunKeepsLinear(env, Apply(env, store, ops[0]).0, ops[1..], db, id, storable);
    }
  }

  /** What `get` says of an available entry: its content, and the entry before it as its parent. It throws only
      when that parent's string cannot be read, which takes a number of 2^31 or more, or an empty identifier; at
      the first entry, a stored parent made from the number 0 and the empty identifier. */
  ghost predicate NamesParent(env: Env, store: Store, db: string, id: string, quads: seq<Quad>, i: nat)
    requires i < |quads|
  {
    match Get(env, store, db, id, Some(RevOf(quads[i])), true, true, false)
    case Got(found, content, info, log) =>
      found && content.Some? && info.Some? && log == None &&
      var parent := info.value.previous;
      info.value == RevInfo(id, false, parent, RevOf(quads[i])) &&
      if i == 0 then parent.Empty() else Same(parent, RevOf(quads[i - 1]))
    case GetThrew =>
      if i == 0 then exists content :: HasDoc(env, store, db, id, RevOf(quads[0]), MakeRev(0, ""), content)
      else quads[i - 1].num >= 0x8000_0000 || quads[i - 1].uniq == ""
    case GetUndefined => false
  }

  lemma EntryNamesParent(env: Env, store: Store, db: string, id: string, quads: seq<Quad>, i: nat)
    requires i < |quads| && EntryStored(env, store, db, id, quads, i, true)
    ensures NamesParent(env, store, db, id, quads, i)
  {
    var parent, content :| Entry(env, store, db, id, quads, i, true, parent, content);
    var rev := RevOf(quads[i]);
    UnreadParent(parent);
    hide Storable, HexText, MakeRev, ParseRev, ReadDoc, MakePath, Norm, BodyText, Legit;
    DocReads(env, store, db, id, rev, parent, content);
  }

  lemma UnreadParent(parent: Rev)
    requires Legit(parent)
    ensures ReadsBack(parent) || (ParseRev(parent.text) == None && (parent.num >= 0x8000_0000 || parent.uniq == ""))
  {
    LegitReads(parent);
    ParseMake(parent.num, parent.uniq);
  }

  /** What `get` shows of the history of a document that was never merged into: one line of revisions. */
  ghost predicate ShownAsLine(env: Env, store: Store, db: string, id: string, l: Log) {
    l.quads != [] && l.conflicts == [] && Line(l.quads) &&
    Get(env, store, db, id, None, false, false, true) == Got(true, None, None, Some(ToJson(l))) &&
    forall i :: 0 <= i < |l.quads| && l.quads[i].available ==> NamesParent(env, store, db, id, l.quads, i)
  }

  /** The same run, seen through `get`: the log it returns is a line, and under every available revision it
      returns the revision before as the parent. */
  lemma RunShowsLine(env: Env, ops: seq<Op>, db: string, id: string)
    requires NeverMerged(env, ops, db, id, true)
    ensures var store := RunOps(env, map[], ops);
      MakePath(db, id) in store ==> exists l :: ShownAsLine(env, store, db, id, l)
  {
    assert LinearDoc(env, map[], db, id, true);
    hide RunOps, MakePath, Line, EntryStored, NamesParent, ToJson, LogText, NeverMerged, StringToJson;
    RunKeepsLinear(env, map[], ops, db, id, true);
    var store := RunOps(env, map[], ops);
    if MakePath(db, id) in store {
      var l :| LinearLog(env, store, db, id, l, true);
      forall i | 0 <= i < |l.quads| && l.quads[i].available ensures NamesParent(env, store, db, id, l.quads, i) {
        EntryNamesParent(env, store, db, id, l.quads, i);
      }
      LogReads(env, l);
      GetLogUnfold(env, store, db, id, ToJson(l));
      assert ShownAsLine(env, store, db, id, l);
    }
  }

  /** Does a call on this document succeed? */
  predicate Succeeds(env: Env, store: Store, op: Op, db: string, id: string) {
    var outcome := Apply(env, store, op).1;
    SameDoc(db, id, op.db, op.id) && outcome.Done? && outcome.result.code.UpdateOk?
  }

  /** The parents that the successful calls on one document name, in order. */
  function Parents(env: Env, store: Store, ops: seq<Op>, db: string, id: string): seq<Rev>
    decreases |ops|
  {
    if ops == [] then []
    else (if Succeeds(env, store, ops[0], db, id) then [ops[0].prev] else []) + Parents(env,
      Apply(env, store, ops[0]).0, ops[1..], db, id)
  }

  /** The number of the document's top, if it has one. */
  ghost predicate TopIs(env: Env, store: Store, db: string, id: string, n: nat) {
    exists l :: HasLog(env, store, db, id, l) && Top(l).num == n
  }

  /** A successful call on a document names the top and puts the next number on it; any other call that does
      not merge into the document leaves its top alone. */
  lemma CallMovesTop(env: Env, store: Store, op: Op, db: string, id: string, n: nat)
    requires NeverMerged(env, [op], db, id, false) && TopIs(env, store, db, id, n)
    ensures TopIs(env, Apply(env, store, op).0, db, id, if Succeeds(env, store, op, db, id) then n + 1 else n)
    ensures Succeeds(env, store, op, db, id) ==> op.prev.num == n
  {
    hide Apply, MakePath, LogText, NewRev, ToJson, DocKey, Extended, Legit;
    assert [op][0] == op;
    var after := Apply(env, store, op).0;
    var l :| HasLog(env, store, db, id, l) && Top(l).num == n;
    if !SameDoc(db, id, op.db, op.id) {
      OtherLog(env, store, op, db, id);
      assert HasLog(env, after, db, id, l);
    } else {
      NewNumber(env, op);
      NoMergeOnLog(env, store, op, l);
      ExtendedTop(l, true, op.prev, NewRev(env, op));
    }
  }

  lemma CallSetsTop(env: Env, store: Store, op: Op, db: string, id: string)
    requires NeverMerged(env, [op], db, id, false) && MakePath(db, id) !in store
    ensures var after := Apply(env, store, op).0;
      if Succeeds(env, store, op, db, id) then TopIs(env, after, db, id, op.prev.num + 1) else MakePath(db, id) !in after
  {
    hide Apply, MakePath, LogText, NewRev, ToJson, DocKey, Extended, Legit;
    assert [op][0] == op;
    if !SameDoc(db, id, op.db, op.id) {
      OtherLog(env, store, op, db, id);
    } else {
      NewNumber(env, op);
      FirstCall(env, store, op);
      ExtendedTop(Log([], []), false, op.prev, NewRev(env, op));
    }
  }

  /** Consecutive numbers. */
  predicate CountsFrom(ps: seq<Rev>, n: nat) {
    forall k :: 0 <= k < |ps| ==> ps[k].num == n + k
  }

  lemma {:induction false} ParentsFollowTop(env: Env, store: Store, ops: seq<Op>, db: string, id: string, n: nat)
    requires NeverMerged(env, ops, db, id, false) && TopIs(env, store, db, id, n)
    ensures CountsFrom(Parents(env, store, ops, db, id), n)
    decreases |ops|
  {
    hide Apply, TopIs, Succeeds, Unmerged;
    if ops != [] {
      CallMovesTop(env, store, ops[0], db, id, n);
      var after := Apply(env, store, ops[0]).0;
      ParentsFollowTop(env, after, ops[1..], db, id, if Succeeds(env, store, ops[0], db, id) then n + 1 else n);
      var rest := Parents(env, after, ops[1..], db, id);
      assert [] + rest == rest;
    }
  }

  /** In every run that never merges into a document, starting before it exists, the parents named by
      successful calls on it have consecutive numbers: no two of them name the same parent. */
  lemma {:induction false} ParentsAreConsecutive(env: Env, store: Store, ops: seq<Op>, db: string, id: string)
    requires NeverMerged(env, ops, db, id, false) && MakePath(db, id) !in store
    ensures var ps := Parents(env, store, ops, db, id); ps != [] ==> CountsFrom(ps, ps[0].num)
    ensures var ps := Parents(env, store, ops, db, id); forall j, k :: 0 <= j < k < |ps| ==> !Same(ps[j], ps[k])
    decreases |ops|
  {
    hide Apply, TopIs, Succeeds, Unmerged, MakePath;
    if ops != [] {
      CallSetsTop(env, store, ops[0], db, id);
      var after := Apply(env, store, ops[0]).0;
      if Succeeds(env, store, ops[0], db, id) {
        ParentsFollowTop(env, after, ops[1..], db, id, ops[0].prev.num + 1);
        assert Parents(env, store, ops, db, id) == [ops[0].prev] + Parents(env, after, ops[1..], db, id);
      } else {
        ParentsAreConsecutive(env, after, ops[1..], db, id);
        assert Parents(env, store, ops, db, id) == Parents(env, after, ops[1..], db, id);
      }
    }
  }

  /** A call is rejected exactly when the document has a log, its top is another revision and merging was not
      asked for; and a rejected call changes no stored key. */
  lemma RejectedExactlyWhen(env: Env, store: Store, op: Op)
    requires MakePath(op.db, op.id) in store ==> exists l :: HasLog(env, store, op.db, op.id, l)
    ensures var (after, outcome) := Apply(env, store, op); var rejected := outcome.Done? && outcome.result.code.UpdateConflict?;
      (rejected <==> !op.doMerge && exists l :: HasLog(env, store, op.db, op.id, l) && !OnTop(l, op.prev)) &&
      (rejected ==> after == store)
  {
    hide Apply, MakePath, LogText, ToJson, Write;
    if MakePath(op.db, op.id) in store {
      var l :| HasLog(env, store, op.db, op.id, l);
      forall m | HasLog(env, store, op.db, op.id, m) ensures OnTop(m, op.prev) == OnTop(l, op.prev) {
        LogIsUnique(env, store, op.db, op.id, l, m);
      }
      PutOnLog(env, store, op, l);
      LogIsList(l);
      WriteNeverRejects(env, store, MakePath(op.db, op.id), ToJson(l), true, !OnTop(l, op.prev), op.prev, op.content);
    } else {
      PutOnNothing(env, store, op);
      LogIsList(Log([], []));
      WriteNeverRejects(env, store, MakePath(op.db, op.id), ToJson(Log([], [])), false, false, op.prev, op.content);
    }
  }

  lemma WriteNeverRejects(env: Env, store: Store, path: string,
    log: Json, hasPrev: bool, needToMerge: bool, prev: Rev, content: Json)
    requires log.List?
    ensures var outcome := Write(env, store, path, log, hasPrev, needToMerge, prev, content).1;
      outcome.Done? ==> outcome.result.code.UpdateOk?
  {
    hide BodyText, ComputeRevision, Text, Conflict.MergeJson;
  }
}
