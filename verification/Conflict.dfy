/** `resolver::merge`: replicas that merge each other's heads converge. */
module Conflict {
  import opened JsonValue
  import opened Revision
  import opened RevLog

  /** How a call of `merge` ends: a new log, a failed `assert`, or an exception over a malformed log. */
  datatype Merged<+T> = Merged(log: T) | AssertFailed | Thrown

  /** The loop over the incoming conflicts: those not visited yet are appended. */
  function AddMissing(conflicts: seq<string>, news: seq<string>): seq<string>
    decreases |news|
  {
    if news == [] then conflicts
    else if news[0] in conflicts then AddMissing(conflicts, news[1..])
    else AddMissing(conflicts + [news[0]], news[1..])
  }

  /** `conflicts` with `s` appended unless it is there. */
  function Adjoin(conflicts: seq<string>, s: string): seq<string> {
    if s in conflicts then conflicts else conflicts + [s]
  }

  /** `merge` on the JSON log. */
  function MergeJson(log: Json, rev: Rev, news: seq<Json>): Merged<Json> {
    match (TopRev(log), Conflicts(log))
    case (Some(cur), Some(js)) =>
      (match (GetStrs(js), GetStrs(news))
       case (Some(present), Some(more)) =>
         var visited := AddMissing(present, more);
         if cur.Empty() || rev.Empty() then AssertFailed
         else if Wins(cur, rev) then
           if cur.text in visited then AssertFailed
           else Merged(WithConflicts(log, Strs(Adjoin(visited, rev.text))))
         else
           if rev.text in visited then AssertFailed
           else Merged(AddRevInfo(WithConflicts(log, Strs(Adjoin(visited, cur.text))), rev, true, false))
       case _ => Thrown)
    case _ => Thrown
  }

  /** `merge` on a well-formed log. */
  function MergeLog(l: Log, rev: Rev, news: seq<string>): Merged<Log>
    requires l.quads != []
  {
    var cur := Top(l);
    var visited := AddMissing(l.conflicts, news);
    if cur.Empty() || rev.Empty() then AssertFailed
    else if Wins(cur, rev) then
      if cur.text in visited then AssertFailed else Merged(l.(conflicts := Adjoin(visited, rev.text)))
    else
      if rev.text in visited then AssertFailed
      else Merged(AddQuad(l.(conflicts := Adjoin(visited, cur.text)), Quad(rev.num, rev.uniq, true, false)))
  }

  /** The JSON operation is the operation on what the JSON says. */
  lemma MergeJsonIsMergeLog(l: Log, rev: Rev, news: seq<string>)
    requires l.quads != []
    ensures MergeJson(ToJson(l), rev, Strs(news)) ==
      match MergeLog(l, rev, news)
      case Merged(m) => Merged(ToJson(m))
      case AssertFailed => AssertFailed
      case Thrown => Thrown
  {
    hide AddMissing, Wins, WithConflicts, AddRevInfo, GetStrs, TopRev, Conflicts, ToJson;
    TopOf(l);
    ConflictsOf(l);
    GetStrsInverse(news);
    var visited := AddMissing(l.conflicts, news);
    SetConflicts(l, Adjoin(visited, rev.text));
    SetConflicts(l, Adjoin(visited, Top(l).text));
    AddedQuad(l.(conflicts := Adjoin(visited, Top(l).text)), rev, true, false);
  }

  lemma {:induction false} AddMissingHolds(conflicts: seq<string>, news: seq<string>)
    ensures conflicts <= AddMissing(conflicts, news)
    ensures forall s :: s in AddMissing(conflicts, news) <==> s in conflicts || s in news
    decreases |news|
  {
    if news != [] { AddMissingHolds(Adjoin(conflicts, news[0]), news[1..]); }
  }

  /** What `merge` does, said of the log: it fails exactly when a number is 0 or the winner is a conflict already;
      else the loser joins the conflicts, the incoming ones do, and none is lost; and only a new winner gets an
      entry, available and not deleted, behind the old ones. */
  lemma MergedExactly(l: Log, rev: Rev, news: seq<string>)
    requires l.quads != []
    ensures var r, cur := MergeLog(l, rev, news), Top(l);
      var winner, loser := if Beats(cur, rev) then cur else rev, if Beats(cur, rev) then rev else cur;
      (r.AssertFailed? <==> cur.num == 0 || rev.num == 0 || winner.text in l.conflicts || winner.text in news) &&
      (r.AssertFailed? || r.Merged?) &&
      (r.Merged? ==>
        && l.conflicts <= r.log.conflicts
        && (forall s :: s in r.log.conflicts <==> s in l.conflicts || s in news || s == loser.text)
        && r.log.quads == if Beats(cur, rev) then l.quads else l.quads + [Quad(rev.num, rev.uniq, true, false)])
  {
    WinsExactly(Top(l), rev);
    AddMissingHolds(l.conflicts, news);
    WinsTrichotomy(rev, rev);
    WinsExactly(rev, rev);
    hide Wins, Beats, AddMissing;
  }

  /** `resolver`: the log it points to, merged in place. */
  class Resolver {
    var revLog: Json

    constructor (log: Json)
      ensures revLog == log
    {
      revLog := log;
    }

    /** `merge`, with its visited set and its loop. The conflict list is worked on by value and put back at the
        end, so after a failed assertion or an exception the log is as before; the source leaves it half merged
        then, and its callers never look at it again. */
    method Merge(rev: Rev, news: seq<Json>) returns (outcome: Merged<()>)
      modifies this
      ensures match MergeJson(old(revLog), rev, news)
        case Merged(log) => outcome == Merged(()) && revLog == log
        case AssertFailed => outcome == AssertFailed
        case Thrown => outcome == Thrown
    {
      hide Wins, AddMissing;
      var top, list := TopRev(revLog), Conflicts(revLog);
      if top.None? || list.None? { return Thrown; }
      var cur := top.value;
      var strs := GetStrs(list.value);
      if strs.None? { return Thrown; }
      var conflicts := strs.value;
      var visited := set s | s in conflicts;
      var more := GetStrs(news);
      if more.None? { return Thrown; }
      assert more.value[0..] == more.value;
      for i := 0 to |more.value|
        invariant AddMissing(conflicts, more.value[i..]) == AddMissing(strs.value, more.value)
        invariant visited == (set s | s in conflicts) && revLog == old(revLog)
      {
        AddMissingStep(conflicts, more.value[i..]);
        assert more.value[i..][1..] == more.value[i + 1..];
        var newConflict := more.value[i];
        if newConflict !in visited {
          conflicts := conflicts + [newConflict];
          visited := visited + {newConflict};
        }
      }
      AddMissingStep(conflicts, more.value[|more.value|..]);
      if cur.Empty() || rev.Empty() { return AssertFailed; }
      if Wins(cur, rev) {
        if cur.text in visited { return AssertFailed; }
        if rev.text !in visited { conflicts := conflicts + [rev.text]; }
        revLog := WithConflicts(revLog, Strs(conflicts));
      } else {
        if rev.text in visited { return AssertFailed; }
        if cur.text !in visited { conflicts := conflicts + [cur.text]; }
        revLog := AddRevInfo(WithConflicts(revLog, Strs(conflicts)), rev, true, false);
      }
      outcome := Merged(());
    }
  }

  lemma AddMissingStep(conflicts: seq<string>, news: seq<string>)
    ensures news == [] ==> AddMissing(conflicts, news) == conflicts
    ensures news != [] ==> AddMissing(conflicts, news) == AddMissing(Adjoin(conflicts, news[0]), news[1..])
  {
  }
}
