/** Replicas that merge each other's heads converge, whatever the order. */
module Convergence {
  import opened Revision
  import opened RevLog
  import opened Conflict

  /** A revision as `revision_num_t(num, uniq)` makes it, with a number of at least one. */
  predicate Canonical(r: Rev) {
    r == MakeRev(r.num, r.uniq) && !r.Empty()
  }

  /** What a log says about the winner and the losers, with revisions for their strings. */
  datatype Heads = Heads(top: Rev, conflicts: seq<Rev>)

  function Texts(rs: seq<Rev>): (ss: seq<string>)
    ensures |ss| == |rs| && forall i :: 0 <= i < |rs| ==> ss[i] == rs[i].text
  {
    seq(|rs|, i requires 0 <= i < |rs| => rs[i].text)
  }

  ghost predicate AllCanonical(rs: seq<Rev>) {
    forall i :: 0 <= i < |rs| ==> Canonical(rs[i])
  }

  /** The log says what the heads say. */
  ghost predicate Represents(l: Log, h: Heads) {
    l.quads != [] && Top(l) == h.top && l.conflicts == Texts(h.conflicts) && Canonical(h.top) && AllCanonical(h.conflicts)
  }

  function AddRevs(conflicts: seq<Rev>, news: seq<Rev>): seq<Rev>
    decreases |news|
  {
    if news == [] then conflicts
    else if news[0] in conflicts then AddRevs(conflicts, news[1..])
    else AddRevs(conflicts + [news[0]], news[1..])
  }

  function AdjoinRev(conflicts: seq<Rev>, r: Rev): seq<Rev> {
    if r in conflicts then conflicts else conflicts + [r]
  }

  /** `merge` on heads. */
  function MergeHeads(h: Heads, r: Rev, news: seq<Rev>): Merged<Heads> {
    var visited := AddRevs(h.conflicts, news);
    if Wins(h.top, r) then
      if h.top in visited then AssertFailed else Merged(Heads(h.top, AdjoinRev(visited, r)))
    else
      if r in visited then AssertFailed else Merged(Heads(r, AdjoinRev(visited, h.top)))
  }

  // ---- heads stand for logs ----

  lemma TextIn(rs: seq<Rev>, r: Rev)
    requires AllCanonical(rs) && Canonical(r)
    ensures r.text in Texts(rs) <==> r in rs
  {
    forall i | 0 <= i < |rs| ensures Texts(rs)[i] == r.text <==> rs[i] == r {
      if Texts(rs)[i] == r.text { TextInjective(rs[i].num, rs[i].uniq, r.num, r.uniq); }
    }
  }

  lemma {:induction false} TextsAddMissing(conflicts: seq<Rev>, news: seq<Rev>)
    requires AllCanonical(conflicts) && AllCanonical(news)
    ensures AddMissing(Texts(conflicts), Texts(news)) == Texts(AddRevs(conflicts, news))
    ensures AllCanonical(AddRevs(conflicts, news))
    decreases |news|
  {
    if news != [] {
      TextIn(conflicts, news[0]);
      assert Texts(news)[1..] == Texts(news[1..]);
      assert Texts(conflicts) + [news[0].text] == Texts(conflicts + [news[0]]);
      TextsAddMissing(AdjoinRev(conflicts, news[0]), news[1..]);
    }
  }

  lemma TextsAdjoin(conflicts: seq<Rev>, r: Rev)
    requires AllCanonical(conflicts) && Canonical(r)
    ensures Adjoin(Texts(conflicts), r.text) == Texts(AdjoinRev(conflicts, r)) && AllCanonical(AdjoinRev(conflicts, r))
  {
    TextIn(conflicts, r);
    assert Texts(conflicts) + [r.text] == Texts(conflicts + [r]);
  }

  /** Merging logs is merging heads. */
  lemma MergeLogIsMergeHeads(l: Log, h: Heads, r: Rev, news: seq<Rev>)
    requires Represents(l, h) && Canonical(r) && AllCanonical(news)
    ensures match (MergeLog(l, r, Texts(news)), MergeHeads(h, r, news))
      case (Merged(m), Merged(g)) => Represents(m, g)
      case (AssertFailed, AssertFailed) => true
      case _ => false
  {
    hide Wins, AddMissing, AddRevs, Adjoin, AdjoinRev, Canonical;
    TextsAddMissing(h.conflicts, news);
    var visited := AddRevs(h.conflicts, news);
    TextIn(visited, h.top);
    TextIn(visited, r);
    TextsAdjoin(visited, r);
    TextsAdjoin(visited, h.top);
    assert !h.top.Empty() && !r.Empty() && r == MakeRev(r.num, r.uniq) by { CanonicalFacts(h.top); CanonicalFacts(r); }
  }

  lemma CanonicalFacts(r: Rev)
    requires Canonical(r)
    ensures !r.Empty() && r == MakeRev(r.num, r.uniq)
  {
  }

  // ---- merge is a join ----

  predicate NoDup(rs: seq<Rev>) {
    forall i, j :: 0 <= i < j < |rs| ==> rs[i] != rs[j]
  }

  /** The invariant of a log: real revisions, no conflict listed twice, and the top beats every conflict. */
  ghost predicate Inv(h: Heads) {
    Canonical(h.top) && AllCanonical(h.conflicts) && NoDup(h.conflicts) &&
    forall i :: 0 <= i < |h.conflicts| ==> Wins(h.top, h.conflicts[i])
  }

  function SetOf(rs: seq<Rev>): set<Rev> {
    set r | r in rs
  }

  /** All revisions a log knows as heads. */
  function Members(h: Heads): set<Rev> {
    {h.top} + SetOf(h.conflicts)
  }

  /** Among these revisions the one with the highest number; among those with it, the shortest identifier; among
      those, the smallest character wherever another one first differs. */
  ghost predicate Best(top: Rev, known: set<Rev>) {
    && top in known
    && (forall r :: r in known ==> r.num <= top.num)
    && (forall r :: r in known && r.num == top.num ==> |top.uniq| <= |r.uniq|)
    && (forall r :: r in known && r.num == top.num && |r.uniq| == |top.uniq| && r != top ==> FirstSmaller(top.uniq, r.uniq))
  }

  lemma TopIsBest(h: Heads)
    requires Inv(h)
    ensures Best(h.top, Members(h))
  {
    hide Wins, Canonical, FirstSmaller;
    forall r | r in Members(h) && r != h.top ensures Beats(h.top, r) { WinsExactly(h.top, r); }
  }

  lemma {:induction false} AddRevsSet(conflicts: seq<Rev>, news: seq<Rev>)
    requires NoDup(conflicts)
    ensures var all := AddRevs(conflicts, news);
      NoDup(all) && |all| <= |conflicts| + |news| && forall r :: r in all <==> r in conflicts || r in news
    decreases |news|
  {
    if news != [] {
      AddRevsSet(AdjoinRev(conflicts, news[0]), news[1..]);
    }
  }

  /** On two logs that satisfy the invariant, whose tops differ: both assertions hold, the result satisfies the
      invariant, its heads are the union, its top is the best of them, and the list stays within the reserved
      room. */
  lemma MergeJoins(h: Heads, g: Heads)
    requires Inv(h) && Inv(g) && h.top != g.top
    ensures var m := MergeHeads(h, g.top, g.conflicts);
      m.Merged? && Inv(m.log) && Members(m.log) == Members(h) + Members(g) &&
      m.log.top == (if Wins(h.top, g.top) then h.top else g.top) &&
      |m.log.conflicts| < |h.conflicts| + |g.conflicts| + 2 &&
      Best(m.log.top, Members(h) + Members(g))
  {
    hide AddRevs;
    AddRevsSet(h.conflicts, g.conflicts);
    var visited := AddRevs(h.conflicts, g.conflicts);
    WinsTrichotomy(h.top, g.top);
    var winner, loser := if Wins(h.top, g.top) then h.top else g.top, if Wins(h.top, g.top) then g.top else h.top;
    assert Wins(winner, loser);
    forall c | c in visited ensures Wins(winner, c) && Canonical(c) {
      if c in h.conflicts && !Wins(h.top, g.top) {
        WinsTransitive(winner, loser, c);
      } else if c !in h.conflicts && Wins(h.top, g.top) {
        WinsTransitive(winner, loser, c);
      }
    }
    WinsTrichotomy(winner, winner);
    hide Best, Wins;
    TopIsBest(MergeHeads(h, g.top, g.conflicts).log);
  }

  /** Merging the current top again breaks the invariant; so differing tops are exactly what `merge` needs. */
  lemma MergeNeedsOtherTop(h: Heads, g: Heads)
    requires Inv(h) && Inv(g)
    ensures var m := MergeHeads(h, g.top, g.conflicts); (m.Merged? && Inv(m.log)) <==> h.top != g.top
  {
    hide AddRevs;
    if h.top != g.top {
      MergeJoins(h, g);
    } else {
      AddRevsSet(h.conflicts, g.conflicts);
      WinsTrichotomy(h.top, h.top);
      var m := MergeHeads(h, g.top, g.conflicts);
      if m.Merged? {
        assert m.log.conflicts[|m.log.conflicts| - 1] == h.top || h.top in AddRevs(h.conflicts, g.conflicts);
      }
    }
  }

  /** Heads that satisfy the invariant are determined by the set of revisions they know: the top is its unique
      maximum, the conflicts are the rest. */
  lemma MembersDetermineHeads(h: Heads, g: Heads)
    requires Inv(h) && Inv(g) && Members(h) == Members(g)
    ensures h.top == g.top && SetOf(h.conflicts) == SetOf(g.conflicts)
  {
    WinsTrichotomy(h.top, g.top);
    WinsTrichotomy(h.top, h.top);
    WinsTrichotomy(g.top, g.top);
    assert h.top in Members(g) && g.top in Members(h);
    assert h.top != g.top ==> h.top in g.conflicts && g.top in h.conflicts;
    assert SetOf(h.conflicts) == Members(h) - {h.top};
    assert SetOf(g.conflicts) == Members(g) - {g.top};
  }

  // ---- any pattern of exchanges ----

  /** Replicas and the merges between them: `Absorb` merges the top and conflicts of one into the other. */
  datatype Exchange = Replica(heads: Heads) | Absorb(into: Exchange, from: Exchange)

  function Eval(e: Exchange): Merged<Heads> {
    match e
    case Replica(h) => Merged(h)
    case Absorb(into, from) =>
      match (Eval(into), Eval(from))
      case (Merged(h), Merged(g)) => MergeHeads(h, g.top, g.conflicts)
      case _ => AssertFailed
  }

  /** Every revision any replica starts with. */
  function Known(e: Exchange): set<Rev> {
    match e
    case Replica(h) => Members(h)
    case Absorb(into, from) => Known(into) + Known(from)
  }

  /** Replicas start well formed, and no merge meets its own top. */
  ghost predicate Sound(e: Exchange) {
    match e
    case Replica(h) => Inv(h)
    case Absorb(into, from) =>
      Sound(into) && Sound(from) && (Eval(into).Merged? && Eval(from).Merged? ==> Eval(into).log.top != Eval(from).log.top)
  }

  /** No revision is known to both sides of a merge. */
  ghost predicate Disjoint(e: Exchange) {
    match e
    case Replica(h) => Inv(h)
    case Absorb(into, from) => Disjoint(into) && Disjoint(from) && Known(into) !! Known(from)
  }

  lemma {:induction false} ExchangeJoins(e: Exchange)
    requires Sound(e)
    ensures Eval(e).Merged? && Inv(Eval(e).log) && Members(Eval(e).log) == Known(e)
    decreases e
  {
    match e
    case Replica(_) =>
    case Absorb(into, from) =>
      ExchangeJoins(into);
      ExchangeJoins(from);
      MergeJoins(Eval(into).log, Eval(from).log);
  }

  /** Replicas that start with different revisions never meet their own top. */
  lemma {:induction false} DisjointIsSound(e: Exchange)
    requires Disjoint(e)
    ensures Sound(e)
    decreases e
  {
    match e
    case Replica(_) =>
    case Absorb(into, from) =>
      DisjointIsSound(into);
      DisjointIsSound(from);
      ExchangeJoins(into);
      ExchangeJoins(from);
      var h, g := Eval(into).log, Eval(from).log;
      assert h.top in Known(into) && g.top in Known(from);
  }

  /** Convergence: any two patterns of merges over the same revisions end with the same top, the best of
      them, and the same set of conflicts, and no assertion fails on the way. */
  lemma Converge(e: Exchange, f: Exchange)
    requires Sound(e) && Sound(f) && Known(e) == Known(f)
    ensures Eval(e).Merged? && Eval(f).Merged?
    ensures Eval(e).log.top == Eval(f).log.top
    ensures Best(Eval(e).log.top, Known(e))
    ensures SetOf(Eval(e).log.conflicts) == SetOf(Eval(f).log.conflicts)
  {
    ExchangeJoins(e);
    ExchangeJoins(f);
    TopIsBest(Eval(e).log);
    MembersDetermineHeads(Eval(e).log, Eval(f).log);
  }

  /** Revisions merged one by one into a replica. */
  function Absorbed(h: Heads, rs: seq<Rev>): Exchange
    decreases |rs|
  {
    if rs == [] then Replica(h) else Absorb(Absorbed(h, rs[..|rs| - 1]), Replica(Heads(rs[|rs| - 1], [])))
  }

  lemma {:induction false} AbsorbedKnows(h: Heads, rs: seq<Rev>)
    requires Inv(h) && AllCanonical(rs) && NoDup(rs) && forall r :: r in rs ==> r !in Members(h)
    ensures Disjoint(Absorbed(h, rs)) && Known(Absorbed(h, rs)) == Members(h) + SetOf(rs)
    decreases |rs|
  {
    hide Canonical, Wins;
    CanonicalTails(rs);
    if rs != [] {
      var n := |rs| - 1;
      SplitLast(rs);
      AbsorbedKnows(h, rs[..n]);
      assert Members(Heads(rs[n], [])) == {rs[n]};
    } else {
      assert SetOf(rs) == {};
    }
  }

  lemma CanonicalTails(rs: seq<Rev>)
    requires AllCanonical(rs)
    ensures rs != [] ==> AllCanonical(rs[..|rs| - 1]) && Inv(Heads(rs[|rs| - 1], []))
  {
  }

  lemma SplitLast(rs: seq<Rev>)
    requires rs != [] && NoDup(rs)
    ensures var n := |rs| - 1;
      SetOf(rs) == SetOf(rs[..n]) + {rs[n]} && rs[n] !in rs[..n] && NoDup(rs[..n])
  {
    assert rs == rs[..|rs| - 1] + [rs[|rs| - 1]];
  }

  /** New revisions, merged one by one in any two orders, leave the same top and the same conflicts. */
  lemma OrderIsIrrelevant(h: Heads, rs: seq<Rev>, ts: seq<Rev>)
    requires Inv(h) && AllCanonical(rs) && AllCanonical(ts) && NoDup(rs) && NoDup(ts)
    requires SetOf(rs) == SetOf(ts) && forall r :: r in rs ==> r !in Members(h)
    ensures var a, b := Eval(Absorbed(h, rs)), Eval(Absorbed(h, ts));
      a.Merged? && b.Merged? && a.log.top == b.log.top && SetOf(a.log.conflicts) == SetOf(b.log.conflicts)
  {
    hide Inv, Canonical, AllCanonical, NoDup, Members, Eval, Sound, Disjoint, Absorbed, Known;
    forall t | t in ts ensures t !in Members(h) {
      assert t in SetOf(ts);
      assert t in SetOf(rs);
    }
    AbsorbedKnows(h, rs);
    AbsorbedKnows(h, ts);
    DisjointIsSound(Absorbed(h, rs));
    DisjointIsSound(Absorbed(h, ts));
    Converge(Absorbed(h, rs), Absorbed(h, ts));
  }
}
