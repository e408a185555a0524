/** What a leader whose calls are answered achieves: it renews its key and stays leader. */
module LeaderRenewal {
  import opened Wrappers
  import opened LeaderElection
  import opened LeaderSafety

  /** After SETNX was answered, GET answers with `m`: the key was free, or it is alive and belongs to `m`. */
  predicate WouldOwn(s: System, at: int, m: NodeId) {
    Live(s.lock, at) ==> s.lock.owner == m
  }

  // ------------------------------------------------------------------------- one tick

  /** A leader gives up exactly when its last renewal is too old, or when it learns that another node owns the key. */
  lemma GivesUpExactly(t: Timing, reliable: bool, s: System, a: Action)
    requires Positive(t) && Enabled(reliable, s, a) && a.kind.Ticks? && s.nodes[a.node].isLeader
    ensures var n, n' := s.nodes[a.node], Perform(t, s, a).nodes[a.node];
            && (!n'.isLeader <==>
                  || n.lastRenewal.None? || a.at - n.lastRenewal.value > t.electionTimeout
                  || (a.kind.net.setNX == Answered && a.kind.net.get && !WouldOwn(s, a.at, a.node)))
            && n'.log == n.log + if n'.isLeader then [] else [Stopped]
  {
  }

  /** A follower takes over exactly when SETNX and GET are answered, and the key is not another node's. */
  lemma TakesOverExactly(t: Timing, reliable: bool, s: System, a: Action)
    requires Positive(t) && Enabled(reliable, s, a) && a.kind.Ticks? && !s.nodes[a.node].isLeader
    ensures var n, n' := s.nodes[a.node], Perform(t, s, a).nodes[a.node];
            && (n'.isLeader <==> a.kind.net.setNX == Answered && a.kind.net.get && WouldOwn(s, a.at, a.node))
            && n'.log == n.log + if n'.isLeader then [Started] else []
  {
  }

  /** A tick renews exactly when the node leads after it and all calls were answered; then the key lasts a full time to live. */
  lemma RenewsExactly(t: Timing, reliable: bool, s: System, a: Action)
    requires Positive(t) && Enabled(reliable, s, a) && a.kind.Ticks?
    ensures var s' := Perform(t, s, a);
            var n, n' := s.nodes[a.node], s'.nodes[a.node];
            && (n'.isLeader && a.kind == Ticks(UP) ==> n'.lastRenewal == Some(a.at) && s'.lock == Held(a.node, a.at + t.leaderTTL))
            && (!(n'.isLeader && a.kind == Ticks(UP)) ==> n'.lastRenewal == n.lastRenewal)
            && (forall m :: m in s.nodes && m != a.node ==> s'.nodes[m] == s.nodes[m])
  {
  }

  /** No tick of another node touches a live key. */
  lemma LiveKeyStays(t: Timing, s: System, a: Action)
    requires a.node in s.nodes && Live(s.lock, a.at) && s.lock.owner != a.node
    ensures Perform(t, s, a).lock == s.lock
  {
  }

  // ------------------------------------------------------------------------- whole runs

  /** Node `m` leads, renewed last at `r`, and its key lasts a time to live from then. */
  ghost predicate Leads(t: Timing, s: System, m: NodeId, r: int) {
    && WellFormed(s) && m in s.nodes && s.nodes[m].isLeader && s.nodes[m].lastRenewal == Some(r) && r <= s.now
    && s.lock.Held? && s.lock.owner == m && r + t.leaderTTL <= s.lock.expiresAt
  }

  /** The time of the last tick of `m` with all calls answered; `r` if there is none. */
  function LastAnswered(run: seq<Action>, m: NodeId, r: int): int {
    if run == [] then r
    else
      var a := run[|run| - 1];
      if a.node == m && a.kind == Ticks(UP) then a.at else LastAnswered(run[..|run| - 1], m, r)
  }

  /**
   Node `m` does not restart; it ticks no later than an election timeout after its last answered tick, and
   nobody ticks as late as a time to live after that.
   */
  ghost predicate Tended(t: Timing, run: seq<Action>, m: NodeId, r: int) {
    forall k :: 0 <= k < |run| ==>
      var last := LastAnswered(run[..k], m, r);
      && run[k].at < last + t.leaderTTL
      && (run[k].node == m ==> run[k].kind.Ticks? && run[k].at <= last + t.electionTimeout)
  }

  /** The runs of a cluster, taken apart at the end. */
  lemma {:induction false} RunsSplit(t: Timing, reliable: bool, s: System, run: seq<Action>, end: System) returns (mid: System)
    requires run != [] && Runs(t, reliable, s, run, end)
    ensures Runs(t, reliable, s, run[..|run| - 1], mid)
    ensures Enabled(reliable, mid, run[|run| - 1]) && end == Perform(t, mid, run[|run| - 1])
    decreases |run|
  {
    if |run| == 1 {
      mid := s;
    } else {
      mid := RunsSplit(t, reliable, Perform(t, s, run[0]), run[1..], end);
      assert run[1..][..|run[1..]| - 1] == run[..|run| - 1][1..];
    }
  }

  lemma LeadsStep(t: Timing, reliable: bool, s: System, a: Action, m: NodeId, r: int)
    requires Positive(t) && Leads(t, s, m, r) && Enabled(reliable, s, a) && a.at < r + t.leaderTTL
    requires a.node == m ==> a.kind.Ticks? && a.at <= r + t.electionTimeout
    ensures var s' := Perform(t, s, a);
            && Leads(t, s', m, if a.node == m && a.kind == Ticks(UP) then a.at else r)
            && s'.nodes[m].log == s.nodes[m].log
  {
  }

  /**
   A tended leader stays leader, whichever calls fail and whatever the others do: no callback runs, the
   last renewal is the last answered tick, and the key lasts a time to live from it.
   */
  lemma {:induction false} TendedLeaderStays(t: Timing, reliable: bool, s: System, run: seq<Action>, end: System, m: NodeId, r: int)
    requires Positive(t) && Leads(t, s, m, r) && Runs(t, reliable, s, run, end) && Tended(t, run, m, r)
    ensures Leads(t, end, m, LastAnswered(run, m, r)) && end.nodes[m].log == s.nodes[m].log
    decreases |run|
  {
    if run != [] {
      var init, a := run[..|run| - 1], run[|run| - 1];
      var mid := RunsSplit(t, reliable, s, run, end);
      assert forall k :: 0 <= k < |init| ==> init[..k] == run[..k];
      TendedLeaderStays(t, reliable, s, init, mid, m, r);
      LeadsStep(t, reliable, mid, a, m, LastAnswered(init, m, r));
    }
  }

  /** Every action of `m` is a tick with all calls answered. */
  ghost predicate AlwaysAnswered(run: seq<Action>, m: NodeId) {
    forall k :: 0 <= k < |run| && run[k].node == m ==> run[k].kind == Ticks(UP)
  }

  /** A leader that just renewed, and is to tick within a renewal period. */
  ghost predicate Renewed(t: Timing, s: System, m: NodeId) {
    Leads(t, s, m, s.now) && s.due[m] <= s.now + t.renewalPeriod
  }

  /** From when it renewed, a node of the cluster whose calls are answered leads in every run. */
  ghost predicate KeepsLeading(t: Timing, reliable: bool, ids: set<NodeId>) {
    forall s, run, end, m ::
      Renewed(t, s, m) && s.nodes.Keys == ids && Runs(t, reliable, s, run, end) && AlwaysAnswered(run, m) ==>
        end.nodes.Keys == ids && m in ids && end.nodes[m].isLeader && end.nodes[m].log == s.nodes[m].log
  }

  lemma TendedOneMore(t: Timing, run: seq<Action>, m: NodeId, r: int)
    requires run != [] && Tended(t, run[..|run| - 1], m, r)
    requires var a, last := run[|run| - 1], LastAnswered(run[..|run| - 1], m, r);
             a.at < last + t.leaderTTL && (a.node == m ==> a.kind.Ticks? && a.at <= last + t.electionTimeout)
    ensures Tended(t, run, m, r)
  {
    var init := run[..|run| - 1];
    forall k | 0 <= k < |run|
      ensures var last := LastAnswered(run[..k], m, r);
              && run[k].at < last + t.leaderTTL
              && (run[k].node == m ==> run[k].kind.Ticks? && run[k].at <= last + t.electionTimeout)
    {
      assert k < |init| ==> run[..k] == init[..k] && run[k] == init[k];
    }
  }

  /** Between the renewals of such a node no more than a renewal period passes. */
  lemma {:induction false} AnsweredIsTended(t: Timing, reliable: bool, s: System, run: seq<Action>, end: System, m: NodeId)
    requires Positive(t) && t.renewalPeriod <= t.electionTimeout && t.renewalPeriod < t.leaderTTL
    requires Renewed(t, s, m) && Runs(t, reliable, s, run, end) && AlwaysAnswered(run, m)
    ensures Tended(t, run, m, s.now) && WellFormed(end) && end.nodes.Keys == s.nodes.Keys
    ensures m in end.due && end.due[m] <= LastAnswered(run, m, s.now) + t.renewalPeriod
    decreases |run|
  {
    if run != [] {
      var init := run[..|run| - 1];
      var mid := RunsSplit(t, reliable, s, run, end);
      AnsweredIsTended(t, reliable, s, init, mid, m);
      TendedOneMore(t, run, m, s.now);
    }
  }

  // ------------------------------------------------------------------------- exactly when

  /** Node `a` has just taken over; the others may wait until `due`. */
  function JustTook(ids: set<NodeId>, a: NodeId, t: Timing, due: int): System {
    System(0, Held(a, t.leaderTTL),
           map m | m in ids :: if m == a then Node(true, Some(0), [Started]) else Node(false, None, []),
           map m | m in ids :: if m == a then t.renewalPeriod else due,
           map m | m in ids :: 0)
  }

  /** A renewal period longer than the election timeout: the next tick, though answered, gives up. */
  lemma LateTickGivesUp(t: Timing, reliable: bool, ids: set<NodeId>, a: NodeId) returns (run: seq<Action>, end: System)
    requires Positive(t) && a in ids && t.renewalPeriod > t.electionTimeout
    ensures Runs(t, reliable, JustTook(ids, a, t, t.renewalPeriod), run, end) && AlwaysAnswered(run, a)
    ensures a in end.nodes && !end.nodes[a].isLeader
  {
    var tick := Action(t.renewalPeriod, a, Ticks(UP));
    run, end := [tick], Perform(t, JustTook(ids, a, t, t.renewalPeriod), tick);
    assert run[1..] == [];
  }

  /** A renewal period as long as the time to live: another node takes the key when it expires. */
  lemma ExpiredKeyIsTaken(t: Timing, reliable: bool, ids: set<NodeId>, a: NodeId, b: NodeId) returns (run: seq<Action>, end: System)
    requires Positive(t) && a in ids && b in ids && a != b && t.leaderTTL <= t.renewalPeriod <= t.electionTimeout
    ensures Runs(t, reliable, JustTook(ids, a, t, t.renewalPeriod), run, end) && AlwaysAnswered(run, a)
    ensures a in end.nodes && !end.nodes[a].isLeader
  {
    var s := JustTook(ids, a, t, t.renewalPeriod);
    var grab, tick := Action(t.leaderTTL, b, Ticks(UP)), Action(t.leaderTTL, a, Ticks(UP));
    var mid := Perform(t, s, grab);
    run, end := [grab, tick], Perform(t, mid, tick);
    assert run[1..] == [tick] && [tick][1..] == [];
    assert Runs(t, reliable, mid, [tick], end);
  }

  /**
   With two nodes or more, a node whose calls are answered stays leader in every run, renewing its key and
   running no callback, if and only if it ticks at least once an election timeout and more than once a
   time to live.
   */
  lemma KeepsLeadingExactly(t: Timing, reliable: bool, ids: set<NodeId>, a: NodeId, b: NodeId)
    requires Positive(t) && a in ids && b in ids && a != b
    ensures KeepsLeading(t, reliable, ids) <==> t.renewalPeriod <= t.electionTimeout && t.renewalPeriod < t.leaderTTL
  {
    if t.renewalPeriod <= t.electionTimeout && t.renewalPeriod < t.leaderTTL {
      forall s, run, end, m | Renewed(t, s, m) && s.nodes.Keys == ids && Runs(t, reliable, s, run, end) && AlwaysAnswered(run, m)
        ensures end.nodes.Keys == ids && m in ids && end.nodes[m].isLeader && end.nodes[m].log == s.nodes[m].log
      {
        AnsweredIsTended(t, reliable, s, run, end, m);
        TendedLeaderStays(t, reliable, s, run, end, m, s.now);
      }
    } else {
      var run, end;
      if t.renewalPeriod > t.electionTimeout {
        run, end := LateTickGivesUp(t, reliable, ids, a);
      } else {
        run, end := ExpiredKeyIsTaken(t, reliable, ids, a, b);
      }
      var s := JustTook(ids, a, t, t.renewalPeriod);
      assert Renewed(t, s, a) && s.nodes.Keys == ids;
    }
  }

  /** An answered tick on a key that is free, expired or the node's own makes it a leader that just renewed. */
  lemma AnsweredTickLeads(t: Timing, reliable: bool, s: System, a: Action)
    requires Positive(t) && WellFormed(s) && Enabled(reliable, s, a) && a.kind == Ticks(UP)
    requires WouldOwn(s, a.at, a.node)
    requires s.nodes[a.node].isLeader ==> !RenewalTooOld(s.nodes[a.node].lastRenewal, a.at, t.electionTimeout)
    ensures Renewed(t, Perform(t, s, a), a.node)
  {
  }
}
