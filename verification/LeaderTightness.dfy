/**
 The conditions of the safety theorem are exactly the ones needed: without either of them some
 run of two nodes ends with two leaders.
 */
module LeaderTightness {
  import opened Wrappers
  import opened LeaderElection
  import opened LeaderSafety

  ghost predicate MutuallyExclusive(t: Timing, reliable: bool, ids: set<NodeId>) {
    forall s, run, end ::
      Initial(s) && s.nodes.Keys == ids && Runs(t, reliable, s, run, end) ==> AtMostOneLeader(end)
  }

  lemma {:induction false} RunsCompose(t: Timing, reliable: bool, s: System, run: seq<Action>, mid: System, more: seq<Action>, end: System)
    requires Runs(t, reliable, s, run, mid) && Runs(t, reliable, mid, more, end)
    ensures Runs(t, reliable, s, run + more, end)
    decreases |run|
  {
    if run == [] {
      assert run + more == more;
    } else {
      RunsCompose(t, reliable, Perform(t, s, run[0]), run[1..], mid, more, end);
      assert (run + more)[1..] == run[1..] + more;
    }
  }

  lemma RunsOne(t: Timing, reliable: bool, s: System, a: Action)
    requires Enabled(reliable, s, a)
    ensures Runs(t, reliable, s, [a], Perform(t, s, a))
  {
    assert [a][1..] == [];
  }

  /** One action, then two runs. */
  lemma RunsAfterOne(t: Timing, reliable: bool, s: System, a: Action, run: seq<Action>, mid: System, more: seq<Action>, end: System)
    requires Enabled(reliable, s, a) && Runs(t, reliable, Perform(t, s, a), run, mid) && Runs(t, reliable, mid, more, end)
    ensures Runs(t, reliable, s, [a] + run + more, end)
  {
    RunsOne(t, reliable, s, a);
    RunsCompose(t, reliable, s, [a], Perform(t, s, a), run, mid);
    RunsCompose(t, reliable, s, [a] + run, mid, more, end);
  }

  const DOWN := Network(NotApplied, false, NotApplied)

  function Steady(s: System, a: NodeId, at: int, due: int): System {
    s.(now := at, due := s.due[a := due])
  }

  /** Node `a` ticks on without reaching the server, keeping its role, until instant `until`. */
  lemma {:induction false} Disconnected(t: Timing, reliable: bool, s: System, a: NodeId, until: int) returns (run: seq<Action>)
    requires Positive(t) && WellFormed(s) && a in s.nodes
    requires reliable ==> s.nodes[a].isLeader
    requires s.now <= until && s.due[a] == s.now + t.renewalPeriod
    requires forall m :: m in s.due && m != a ==> until <= s.due[m]
    requires s.nodes[a].isLeader ==> !RenewalTooOld(s.nodes[a].lastRenewal, until, t.electionTimeout)
    ensures Runs(t, reliable, s, run, Steady(s, a, until, until + t.renewalPeriod))
    decreases until - s.now
  {
    if s.now == until {
      assert Steady(s, a, until, until + t.renewalPeriod) == s;
      return [];
    }
    var at := if s.now + t.renewalPeriod < until then s.now + t.renewalPeriod else until;
    var act := Action(at, a, Ticks(DOWN));
    assert !s.nodes[a].isLeader || !RenewalTooOld(s.nodes[a].lastRenewal, at, t.electionTimeout);
    var s1 := Perform(t, s, act);
    assert s1.nodes == s.nodes;
    assert s1 == Steady(s, a, at, at + t.renewalPeriod);
    var rest := Disconnected(t, reliable, s1, a, until);
    assert Steady(s1, a, until, until + t.renewalPeriod) == Steady(s, a, until, until + t.renewalPeriod);
    run := [act] + rest;
    assert run[1..] == rest;
  }

  function Start(ids: set<NodeId>, t: Timing): System {
    System(0, Free, map m | m in ids :: Node(false, None, []), map m | m in ids :: t.leaderTTL, map m | m in ids :: 0)
  }

  /** Node `a` takes over at 0, loses its connection, and still leads when its key expires. */
  lemma OutlivedKey(t: Timing, reliable: bool, ids: set<NodeId>, a: NodeId, b: NodeId) returns (run: seq<Action>, end: System)
    requires Positive(t) && t.leaderTTL <= t.electionTimeout + t.renewalPeriod
    requires a in ids && b in ids && a != b
    ensures Runs(t, reliable, Start(ids, t), run, end)
    ensures !AtMostOneLeader(end)
  {
    var s0 := Start(ids, t);
    var take := Action(0, a, Ticks(UP));
    var s1 := Perform(t, s0, take);
    var until := if t.electionTimeout < t.leaderTTL then t.electionTimeout else t.leaderTTL;
    var silent := Disconnected(t, reliable, s1, a, until);
    var s2 := Steady(s1, a, until, until + t.renewalPeriod);
    var grab := Action(t.leaderTTL, b, Ticks(UP));
    assert forall m :: m in s2.due ==> grab.at <= s2.due[m];
    end := Perform(t, s2, grab);
    assert end.nodes[a].isLeader && end.nodes[b].isLeader;
    RunsOne(t, reliable, s2, grab);
    RunsAfterOne(t, reliable, s0, take, silent, s2, [grab], end);
    run := [take] + silent + [grab];
  }

  /** Node `a` reclaims its own key just before it expires and fails to extend it. */
  lemma UnextendedReclaim(t: Timing, ids: set<NodeId>, a: NodeId, b: NodeId) returns (run: seq<Action>, end: System)
    requires Positive(t)
    requires a in ids && b in ids && a != b
    ensures Runs(t, false, Start(ids, t), run, end)
    ensures !AtMostOneLeader(end)
  {
    var s0 := Start(ids, t);
    var set_ := Action(0, a, Ticks(Network(AnswerLost, false, NotApplied)));
    var s1 := Perform(t, s0, set_);
    var silent := Disconnected(t, false, s1, a, t.leaderTTL - 1);
    var s2 := Steady(s1, a, t.leaderTTL - 1, t.leaderTTL - 1 + t.renewalPeriod);
    var late;
    late, end := ReclaimThenGrab(t, s2, a, b);
    RunsAfterOne(t, false, s0, set_, silent, s2, late, end);
    run := [set_] + silent + late;
  }

  /** A follower reclaims its key at its last instant, unextended; another node takes over at once. */
  lemma ReclaimThenGrab(t: Timing, s: System, a: NodeId, b: NodeId) returns (run: seq<Action>, end: System)
    requires Positive(t) && WellFormed(s) && a in s.nodes && b in s.nodes && a != b
    requires s.now == t.leaderTTL - 1 && s.lock == Held(a, t.leaderTTL) && !s.nodes[a].isLeader && !s.nodes[b].isLeader
    requires forall m :: m in s.due ==> s.due[m] >= t.leaderTTL
    ensures Runs(t, false, s, run, end) && !AtMostOneLeader(end)
  {
    var reclaim := Action(t.leaderTTL - 1, a, Ticks(Network(Answered, true, NotApplied)));
    var s3 := Perform(t, s, reclaim);
    var grab := Action(t.leaderTTL, b, Ticks(UP));
    end := Perform(t, s3, grab);
    assert end.nodes[a].isLeader && end.nodes[b].isLeader;
    RunsOne(t, false, s, reclaim);
    RunsOne(t, false, s3, grab);
    RunsCompose(t, false, s, [reclaim], s3, [grab], end);
    run := [reclaim] + [grab];
  }

  /**
   For two nodes or more and any positive timings, mutual exclusion holds in every run exactly when
   EXPIRE is reliable on reclaims and the key outlives a full election timeout plus one renewal period.
   */
  lemma MutualExclusionExactly(t: Timing, reliable: bool, ids: set<NodeId>, a: NodeId, b: NodeId)
    requires Positive(t)
    requires a in ids && b in ids && a != b
    ensures MutuallyExclusive(t, reliable, ids) <==> reliable && t.electionTimeout + t.renewalPeriod < t.leaderTTL
  {
    if reliable && t.electionTimeout + t.renewalPeriod < t.leaderTTL {
      forall s, run, end | Initial(s) && s.nodes.Keys == ids && Runs(t, reliable, s, run, end)
        ensures AtMostOneLeader(end)
      {
        Safety(t, s, run, end);
      }
    } else {
      var run, end;
      if reliable {
        run, end := OutlivedKey(t, reliable, ids, a, b);
      } else {
        run, end := UnextendedReclaim(t, ids, a, b);
      }
      var s := Start(ids, t);
      assert Initial(s) && s.nodes.Keys == ids && Runs(t, reliable, s, run, end);
    }
  }

  const SECOND := 1_000_000_000
  const DEFAULTS := Timing(10 * SECOND, 5 * SECOND, 2 * SECOND)

  /** The default timings are safe; timings 4, 5, 6 pass the configuration check and are not. */
  lemma ConfigurationCheckIsNotEnough(a: NodeId, b: NodeId)
    requires a != b
    ensures MutuallyExclusive(DEFAULTS, true, {a, b})
    ensures Validate(Config("leader_lock", "node", Timing(6, 5, 4))).Ok?
    ensures !MutuallyExclusive(Timing(6, 5, 4), true, {a, b})
  {
    MutualExclusionExactly(DEFAULTS, true, {a, b}, a, b);
    MutualExclusionExactly(Timing(6, 5, 4), true, {a, b}, a, b);
  }
}
