/**
 Runs of any number of electors against one key, and what every run keeps.

 Every node ticks at the latest one renewal period after its previous tick; ticks of different
 nodes interleave freely and any call may fail.  A node may also restart as a fresh elector.
 */
module LeaderSafety {
  import opened Wrappers
  import opened LeaderElection

  /** `due` is the latest instant of a node's next tick; `took` is when it last took over. */
  datatype System = System(now: int, lock: Lock, nodes: map<NodeId, Node>, due: map<NodeId, int>, took: map<NodeId, int>)

  datatype Kind = Ticks(net: Network) | Restarts

  /** All calls of a tick are answered. */
  const UP := Network(Answered, true, Answered)

  datatype Action = Action(at: int, node: NodeId, kind: Kind)

  ghost predicate WellFormed(s: System) {
    s.due.Keys == s.nodes.Keys && s.took.Keys == s.nodes.Keys
  }

  /** Fresh followers, and whatever key an earlier deployment left behind. */
  ghost predicate Initial(s: System) {
    && WellFormed(s)
    && (forall m :: m in s.nodes ==> s.nodes[m] == Node(false, None, []))
    && (forall m :: m in s.due ==> s.now <= s.due[m])
  }

  /** A follower finds its own key still alive. */
  predicate Reclaims(s: System, a: Action) {
    a.node in s.nodes && !s.nodes[a.node].isLeader && Live(s.lock, a.at) && s.lock.owner == a.node
  }

  /** `reliable` says that EXPIRE reaches the server on the ticks that reclaim a live key. */
  ghost predicate Enabled(reliable: bool, s: System, a: Action) {
    && a.node in s.nodes
    && s.now <= a.at
    && (forall m :: m in s.due ==> a.at <= s.due[m])
    && (reliable && a.kind.Ticks? && Reclaims(s, a) ==> a.kind.net.expire != NotApplied)
  }

  function Perform(t: Timing, s: System, a: Action): System
    requires a.node in s.nodes
  {
    match a.kind
    case Restarts =>
      s.(now := a.at,
         nodes := s.nodes[a.node := Node(false, None, [])],
         due := s.due[a.node := a.at + t.renewalPeriod])
    case Ticks(net) =>
      var (n, lock) := Tick(t, a.node, s.nodes[a.node], s.lock, a.at, net);
      System(a.at, lock,
             s.nodes[a.node := n],
             s.due[a.node := a.at + t.renewalPeriod],
             if n.isLeader && !s.nodes[a.node].isLeader then s.took[a.node := a.at] else s.took)
  }

  /** `s` performs the actions of `run` one after another and ends in `end`. */
  ghost predicate Runs(t: Timing, reliable: bool, s: System, run: seq<Action>, end: System)
    decreases |run|
  {
    if run == [] then end == s
    else Enabled(reliable, s, run[0]) && Runs(t, reliable, Perform(t, s, run[0]), run[1..], end)
  }

  ghost predicate AtMostOneLeader(s: System) {
    forall m, n :: m in s.nodes && n in s.nodes && s.nodes[m].isLeader && s.nodes[n].isLeader ==> m == n
  }

  ghost predicate KeepsKey(t: Timing, s: System, m: NodeId)
    requires m in s.nodes && m in s.due
  {
    && s.lock.Held? && s.lock.owner == m && s.due[m] < s.lock.expiresAt
    && (s.nodes[m].lastRenewal.Some? ==> s.nodes[m].lastRenewal.value + t.leaderTTL <= s.lock.expiresAt)
  }

  /** A leader owns a key that outlives its next tick. */
  ghost predicate LeadersHoldKey(t: Timing, s: System) {
    && WellFormed(s)
    && (forall m :: m in s.nodes ==>
          && s.now <= s.due[m]
          && (s.nodes[m].lastRenewal.Some? ==> s.nodes[m].lastRenewal.value <= s.now)
          && (s.nodes[m].isLeader ==> KeepsKey(t, s, m)))
  }

  /** How long a leader can go without renewing. */
  ghost predicate LeadershipIsRecent(t: Timing, s: System) {
    && WellFormed(s)
    && (forall m :: m in s.nodes && s.nodes[m].isLeader ==>
          || (s.nodes[m].lastRenewal.Some? && s.due[m] <= s.nodes[m].lastRenewal.value + t.electionTimeout + t.renewalPeriod)
          || s.due[m] <= s.took[m] + t.renewalPeriod)
  }

  /** Start and stop alternate, beginning with start; the last event tells who leads. */
  ghost predicate Alternates(log: seq<Event>, leads: bool) {
    && (forall k :: 0 <= k < |log| ==> log[k] == if k % 2 == 0 then Started else Stopped)
    && (leads <==> |log| % 2 == 1)
  }

  ghost predicate CallbacksAlternate(s: System) {
    forall m :: m in s.nodes ==> Alternates(s.nodes[m].log, s.nodes[m].isLeader)
  }

  lemma KeyHeldStep(t: Timing, s: System, a: Action)
    requires Positive(t) && t.electionTimeout + t.renewalPeriod < t.leaderTTL
    requires LeadersHoldKey(t, s) && Enabled(true, s, a)
    ensures LeadersHoldKey(t, Perform(t, s, a))
  {
    var s' := Perform(t, s, a);
    forall m | m in s'.nodes
      ensures s'.now <= s'.due[m]
      ensures s'.nodes[m].lastRenewal.Some? ==> s'.nodes[m].lastRenewal.value <= s'.now
      ensures s'.nodes[m].isLeader ==> KeepsKey(t, s', m)
    {
      if m != a.node && s'.nodes[m].isLeader {
        assert KeepsKey(t, s, m);
      }
      if m == a.node && s.nodes[m].isLeader {
        assert KeepsKey(t, s, m);
      }
    }
  }

  lemma RecentStep(t: Timing, s: System, a: Action, reliable: bool)
    requires Positive(t) && LeadershipIsRecent(t, s) && Enabled(reliable, s, a)
    ensures LeadershipIsRecent(t, Perform(t, s, a))
  {
  }

  lemma AlternationStep(t: Timing, s: System, a: Action, reliable: bool)
    requires CallbacksAlternate(s) && Enabled(reliable, s, a)
    ensures CallbacksAlternate(Perform(t, s, a))
  {
    var s' := Perform(t, s, a);
    forall m | m in s'.nodes
      ensures Alternates(s'.nodes[m].log, s'.nodes[m].isLeader)
    {
      if m == a.node {
        var n, n' := s.nodes[m], s'.nodes[m];
        assert Alternates(n.log, n.isLeader);
        assert n' == n || n'.log == [] || n'.log == n.log || n'.log == n.log + [if n.isLeader then Stopped else Started];
      }
    }
  }

  lemma {:induction false} KeyHeldInRuns(t: Timing, s: System, run: seq<Action>, end: System)
    requires Positive(t) && t.electionTimeout + t.renewalPeriod < t.leaderTTL
    requires LeadersHoldKey(t, s) && Runs(t, true, s, run, end)
    ensures LeadersHoldKey(t, end)
    decreases |run|
  {
    if run != [] {
      KeyHeldStep(t, s, run[0]);
      KeyHeldInRuns(t, Perform(t, s, run[0]), run[1..], end);
    }
  }

  /** At most one leader at the end of every run, and its key is alive until its next tick. */
  lemma Safety(t: Timing, s: System, run: seq<Action>, end: System)
    requires Positive(t) && t.electionTimeout + t.renewalPeriod < t.leaderTTL
    requires Initial(s) && Runs(t, true, s, run, end)
    ensures AtMostOneLeader(end)
    ensures forall m, u :: m in end.nodes && m in end.due && end.nodes[m].isLeader && u <= end.due[m] ==>
              Live(end.lock, u) && end.lock.owner == m
  {
    KeyHeldInRuns(t, s, run, end);
    forall m | m in end.nodes && end.nodes[m].isLeader
      ensures KeepsKey(t, end, m)
    {
    }
  }

  lemma {:induction false} RecentInRuns(t: Timing, reliable: bool, s: System, run: seq<Action>, end: System)
    requires Positive(t) && LeadershipIsRecent(t, s) && Runs(t, reliable, s, run, end)
    ensures LeadershipIsRecent(t, end)
    decreases |run|
  {
    if run != [] {
      RecentStep(t, s, run[0], reliable);
      RecentInRuns(t, reliable, Perform(t, s, run[0]), run[1..], end);
    }
  }

  /** Needs neither condition of the safety theorem: whatever fails, leadership is never stale for long. */
  lemma LeadershipNeverStale(t: Timing, reliable: bool, s: System, run: seq<Action>, end: System)
    requires Positive(t) && Initial(s) && Runs(t, reliable, s, run, end)
    ensures LeadershipIsRecent(t, end)
  {
    RecentInRuns(t, reliable, s, run, end);
  }

  lemma {:induction false} AlternationInRuns(t: Timing, reliable: bool, s: System, run: seq<Action>, end: System)
    requires CallbacksAlternate(s) && Runs(t, reliable, s, run, end)
    ensures CallbacksAlternate(end)
    decreases |run|
  {
    if run != [] {
      AlternationStep(t, s, run[0], reliable);
      AlternationInRuns(t, reliable, Perform(t, s, run[0]), run[1..], end);
    }
  }

  lemma CallbacksAlternateInRuns(t: Timing, reliable: bool, s: System, run: seq<Action>, end: System)
    requires Initial(s) && Runs(t, reliable, s, run, end)
    ensures CallbacksAlternate(end)
  {
    AlternationInRuns(t, reliable, s, run, end);
  }
}
