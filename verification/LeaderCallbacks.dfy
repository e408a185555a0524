/** The start/stop callback pair that owns the block producer's context. */
module LeaderCallbacks {
  import opened Wrappers
  import opened LeaderElection
  import opened LeaderSafety

  /** Producer contexts are numbered in creation order; `live` are the ones not cancelled. */
  datatype Producers = Producers(cancel: Option<nat>, live: set<nat>, created: nat)

  const NO_PRODUCER := Producers(None, {}, 0)

  /** None: the stop callback called a cancel function that was never set. */
  function React(p: Producers, e: Event): Option<Producers> {
    match e
    case Started => Some(Producers(Some(p.created), p.live + {p.created}, p.created + 1))
    case Stopped => if p.cancel.None? then None else Some(p.(live := p.live - {p.cancel.value}))
  }

  function Replay(log: seq<Event>): Option<Producers> {
    if log == [] then Some(NO_PRODUCER)
    else
      var before := Replay(log[..|log| - 1]);
      if before.None? then None else React(before.value, log[|log| - 1])
  }

  /** The closure variables `leaderCtx` and `leaderCancel`. */
  class ProduceUnseenBlocks {
    var leaderCancel: Option<nat>
    var live: set<nat>
    var created: nat

    ghost function State(): Producers
      reads this
    {
      Producers(leaderCancel, live, created)
    }

    constructor ()
      ensures State() == NO_PRODUCER
    {
      leaderCancel, live, created := None, {}, 0;
    }

    method OnStartLeading()
      modifies this
      ensures React(old(State()), Started) == Some(State())
      ensures leaderCancel == Some(old(created)) && live == old(live) + {old(created)} && created == old(created) + 1
    {
      leaderCancel := Some(created);
      live := live + {created};
      created := created + 1;
    }

    method OnStopLeading()
      requires leaderCancel.Some?
      modifies this
      ensures React(old(State()), Stopped) == Some(State())
      ensures leaderCancel == old(leaderCancel) && live == old(live) - {leaderCancel.value}
    {
      live := live - {leaderCancel.value};
    }
  }

  lemma {:induction false} AlternationDrivesOneProducer(log: seq<Event>, leads: bool)
    requires Alternates(log, leads)
    ensures Replay(log).Some?
    ensures Replay(log).value.live == if leads then {Replay(log).value.created - 1} else {}
    ensures log != [] ==> Replay(log).value.cancel == Some(Replay(log).value.created - 1)
    ensures leads ==> Replay(log).value.created > 0
    ensures log != [] ==> Replay(log).value.created > 0
  {
    if log != [] {
      AlternationDrivesOneProducer(log[..|log| - 1], !leads);
    }
  }

  /** In every run of every cluster: no unset cancel is called, and a producer runs exactly while its node leads. */
  lemma OneProducerInRuns(t: Timing, reliable: bool, s: System, run: seq<Action>, end: System, m: NodeId)
    requires Initial(s) && Runs(t, reliable, s, run, end) && m in end.nodes
    ensures Replay(end.nodes[m].log).Some?
    ensures |Replay(end.nodes[m].log).value.live| == if end.nodes[m].isLeader then 1 else 0
  {
    CallbacksAlternateInRuns(t, reliable, s, run, end);
    AlternationDrivesOneProducer(end.nodes[m].log, end.nodes[m].isLeader);
  }
}
