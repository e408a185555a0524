/**
 Leader election over one Redis key with a time to live.

 Instants and durations are integers (nanoseconds).  One tick of a node makes up to three
 calls, SETNX, GET and EXPIRE; the tick is one atomic step at one instant.
 */
module LeaderElection {
  import opened Wrappers

  type NodeId = string

  datatype Config = Config(lockKey: string, nodeId: NodeId, timing: Timing)

  datatype Timing = Timing(leaderTTL: int, electionTimeout: int, renewalPeriod: int)

  datatype ConfigError = EmptyLockKey | EmptyNodeId | NonPositiveDuration | WrongRatio

  function Validate(c: Config): (r: Result<(), ConfigError>) {
    if c.lockKey == "" then Err(EmptyLockKey)
    else if c.nodeId == "" then Err(EmptyNodeId)
    else if c.timing.leaderTTL <= 0 || c.timing.electionTimeout <= 0 || c.timing.renewalPeriod <= 0 then
      Err(NonPositiveDuration)
    else if !(c.timing.renewalPeriod < c.timing.electionTimeout < c.timing.leaderTTL) then Err(WrongRatio)
    else Ok(())
  }

  /** The timings `Validate` lets through. */
  predicate Ordered(t: Timing) {
    0 < t.renewalPeriod < t.electionTimeout < t.leaderTTL
  }

  /** Timings an elector can run with: it never calls `Validate`, but a ticker and a time to live are positive. */
  predicate Positive(t: Timing) {
    t.leaderTTL > 0 && t.electionTimeout > 0 && t.renewalPeriod > 0
  }

  lemma ValidateAcceptsOrdered(c: Config)
    ensures Validate(c).Ok? <==> c.lockKey != "" && c.nodeId != "" && Ordered(c.timing)
  {
  }

  /** The key on the server. */
  datatype Lock = Free | Held(owner: NodeId, expiresAt: int)

  predicate Live(lock: Lock, now: int) {
    lock.Held? && now < lock.expiresAt
  }

  /** What became of a call: answered, applied by the server with the answer lost, or never applied. */
  datatype Delivery = Answered | AnswerLost | NotApplied

  /** How the calls of one tick fare. */
  datatype Network = Network(setNX: Delivery, get: bool, expire: Delivery)

  datatype Event = Started | Stopped

  /** What a node remembers.  `lastRenewal` is None until the first renewal. */
  datatype Node = Node(isLeader: bool, lastRenewal: Option<int>, log: seq<Event>)

  predicate RenewalTooOld(lastRenewal: Option<int>, now: int, timeout: int) {
    match lastRenewal
    case None => true
    case Some(at) => now - at > timeout
  }

  function SetNX(lock: Lock, now: int, owner: NodeId, ttl: int, d: Delivery): Lock {
    if d != NotApplied && !Live(lock, now) then Held(owner, now + ttl) else lock
  }

  function Expire(lock: Lock, now: int, ttl: int, d: Delivery): Lock {
    if d != NotApplied && Live(lock, now) then lock.(expiresAt := now + ttl) else lock
  }

  function Own(n: Node): Node {
    n.(isLeader := true, log := n.log + [Started])
  }

  function Lose(n: Node): Node {
    n.(isLeader := false, log := n.log + [Stopped])
  }

  /** One tick of node `id` at instant `now`. */
  function Tick(t: Timing, id: NodeId, n: Node, lock: Lock, now: int, net: Network): (Node, Lock) {
    if n.isLeader && RenewalTooOld(n.lastRenewal, now, t.electionTimeout) then
      (Lose(n), lock)
    else
      var lock1 := SetNX(lock, now, id, t.leaderTTL, net.setNX);
      if net.setNX != Answered || !net.get || !Live(lock1, now) then
        (n, lock1)
      else if lock1.owner != id then
        (if n.isLeader then Lose(n) else n, lock1)
      else
        var n1 := if n.isLeader then n else Own(n);
        var lock2 := Expire(lock1, now, t.leaderTTL, net.expire);
        (if net.expire == Answered then n1.(lastRenewal := Some(now)) else n1, lock2)
  }

  // ---------------------------------------------------------------- the elector as an object

  /** The lock client: one key, and calls that may fail. */
  class LockClient {
    var entry: Lock

    constructor ()
      ensures entry == Free
    {
      entry := Free;
    }

    method SetNXCall(now: int, owner: NodeId, ttl: int, d: Delivery) returns (failed: bool)
      modifies this
      ensures entry == SetNX(old(entry), now, owner, ttl, d)
      ensures failed <==> d != Answered
    {
      if d != NotApplied && !(entry.Held? && now < entry.expiresAt) {
        entry := Held(owner, now + ttl);
      }
      failed := d != Answered;
    }

    /** GET of a missing or expired key answers with an error, as the client library does. */
    method GetCall(now: int, delivered: bool) returns (value: Option<NodeId>)
      ensures value == if delivered && Live(entry, now) then Some(entry.owner) else None
    {
      if !delivered || entry.Free? || entry.expiresAt <= now {
        return None;
      }
      value := Some(entry.owner);
    }

    method ExpireCall(now: int, ttl: int, d: Delivery) returns (failed: bool)
      modifies this
      ensures entry == Expire(old(entry), now, ttl, d)
      ensures failed <==> d != Answered
    {
      if d != NotApplied && entry.Held? && now < entry.expiresAt {
        entry := Held(entry.owner, now + ttl);
      }
      failed := d != Answered;
    }
  }

  /** One invocation of one registered callback. */
  datatype Invocation = Invocation(callback: nat, event: Event)

  /** All `n` callbacks, in registration order, for every event of a log. */
  function Invocations(log: seq<Event>, n: nat): seq<Invocation> {
    if log == [] then [] else Invocations(log[..|log| - 1], n) + Round(log[|log| - 1], n)
  }

  function Round(e: Event, n: nat): seq<Invocation> {
    seq(n, i requires 0 <= i => Invocation(i, e))
  }

  /** The `k`th event runs every callback once, in the order of registration. */
  lemma {:induction false} InvocationsInOrder(log: seq<Event>, n: nat, k: nat, i: nat)
    requires k < |log| && i < n
    ensures |Invocations(log, n)| == |log| * n && k * n + i < |log| * n
    ensures Invocations(log, n)[k * n + i] == Invocation(i, log[k])
    decreases |log|
  {
    var init := log[..|log| - 1];
    InvocationsSize(init, n);
    OneMultipleMore(n, |init|);
    if k < |init| {
      OneMultipleMore(n, k);
      Multiples(n, k + 1, |init|);
      InvocationsInOrder(init, n, k, i);
    }
  }

  lemma {:induction false} InvocationsSize(log: seq<Event>, n: nat)
    ensures |Invocations(log, n)| == |log| * n
  {
    if log != [] {
      InvocationsSize(log[..|log| - 1], n);
      OneMultipleMore(n, |log| - 1);
    }
  }

  lemma OneMultipleMore(n: nat, x: int)
    ensures (x + 1) * n == x * n + n
  {
  }

  lemma Multiples(n: nat, x: int, y: int)
    requires x <= y
    ensures x * n <= y * n
  {
  }

  class LeaderElector {
    const config: Config
    const callbacks: nat
    const lockClient: LockClient
    var isLeader: bool
    var lastLeadershipTime: Option<int>
    var invoked: seq<Invocation>
    ghost var log: seq<Event>

    ghost predicate Valid()
      reads this
    {
      invoked == Invocations(log, callbacks)
    }

    ghost function State(): Node
      reads this
    {
      Node(isLeader, lastLeadershipTime, log)
    }

    constructor (config: Config, callbacks: nat, client: LockClient)
      ensures Valid() && State() == Node(false, None, [])
      ensures this.config == config && this.callbacks == callbacks && lockClient == client
    {
      this.config := config;
      this.callbacks := callbacks;
      lockClient := client;
      isLeader := false;
      lastLeadershipTime := None;
      invoked := [];
      log := [];
    }

    /** Runs the callbacks one after another for one event. */
    method RunCallbacks(e: Event)
      requires Valid()
      modifies this`invoked, this`log
      ensures Valid() && log == old(log) + [e]
    {
      var before := invoked;
      for i := 0 to callbacks
        invariant invoked == before + Round(e, callbacks)[..i]
        invariant log == old(log)
      {
        invoked := invoked + [Invocation(i, e)];
      }
      log := log + [e];
    }

    method OwnLeadership()
      requires Valid()
      modifies this
      ensures Valid() && State() == Own(old(State()))
    {
      isLeader := true;
      RunCallbacks(Started);
    }

    method LoseLeadership()
      requires Valid()
      modifies this
      ensures Valid() && State() == Lose(old(State()))
    {
      isLeader := false;
      RunCallbacks(Stopped);
    }

    method TryAcquireLeadership(now: int, net: Network)
      requires Valid()
      modifies this, lockClient
      ensures Valid()
      ensures (State(), lockClient.entry)
           == Tick(config.timing, config.nodeId, old(State()), old(lockClient.entry), now, net)
    {
      var t := config.timing;
      if isLeader && RenewalTooOld(lastLeadershipTime, now, t.electionTimeout) {
        LoseLeadership();
        return;
      }
      var failed := lockClient.SetNXCall(now, config.nodeId, t.leaderTTL, net.setNX);
      if failed {
        return;
      }
      var value := lockClient.GetCall(now, net.get);
      if value.None? {
        return;
      }
      if value.value != config.nodeId {
        if isLeader {
          LoseLeadership();
        }
        return;
      }
      if !isLeader {
        OwnLeadership();
      }
      failed := lockClient.ExpireCall(now, t.leaderTTL, net.expire);
      if failed {
        return;
      }
      lastLeadershipTime := Some(now);
    }
  }
}
