/**
 The leader's block id producer: workers that share one counter and one buffered channel.
 Bumping the counter and reading it back are two separate atomic operations.
 */
module Producer {
  import opened Counting

  datatype Worker =
    | Idle
    | Busy(id: nat)      // took the id and is processing it
    | Retry(id: nat)     // processing failed: about to put the id back
    | Done               // processing succeeded: about to bump the counter
    | Bumped             // bumped the counter: about to read it
    | Sending(id: nat)   // read the counter: about to send the id

  /** `issued` and `processed` list every id read from the counter and every id processed. */
  datatype State = State(counter: nat, channel: seq<nat>, workers: seq<Worker>, issued: seq<nat>, processed: seq<nat>)

  datatype Step = Take(w: nat) | Fail(w: nat) | Succeed(w: nat) | Bump(w: nat) | Read(w: nat) | Send(w: nat)

  predicate CanStep(s: State, step: Step) {
    && step.w < |s.workers|
    && var me := s.workers[step.w];
       match step
       case Take(_) => me.Idle? && s.channel != []
       case Fail(_) => me.Busy?
       case Succeed(_) => me.Busy?
       case Bump(_) => me.Done?
       case Read(_) => me.Bumped?
       case Send(_) => (me.Sending? || me.Retry?) && |s.channel| < |s.workers|
  }

  function NextWorker(s: State, step: Step): Worker
    requires CanStep(s, step)
  {
    match step
    case Take(_) => Busy(s.channel[0])
    case Fail(w) => Retry(s.workers[w].id)
    case Succeed(_) => Done
    case Bump(_) => Bumped
    case Read(_) => Sending(s.counter)
    case Send(_) => Idle
  }

  function Apply(s: State, step: Step): State
    requires CanStep(s, step)
  {
    State(
      if step.Bump? then s.counter + 1 else s.counter,
      if step.Take? then s.channel[1..] else if step.Send? then s.channel + [s.workers[step.w].id] else s.channel,
      s.workers[step.w := NextWorker(s, step)],
      if step.Read? then s.issued + [s.counter] else s.issued,
      if step.Succeed? then s.processed + [s.workers[step.w].id] else s.processed)
  }

  function FirstIds(from: nat, n: nat): seq<nat> {
    seq(n, i requires 0 <= i => from + 1 + i)
  }

  function Start(from: nat, workers: nat): State {
    State(from + workers, FirstIds(from, workers), seq(workers, i => Idle), FirstIds(from, workers), [])
  }

  /** The start-up loop: one bump, one read and one send per worker, before any worker runs. */
  method FillChannel(from: nat, workers: nat) returns (s: State)
    ensures s == Start(from, workers)
  {
    var counter, channel := from, [];
    for i := 0 to workers
      invariant counter == from + i && channel == FirstIds(from, i)
    {
      counter := counter + 1;
      channel := channel + [counter];
    }
    s := State(counter, channel, seq(workers, i => Idle), channel, []);
  }

  /** Every step of `steps` is enabled in turn and they lead to `end`. */
  ghost predicate Runs(s: State, steps: seq<Step>, end: State)
    decreases |steps|
  {
    if steps == [] then end == s
    else CanStep(s, steps[0]) && Runs(Apply(s, steps[0]), steps[1..], end)
  }

  // ------------------------------------------------------------------- where the ids are

  lemma CountAppend(q: seq<nat>, x: nat, id: nat)
    ensures Count(q + [x], id) == Count(q, id) + if x == id then 1 else 0
  {
    assert (q + [x])[..|q|] == q;
  }

  lemma {:induction false} CountFront(q: seq<nat>, id: nat)
    requires q != []
    ensures Count(q, id) == Count(q[1..], id) + if q[0] == id then 1 else 0
    decreases |q|
  {
    if |q| > 1 {
      CountFront(q[..|q| - 1], id);
      assert q[..|q| - 1][1..] == q[1..][..|q| - 2];
    } else {
      assert q[..0] == [];
    }
  }

  predicate Holds(w: Worker, id: nat) {
    (w.Busy? || w.Retry? || w.Sending?) && w.id == id
  }

  function Held(ws: seq<Worker>, id: nat): nat {
    if ws == [] then 0 else Held(ws[..|ws| - 1], id) + if Holds(ws[|ws| - 1], id) then 1 else 0
  }

  function Active(ws: seq<Worker>): nat {
    if ws == [] then 0 else Active(ws[..|ws| - 1]) + if ws[|ws| - 1].Idle? then 0 else 1
  }

  lemma {:induction false} HeldAfter(ws: seq<Worker>, w: nat, me: Worker, id: nat)
    requires w < |ws|
    ensures Held(ws[w := me], id) + (if Holds(ws[w], id) then 1 else 0) == Held(ws, id) + (if Holds(me, id) then 1 else 0)
    decreases |ws|
  {
    var n := |ws| - 1;
    if w == n {
      assert ws[w := me][..n] == ws[..n];
    } else {
      HeldAfter(ws[..n], w, me, id);
      assert ws[w := me][..n] == ws[..n][w := me];
    }
  }

  lemma {:induction false} ActiveAfter(ws: seq<Worker>, w: nat, me: Worker)
    requires w < |ws|
    ensures Active(ws[w := me]) + (if ws[w].Idle? then 0 else 1) == Active(ws) + (if me.Idle? then 0 else 1)
    decreases |ws|
  {
    var n := |ws| - 1;
    if w == n {
      assert ws[w := me][..n] == ws[..n];
    } else {
      ActiveAfter(ws[..n], w, me);
      assert ws[w := me][..n] == ws[..n][w := me];
    }
  }

  lemma {:induction false} ActiveBound(ws: seq<Worker>, w: nat)
    requires w < |ws| && !ws[w].Idle?
    ensures Active(ws) >= 1
    decreases |ws|
  {
    if w < |ws| - 1 { ActiveBound(ws[..|ws| - 1], w); }
  }

  lemma {:induction false} NobodyHolds(n: nat, id: nat)
    ensures Held(seq(n, i => Idle), id) == 0 && Active(seq(n, i => Idle)) == 0
  {
    if n > 0 {
      NobodyHolds(n - 1, id);
      assert seq(n, i => Idle)[..n - 1] == seq(n - 1, i => Idle);
    }
  }

  /** How often an id was processed, is queued, or is held by a worker. */
  function Accounted(s: State, id: nat): nat {
    Count(s.processed, id) + Count(s.channel, id) + Held(s.workers, id)
  }

  lemma AccountedStep(s: State, step: Step, id: nat)
    requires CanStep(s, step)
    ensures Accounted(Apply(s, step), id) == Accounted(s, id) + if step.Read? && s.counter == id then 1 else 0
  {
    HeldAfter(s.workers, step.w, NextWorker(s, step), id);
    match step {
      case Take(_) => CountFront(s.channel, id);
      case Send(w) => CountAppend(s.channel, s.workers[w].id, id);
      case Succeed(w) => CountAppend(s.processed, s.workers[w].id, id);
      case _ =>
    }
  }

  /** One token per worker; no id is lost or invented; ids stay above `from`. */
  ghost predicate Conserved(from: nat, s: State) {
    && |s.channel| + Active(s.workers) == |s.workers|
    && (forall id: nat :: Count(s.issued, id) == Accounted(s, id))
    && (forall id: nat :: id in s.issued ==> from < id <= s.counter)
    && (forall w :: 0 <= w < |s.workers| && s.workers[w].Bumped? ==> from < s.counter)
  }

  lemma ConservedStep(from: nat, s: State, step: Step)
    requires Conserved(from, s) && from <= s.counter && CanStep(s, step)
    ensures Conserved(from, Apply(s, step))
  {
    var s' := Apply(s, step);
    ActiveAfter(s.workers, step.w, NextWorker(s, step));
    forall id: nat
      ensures Count(s'.issued, id) == Accounted(s', id)
    {
      AccountedStep(s, step, id);
      CountAppend(s.issued, s.counter, id);
    }
    forall w | 0 <= w < |s'.workers| && s'.workers[w].Bumped?
      ensures from < s'.counter
    {
      assert w == step.w || s.workers[w].Bumped?;
    }
  }

  lemma ConservedAtStart(from: nat, workers: nat)
    ensures Conserved(from, Start(from, workers))
  {
    NobodyHolds(workers, 0);
    forall id: nat
      ensures Count(Start(from, workers).issued, id) == Accounted(Start(from, workers), id)
    {
      NobodyHolds(workers, id);
    }
  }

  lemma {:induction false} ConservedInRuns(from: nat, s: State, steps: seq<Step>, end: State)
    requires Conserved(from, s) && from <= s.counter && Runs(s, steps, end)
    ensures Conserved(from, end) && |end.workers| == |s.workers|
    decreases |steps|
  {
    if steps != [] {
      ConservedStep(from, s, steps[0]);
      ConservedInRuns(from, Apply(s, steps[0]), steps[1..], end);
    }
  }

  /**
   In every interleaving: a worker that wants to send never blocks; every id issued was processed,
   is queued or is held, as often as it was issued; and the id `from` itself is never issued.
   */
  lemma NoIdIsLost(from: nat, workers: nat, steps: seq<Step>, end: State)
    requires Runs(Start(from, workers), steps, end)
    ensures |end.workers| == workers && |end.channel| + Active(end.workers) == workers
    ensures forall w :: 0 <= w < workers && (end.workers[w].Sending? || end.workers[w].Retry?) ==> CanStep(end, Send(w))
    ensures forall id: nat :: Count(end.issued, id) == Accounted(end, id)
    ensures from !in end.issued && Accounted(end, from) == 0
  {
    ConservedAtStart(from, workers);
    ConservedInRuns(from, Start(from, workers), steps, end);
    forall w | 0 <= w < workers && (end.workers[w].Sending? || end.workers[w].Retry?)
      ensures CanStep(end, Send(w))
    {
      ActiveBound(end.workers, w);
    }
    CountMember(end.issued, from);
  }

  // ------------------------------------------------- exactly which runs number the blocks right

  /** The ids issued are `from + 1 .. upTo`, each once. */
  ghost predicate EachOnce(from: nat, upTo: nat, issued: seq<nat>) {
    forall id: nat :: Count(issued, id) == if from < id <= upTo then 1 else 0
  }

  ghost predicate NoneBumped(s: State) {
    forall w :: 0 <= w < |s.workers| ==> !s.workers[w].Bumped?
  }

  /** At most one worker is between its bump and its read, and it alone explains the gap. */
  ghost predicate ExactButOne(from: nat, s: State) {
    && from <= s.counter
    && (forall v, w :: 0 <= v < w < |s.workers| ==> !(s.workers[v].Bumped? && s.workers[w].Bumped?))
    && (if NoneBumped(s) then EachOnce(from, s.counter, s.issued)
        else from < s.counter && EachOnce(from, s.counter - 1, s.issued))
  }

  /** Every bump is taken while no other worker sits between its own bump and read. */
  ghost predicate Undisturbed(s: State, steps: seq<Step>)
    decreases |steps|
  {
    steps == [] ||
    (&& CanStep(s, steps[0])
     && (steps[0].Bump? ==> NoneBumped(s))
     && Undisturbed(Apply(s, steps[0]), steps[1..]))
  }

  lemma BumpedAfter(s: State, step: Step)
    requires CanStep(s, step)
    ensures forall w :: 0 <= w < |s.workers| ==>
              (Apply(s, step).workers[w].Bumped? <==> if w == step.w then step.Bump? else s.workers[w].Bumped?)
  {
  }

  lemma NoneBumpedAfter(s: State, step: Step)
    requires CanStep(s, step)
    requires forall v, w :: 0 <= v < w < |s.workers| ==> !(s.workers[v].Bumped? && s.workers[w].Bumped?)
    ensures step.Bump? ==> !NoneBumped(Apply(s, step))
    ensures step.Read? ==> !NoneBumped(s) && NoneBumped(Apply(s, step))
    ensures !step.Bump? && !step.Read? ==> (NoneBumped(s) <==> NoneBumped(Apply(s, step)))
  {
    var s' := Apply(s, step);
    BumpedAfter(s, step);
    assert step.Bump? ==> s'.workers[step.w].Bumped?;
    if step.Read? {
      assert s.workers[step.w].Bumped?;
    } else if !step.Bump? {
      assert !s.workers[step.w].Bumped?;
      assert forall w :: 0 <= w < |s.workers| ==> (s.workers[w].Bumped? <==> s'.workers[w].Bumped?);
    }
  }

  lemma EachOnceExtends(from: nat, upTo: nat, issued: seq<nat>)
    requires from < upTo && EachOnce(from, upTo - 1, issued)
    ensures EachOnce(from, upTo, issued + [upTo])
  {
    forall id: nat
      ensures Count(issued + [upTo], id) == if from < id <= upTo then 1 else 0
    {
      CountAppend(issued, upTo, id);
    }
  }

  lemma ExactStep(from: nat, s: State, step: Step)
    requires ExactButOne(from, s) && CanStep(s, step) && (step.Bump? ==> NoneBumped(s))
    ensures ExactButOne(from, Apply(s, step))
  {
    BumpedAfter(s, step);
    NoneBumpedAfter(s, step);
    if step.Read? {
      EachOnceExtends(from, s.counter, s.issued);
    }
  }

  lemma {:induction false} ExactInRuns(from: nat, s: State, steps: seq<Step>, end: State)
    requires ExactButOne(from, s) && Runs(s, steps, end) && Undisturbed(s, steps)
    ensures ExactButOne(from, end)
    decreases |steps|
  {
    if steps != [] {
      ExactStep(from, s, steps[0]);
      ExactInRuns(from, Apply(s, steps[0]), steps[1..], end);
    }
  }

  lemma {:induction false} FirstIdsOnce(from: nat, n: nat)
    ensures EachOnce(from, from + n, FirstIds(from, n))
  {
    if n > 0 {
      FirstIdsOnce(from, n - 1);
      assert FirstIds(from, n) == FirstIds(from, n - 1) + [from + n];
      EachOnceExtends(from, from + n, FirstIds(from, n - 1));
    }
  }

  /** With every bump read before the next one, processed, queued and held ids partition `from + 1 .. counter`. */
  lemma UndisturbedRunsPartition(from: nat, workers: nat, steps: seq<Step>, end: State)
    requires Runs(Start(from, workers), steps, end) && Undisturbed(Start(from, workers), steps)
    requires NoneBumped(end)
    ensures forall id: nat :: Accounted(end, id) == if from < id <= end.counter then 1 else 0
  {
    FirstIdsOnce(from, workers);
    assert NoneBumped(Start(from, workers));
    ExactInRuns(from, Start(from, workers), steps, end);
    NoIdIsLost(from, workers, steps, end);
  }

  lemma OneMore(s: State, step: Step, steps: seq<Step>, end: State)
    requires CanStep(s, step) && Runs(Apply(s, step), steps, end)
    ensures Runs(s, [step] + steps, end)
  {
    assert ([step] + steps)[1..] == steps;
  }

  lemma FirstOfBoth<T>(a: seq<T>, b: seq<T>)
    requires a != []
    ensures a + b == [a[0]] + (a[1..] + b)
  {
  }

  lemma {:induction false} RunsCompose(s: State, steps: seq<Step>, mid: State, more: seq<Step>, end: State)
    requires Runs(s, steps, mid) && Runs(mid, more, end)
    ensures Runs(s, steps + more, end)
    decreases |steps|
  {
    if steps == [] {
      assert steps + more == more;
    } else {
      FirstOfBoth(steps, more);
      RunsCompose(Apply(s, steps[0]), steps[1..], mid, more, end);
      OneMore(s, steps[0], steps[1..] + more, end);
    }
  }

  lemma TwoSucceed(from: nat, workers: nat) returns (steps: seq<Step>, end: State)
    requires workers >= 2
    ensures Runs(Start(from, workers), steps, end)
    ensures |end.workers| == workers && end.workers[0].Done? && end.workers[1].Done? && NoneBumped(end)
    ensures end.counter == from + workers && end.issued == FirstIds(from, workers)
  {
    var s := Start(from, workers);
    var s1 := Apply(s, Take(0));
    var s2 := Apply(s1, Take(1));
    var s3 := Apply(s2, Succeed(0));
    end := Apply(s3, Succeed(1));
    OneMore(s3, Succeed(1), [], end);
    OneMore(s2, Succeed(0), [Succeed(1)] + [], end);
    OneMore(s1, Take(1), [Succeed(0)] + ([Succeed(1)] + []), end);
    steps := [Take(1)] + ([Succeed(0)] + ([Succeed(1)] + []));
    OneMore(s, Take(0), steps, end);
    steps := [Take(0)] + steps;
  }

  /** Two workers that have both succeeded bump before either reads. */
  lemma Race(s: State) returns (steps: seq<Step>, end: State)
    requires |s.workers| >= 2 && s.workers[0].Done? && s.workers[1].Done?
    ensures Runs(s, steps, end)
    ensures end.counter == s.counter + 2 && end.issued == s.issued + [s.counter + 2, s.counter + 2]
    ensures NoneBumped(s) ==> NoneBumped(end)
  {
    var s1 := Apply(s, Bump(0));
    var s2 := Apply(s1, Bump(1));
    var s3 := Apply(s2, Read(0));
    end := Apply(s3, Read(1));
    OneMore(s3, Read(1), [], end);
    OneMore(s2, Read(0), [Read(1)] + [], end);
    OneMore(s1, Bump(1), [Read(0)] + ([Read(1)] + []), end);
    steps := [Bump(1)] + ([Read(0)] + ([Read(1)] + []));
    OneMore(s, Bump(0), steps, end);
    steps := [Bump(0)] + steps;
  }

  lemma SkippedId(from: nat, n: nat, issued: seq<nat>, x: nat)
    requires issued == FirstIds(from, n) + [x, x] && x == from + n + 2
    ensures Count(issued, x) == 2 && Count<nat>(issued, x - 1) == 0
  {
    FirstIdsOnce(from, n);
    assert issued == (FirstIds(from, n) + [x]) + [x];
    forall id: nat
      ensures Count(issued, id) == Count(FirstIds(from, n), id) + if x == id then 2 else 0
    {
      CountAppend(FirstIds(from, n), x, id);
      CountAppend(FirstIds(from, n) + [x], x, id);
    }
  }

  /** With two workers or more, some interleaving issues one id twice and the id before it never. */
  lemma SkippedAndRepeated(from: nat, workers: nat) returns (steps: seq<Step>, end: State, twice: nat)
    requires workers >= 2
    ensures Runs(Start(from, workers), steps, end) && NoneBumped(end)
    ensures from + 1 < twice == end.counter && Count(end.issued, twice) == 2 && Count<nat>(end.issued, twice - 1) == 0
  {
    var first, mid := TwoSucceed(from, workers);
    steps, end, twice := RaceAfter(Start(from, workers), first, mid);
    SkippedId(from, workers, end.issued, twice);
  }

  lemma RaceAfter(s: State, first: seq<Step>, mid: State) returns (steps: seq<Step>, end: State, next: nat)
    requires Runs(s, first, mid)
    requires |mid.workers| >= 2 && mid.workers[0].Done? && mid.workers[1].Done?
    ensures Runs(s, steps, end)
    ensures next == mid.counter + 2 == end.counter && end.issued == mid.issued + [next, next]
    ensures NoneBumped(mid) ==> NoneBumped(end)
  {
    var second;
    second, end := Race(mid);
    next := end.counter;
    steps := first + second;
    RunsCompose(s, first, mid, second, end);
  }

  lemma {:induction false} OneWorkerIsUndisturbed(s: State, steps: seq<Step>, end: State)
    requires |s.workers| <= 1 && Runs(s, steps, end)
    ensures Undisturbed(s, steps)
    decreases |steps|
  {
    if steps != [] {
      OneWorkerIsUndisturbed(Apply(s, steps[0]), steps[1..], end);
    }
  }

  ghost predicate AlwaysExact(from: nat, workers: nat) {
    forall steps, end :: Runs(Start(from, workers), steps, end) && NoneBumped(end) ==> EachOnce(from, end.counter, end.issued)
  }

  /** Every interleaving issues each block id exactly once if and only if there is at most one worker. */
  lemma ExactIffOneWorker(from: nat, workers: nat)
    ensures AlwaysExact(from, workers) <==> workers <= 1
  {
    if workers <= 1 {
      FirstIdsOnce(from, workers);
      forall steps, end | Runs(Start(from, workers), steps, end) && NoneBumped(end)
        ensures EachOnce(from, end.counter, end.issued)
      {
        assert NoneBumped(Start(from, workers));
        OneWorkerIsUndisturbed(Start(from, workers), steps, end);
        ExactInRuns(from, Start(from, workers), steps, end);
      }
    } else {
      var steps, end, twice := SkippedAndRepeated(from, workers);
      assert Count(end.issued, twice) != 1;
    }
  }
}
