/** A rescan task, iteration by iteration, over a fixed set of matching states. */
module RescanLoop {
  import opened Counting
  import opened RescanWorkers
  import opened Wrappers

  /** The matching ids in the order of the query: address first, then time. */
  ghost predicate Sorted(ids: seq<Id>) {
    forall i, j :: 0 <= i < j < |ids| ==> Before(ids[i], ids[j])
  }

  function Later(ids: seq<Id>, after: Id): seq<Id> {
    if ids == [] then [] else (if Before(after, ids[0]) then [ids[0]] else []) + Later(ids[1..], after)
  }

  /** The ids after the cursor; a cursor at time 0 counts as none. */
  function Remaining(ids: seq<Id>, cursor: Option<Id>): seq<Id> {
    if cursor.Some? && cursor.value.lastTxLT != 0 then Later(ids, cursor.value) else ids
  }

  /** The query: the first `limit` of them. */
  function MatchStates(ids: seq<Id>, cursor: Option<Id>, limit: nat): seq<Id> {
    var rest := Remaining(ids, cursor);
    if |rest| > limit then rest[..limit] else rest
  }

  /** The states of a batch, in whatever order the database returns them. */
  ghost predicate Rearranges(rows: seq<Id>, batch: seq<Id>) {
    |rows| == |batch| && DistinctIds(rows) && (forall id :: id in rows <==> id in batch)
  }

  // ------------------------------------------------------------------------- the task

  class RescanTask {
    var lastAddress: Option<nat>
    var lastTxLt: nat
    var finished: bool

    constructor (lastAddress: Option<nat>, lastTxLt: nat, finished: bool)
      ensures this.lastAddress == lastAddress && this.lastTxLt == lastTxLt && this.finished == finished
    {
      this.lastAddress, this.lastTxLt, this.finished := lastAddress, lastTxLt, finished;
    }

    ghost function Cursor(): Option<Id>
      reads this
    {
      if lastAddress.Some? then Some(Id(lastAddress.value, lastTxLt)) else None
    }

    /**
     Runs one batch, unless a query or the update `fails`; `rows` is what the database returns for it.
     `written` are the updates that reach the database, `batches` what the workers were given.
     */
    method Run<V(!new)>(ids: seq<Id>, rows: seq<V>, getID: V -> Id, work: seq<V> -> seq<V>, limit: nat, workers: nat, fails: bool)
      returns (ok: bool, written: seq<V>, ghost batches: seq<seq<V>>)
      requires !finished && workers > 0 && Rearranges(Ids(rows, getID), MatchStates(ids, Cursor(), limit))
      modifies this
      ensures ok == !fails
      ensures fails ==> written == [] && finished == old(finished) && Cursor() == old(Cursor())
      ensures ok ==> finished == (rows == [])
      ensures ok ==> Cursor() == if rows == [] then old(Cursor()) else Some(LastParsed(Ids(rows, getID)))
      ensures ok ==> Updated(written, batches, rows, work, workers)
    {
      written, batches := [], [];
      if fails {
        return false, written, batches;
      }
      var last := if lastAddress.Some? then Some(Id(lastAddress.value, lastTxLt)) else None;
      var batch := MatchStates(ids, last, limit);
      if |batch| == 0 {
        finished := true;
        assert |rows| == |Ids(rows, getID)| == |batch|;
        return true, written, batches;
      }
      assert |rows| == |Ids(rows, getID)| == |batch|;
      var updates, lastScanned;
      updates, lastScanned, batches := RescanStartWorkers(rows, getID, work, workers);
      if |updates| > 0 {
        written := updates;
      }
      lastAddress, lastTxLt := Some(lastScanned.address), lastScanned.lastTxLT;
      ok := true;
    }
  }

  /**
   `written` are the updates of all the batches the rows were cut into, those of one worker given all the
   rows if workers treat rows one by one.
   */
  ghost predicate Updated<V(!new)>(written: seq<V>, batches: seq<seq<V>>, rows: seq<V>, work: seq<V> -> seq<V>, workers: nat) {
    && Flatten(batches) == rows && |batches| == Min(workers, |rows|)
    && (forall v :: Count(written, v) == Total(batches, work, v))
    && (OneByOne(work) ==> forall v :: Count(written, v) == Count(work(rows), v))
  }

  // ------------------------------------------------------------------------- whole runs

  /** Where a task stands, and every row parsed for it so far. */
  datatype State = State(cursor: Option<Id>, finished: bool, parsed: seq<Id>)

  const START := State(None, false, [])

  /** How an iteration fails: before the updates are written, or after, when the task is stored. */
  datatype Failure = BeforeUpdate | AfterUpdate

  /** One iteration of the loop: the rows it got, and whether it failed. */
  datatype Iteration = Iteration(rows: seq<Id>, failure: Option<Failure>)

  ghost predicate Possible(ids: seq<Id>, limit: nat, s: State, it: Iteration) {
    !s.finished && Rearranges(it.rows, MatchStates(ids, s.cursor, limit))
  }

  function Step(ids: seq<Id>, limit: nat, s: State, it: Iteration): State {
    match it.failure
    case Some(BeforeUpdate) => s
    case Some(AfterUpdate) => s.(parsed := s.parsed + it.rows)
    case None => if it.rows == [] then s.(finished := true) else State(Some(LastParsed(it.rows)), false, s.parsed + it.rows)
  }

  /**
   One iteration: the stored task is run on a copy, which is stored only when nothing failed.  The updates
   are written unless it failed before them.
   */
  method Iterate<V(!new)>(stored: RescanTask, ids: seq<Id>, rows: seq<V>, getID: V -> Id, work: seq<V> -> seq<V>,
                          limit: nat, workers: nat, failure: Option<Failure>)
    returns (written: seq<V>, ghost batches: seq<seq<V>>)
    requires !stored.finished && workers > 0 && Rearranges(Ids(rows, getID), MatchStates(ids, stored.Cursor(), limit))
    modifies stored
    ensures forall parsed ::
              var s := Step(ids, limit, State(old(stored.Cursor()), false, parsed), Iteration(Ids(rows, getID), failure));
              stored.Cursor() == s.cursor && stored.finished == s.finished
    ensures if failure == Some(BeforeUpdate) then written == [] else Updated(written, batches, rows, work, workers)
  {
    var task := new RescanTask(stored.lastAddress, stored.lastTxLt, stored.finished);
    var ok;
    ok, written, batches := task.Run(ids, rows, getID, work, limit, workers, failure == Some(BeforeUpdate));
    if !ok {
      return;
    }
    if failure.Some? {
      return;
    }
    stored.lastAddress, stored.lastTxLt, stored.finished := task.lastAddress, task.lastTxLt, task.finished;
  }

  function After(ids: seq<Id>, limit: nat, s: State, run: seq<Iteration>): State {
    if run == [] then s else Step(ids, limit, After(ids, limit, s, run[..|run| - 1]), run[|run| - 1])
  }

  ghost predicate Runs(ids: seq<Id>, limit: nat, s: State, run: seq<Iteration>) {
    run == [] || (Runs(ids, limit, s, run[..|run| - 1]) && Possible(ids, limit, After(ids, limit, s, run[..|run| - 1]), run[|run| - 1]))
  }

  /** How often the run wrote the updates of an id: once for each row of an iteration that got that far. */
  function TimesWritten(run: seq<Iteration>, id: Id): nat {
    if run == [] then 0
    else
      var last := run[|run| - 1];
      TimesWritten(run[..|run| - 1], id) + if last.failure == Some(BeforeUpdate) then 0 else Count(last.rows, id)
  }

  /** The record of parsed rows is what was written, and not more or less. */
  lemma {:induction false} ParsedIsWritten(ids: seq<Id>, limit: nat, run: seq<Iteration>, id: Id)
    ensures Count(After(ids, limit, START, run).parsed, id) == TimesWritten(run, id)
  {
    if run != [] {
      var last := run[|run| - 1];
      var before := After(ids, limit, START, run[..|run| - 1]);
      ParsedIsWritten(ids, limit, run[..|run| - 1], id);
      CountOfBoth(before.parsed, last.rows, id);
      assert last.rows == [] ==> before.parsed + last.rows == before.parsed;
    }
  }

  /** The ids to rescan: in order, none at time 0, and at least one at a time. */
  ghost predicate Matching(ids: seq<Id>, limit: nat) {
    Sorted(ids) && limit >= 1 && forall i :: 0 <= i < |ids| ==> ids[i].lastTxLT > 0
  }

  // ------------------------------------------------------------------------- what a batch is

  lemma {:induction false} LaterExactly(ids: seq<Id>, after: Id, id: Id)
    ensures id in Later(ids, after) <==> id in ids && Before(after, id)
  {
    if ids != [] {
      assert ids == [ids[0]] + ids[1..];
      LaterExactly(ids[1..], after, id);
    }
  }

  lemma {:induction false} LaterSorted(ids: seq<Id>, after: Id)
    requires Sorted(ids)
    ensures Sorted(Later(ids, after))
  {
    if ids != [] {
      var rest := Later(ids[1..], after);
      LaterSorted(ids[1..], after);
      forall i | 0 <= i < |rest|
        ensures Before(ids[0], rest[i])
      {
        LaterExactly(ids[1..], after, rest[i]);
        var j :| 0 <= j < |ids[1..]| && ids[1..][j] == rest[i];
      }
    }
  }

  /** Whether an id comes after the cursor. */
  predicate Beyond(cursor: Option<Id>, id: Id) {
    cursor.None? || Before(cursor.value, id)
  }

  /** A batch holds ids after the cursor, and all of these up to any of its own. */
  lemma BatchExactly(ids: seq<Id>, limit: nat, cursor: Option<Id>)
    requires Matching(ids, limit) && (cursor.Some? ==> cursor.value.lastTxLT > 0)
    ensures var batch := MatchStates(ids, cursor, limit);
            && Sorted(batch) && (forall id :: id in batch ==> id in ids && Beyond(cursor, id))
            && (batch == [] ==> forall id :: id in ids ==> !Beyond(cursor, id))
            && (forall id, b :: id in ids && b in batch && Beyond(cursor, id) && !Before(b, id) ==> id in batch)
  {
    var rest := Remaining(ids, cursor);
    if cursor.Some? {
      LaterSorted(ids, cursor.value);
      forall id
        ensures id in rest <==> id in ids && Beyond(cursor, id)
      {
        LaterExactly(ids, cursor.value, id);
      }
    }
    PrefixOfSorted(rest, |MatchStates(ids, cursor, limit)|);
  }

  lemma PrefixOfSorted(rest: seq<Id>, n: nat)
    requires Sorted(rest) && n <= |rest|
    ensures Sorted(rest[..n])
    ensures forall id, b :: id in rest && b in rest[..n] && !Before(b, id) ==> id in rest[..n]
  {
    forall id, b | id in rest && b in rest[..n] && !Before(b, id)
      ensures id in rest[..n]
    {
      var i: nat, j: nat :| i < |rest| && rest[i] == id && j < n && rest[..n][j] == b;
      assert rest[j] == b;
      assert i <= j;
      assert rest[..n][i] == id;
    }
  }

  // ------------------------------------------------------------------------- nothing is left out

  /** No id up to the cursor is left out of the rows parsed, and no other row is parsed. */
  ghost predicate NothingLeftOut(ids: seq<Id>, s: State) {
    && (s.cursor.Some? ==> s.cursor.value in ids && s.cursor.value.lastTxLT > 0)
    && (forall id :: id in ids && !Beyond(s.cursor, id) ==> id in s.parsed)
    && (s.finished ==> forall id :: id in ids ==> id in s.parsed)
  }

  /** What an iteration that succeeds on a batch does to the cursor, whatever the order of the rows. */
  lemma CursorAdvances(ids: seq<Id>, limit: nat, cursor: Option<Id>, rows: seq<Id>)
    requires Matching(ids, limit) && (cursor.Some? ==> cursor.value.lastTxLT > 0)
    requires Rearranges(rows, MatchStates(ids, cursor, limit)) && rows != []
    ensures var next := LastParsed(rows);
            && next in rows && next in ids && next.lastTxLT > 0 && Beyond(cursor, next)
            && forall id :: id in ids && !Before(next, id) && Beyond(cursor, id) ==> id in rows
  {
    BatchExactly(ids, limit, cursor);
    var k := LastParsedIsARow(rows);
    assert rows[k] in MatchStates(ids, cursor, limit);
  }

  lemma NothingLeftOutStep(ids: seq<Id>, limit: nat, s: State, it: Iteration)
    requires Matching(ids, limit) && NothingLeftOut(ids, s) && Possible(ids, limit, s, it)
    ensures NothingLeftOut(ids, Step(ids, limit, s, it))
  {
    var batch := MatchStates(ids, s.cursor, limit);
    if batch == [] {
      BatchExactly(ids, limit, s.cursor);
    } else if it.failure.None? {
      assert batch[0] in it.rows;
      CursorAdvances(ids, limit, s.cursor, it.rows);
      var next := LastParsed(it.rows);
      forall id | id in ids && !Before(next, id)
        ensures id in s.parsed + it.rows
      {
        if Beyond(s.cursor, id) {
          assert id in it.rows;
        }
      }
    }
  }

  /**
   In every run, with iterations failing anywhere and rows coming in any order, a finished task has
   parsed every matching id.
   */
  lemma {:induction false} EveryIdIsParsed(ids: seq<Id>, limit: nat, run: seq<Iteration>)
    requires Matching(ids, limit) && Runs(ids, limit, START, run)
    ensures NothingLeftOut(ids, After(ids, limit, START, run))
  {
    if run != [] {
      var init := run[..|run| - 1];
      EveryIdIsParsed(ids, limit, init);
      NothingLeftOutStep(ids, limit, After(ids, limit, START, init), run[|run| - 1]);
    }
  }

  /** Every iteration that succeeds on a batch moves the cursor strictly forward. */
  lemma CursorIncreases(ids: seq<Id>, limit: nat, run: seq<Iteration>, it: Iteration)
    requires Matching(ids, limit) && Runs(ids, limit, START, run) && it.failure.None?
    requires Possible(ids, limit, After(ids, limit, START, run), it)
    ensures var s := After(ids, limit, START, run);
            var s' := Step(ids, limit, s, it);
            s'.finished || (s'.cursor.Some? && Beyond(s.cursor, s'.cursor.value))
  {
    EveryIdIsParsed(ids, limit, run);
    StepIncreases(ids, limit, After(ids, limit, START, run), it);
  }

  lemma StepIncreases(ids: seq<Id>, limit: nat, s: State, it: Iteration)
    requires Matching(ids, limit) && NothingLeftOut(ids, s) && Possible(ids, limit, s, it) && it.failure.None?
    ensures var s' := Step(ids, limit, s, it);
            s'.finished || (s'.cursor.Some? && Beyond(s.cursor, s'.cursor.value))
  {
    if MatchStates(ids, s.cursor, limit) != [] {
      assert MatchStates(ids, s.cursor, limit)[0] in it.rows;
      CursorAdvances(ids, limit, s.cursor, it.rows);
    }
  }

  /** How many iterations succeed. */
  function Successes(run: seq<Iteration>): nat {
    if run == [] then 0 else Successes(run[..|run| - 1]) + if run[|run| - 1].failure.None? then 1 else 0
  }

  // ------------------------------------------------------------------------- where the scan is

  /** Rows of which the greatest is followed by none but rows smaller in both parts, as in sorted rows. */
  ghost predicate GreatestComesLast(rows: seq<Id>) {
    rows != [] ==> exists m: nat :: IsGreatest(rows, m) && OnlySmallerAfter(rows, m)
  }

  /** Exactly such rows leave the cursor behind none of them. */
  lemma CursorBehindNoneExactly(rows: seq<Id>)
    requires DistinctIds(rows)
    ensures GreatestComesLast(rows) <==> forall id :: id in rows ==> !Before(LastParsed(rows), id)
  {
    if rows != [] {
      var m := Greatest(rows);
      GreatestIsParsedExactly(rows, m);
      if LastParsed(rows) == rows[m] {
        forall id | id in rows
          ensures !Before(LastParsed(rows), id)
        {
          var j :| 0 <= j < |rows| && rows[j] == id;
        }
      } else {
        var k := LastParsedIsARow(rows);
        assert k != m && rows[m] in rows && Before(rows[k], rows[m]);
        forall n: nat | IsGreatest(rows, n)
          ensures n == m
        {
          assert n != m ==> Before(rows[n], rows[m]) && Before(rows[m], rows[n]);
        }
      }
    }
  }

  lemma SortedComesLast(rows: seq<Id>)
    requires Sorted(rows)
    ensures GreatestComesLast(rows)
  {
    if rows != [] {
      assert IsGreatest(rows, |rows| - 1) && OnlySmallerAfter(rows, |rows| - 1);
    }
  }

  // ------------------------------------------------------------------------- exactly once

  /** Where the `k`th batch ends, of `n` ids. */
  function EndAfter(n: nat, limit: nat, k: nat): (end: nat)
    ensures end <= n
  {
    if k == 0 then 0 else Min(EndAfter(n, limit, k - 1) + limit, n)
  }

  /** The cursor stands at the `p`th id. */
  ghost predicate StandsAt(ids: seq<Id>, cursor: Option<Id>, p: nat) {
    p <= |ids| && cursor == if p == 0 then None else Some(ids[p - 1])
  }

  lemma {:induction false} LaterAll(ids: seq<Id>, after: Id)
    requires forall i :: 0 <= i < |ids| ==> Before(after, ids[i])
    ensures Later(ids, after) == ids
  {
    if ids != [] {
      LaterAll(ids[1..], after);
    }
  }

  lemma {:induction false} LaterFrom(ids: seq<Id>, p: nat)
    requires Sorted(ids) && 0 < p <= |ids|
    ensures Later(ids, ids[p - 1]) == ids[p..]
  {
    if p == 1 {
      LaterAll(ids[1..], ids[0]);
    } else {
      LaterFrom(ids[1..], p - 1);
      assert Before(ids[0], ids[p - 1]);
    }
  }

  lemma BatchFrom(ids: seq<Id>, limit: nat, cursor: Option<Id>, p: nat)
    requires Sorted(ids) && StandsAt(ids, cursor, p) && (p > 0 ==> ids[p - 1].lastTxLT != 0)
    ensures MatchStates(ids, cursor, limit) == ids[p..Min(p + limit, |ids|)]
  {
    if p > 0 {
      LaterFrom(ids, p);
    }
    var n := Min(limit, |ids| - p);
    assert Remaining(ids, cursor) == ids[p..] && p + n == Min(p + limit, |ids|);
    assert ids[p..][..n] == ids[p..p + n];
  }

  /** The greatest of a rearranged stretch of the ids is its last. */
  lemma ParsedUpTo(ids: seq<Id>, p: nat, e: nat, rows: seq<Id>)
    requires Sorted(ids) && p < e <= |ids| && Rearranges(rows, ids[p..e]) && GreatestComesLast(rows)
    ensures LastParsed(rows) == ids[e - 1]
  {
    assert rows != [] by { assert ids[p..e][0] in rows; }
    CursorBehindNoneExactly(rows);
    var k := LastParsedIsARow(rows);
    assert ids[p..e][e - 1 - p] in rows;
    assert rows[k] in ids[p..e];
    var x :| 0 <= x < e - p && ids[p..e][x] == rows[k];
  }

  /** A batch from `p` leaves the cursor where the batch ends. */
  lemma BatchEndsAt(ids: seq<Id>, limit: nat, cursor: Option<Id>, p: nat, rows: seq<Id>)
    requires Sorted(ids) && limit >= 1 && p < |ids| && StandsAt(ids, cursor, p) && (p > 0 ==> ids[p - 1].lastTxLT != 0)
    requires Rearranges(rows, MatchStates(ids, cursor, limit)) && GreatestComesLast(rows)
    ensures rows != [] && StandsAt(ids, Some(LastParsed(rows)), Min(p + limit, |ids|))
  {
    var e := Min(p + limit, |ids|);
    BatchFrom(ids, limit, cursor, p);
    assert ids[p..e][0] in rows;
    ParsedUpTo(ids, p, e, rows);
  }

  /** The greatest row comes last, in that sense, in every iteration that succeeds. */
  ghost predicate InOrder(run: seq<Iteration>) {
    forall i :: 0 <= i < |run| && run[i].failure.None? ==> GreatestComesLast(run[i].rows)
  }

  /** No batch ends with an id at time 0. */
  ghost predicate EndsCount(ids: seq<Id>, limit: nat, k: nat) {
    forall j :: 1 <= j <= k && EndAfter(|ids|, limit, j) > 0 ==> ids[EndAfter(|ids|, limit, j) - 1].lastTxLT != 0
  }

  /** After `k` iterations that succeeded: at the end of the `k`th batch, or finished just after the last. */
  ghost predicate Reached(ids: seq<Id>, limit: nat, s: State, k: nat) {
    if s.finished then k > 0 && EndAfter(|ids|, limit, k - 1) == |ids| && (k > 1 ==> EndAfter(|ids|, limit, k - 2) < |ids|)
    else StandsAt(ids, s.cursor, EndAfter(|ids|, limit, k)) && (k > 0 ==> EndAfter(|ids|, limit, k - 1) < |ids|)
  }

  lemma ReachedNext(ids: seq<Id>, limit: nat, s: State, it: Iteration, k: nat)
    requires Sorted(ids) && limit >= 1 && EndsCount(ids, limit, k) && Reached(ids, limit, s, k) && Possible(ids, limit, s, it)
    requires it.failure.None? ==> GreatestComesLast(it.rows)
    ensures Reached(ids, limit, Step(ids, limit, s, it), k + if it.failure.None? then 1 else 0)
  {
    if it.failure.None? {
      ReachedBy(ids, limit, s.cursor, it.rows, k);
    }
  }

  lemma EndCounts(ids: seq<Id>, limit: nat, k: nat)
    requires EndsCount(ids, limit, k) && EndAfter(|ids|, limit, k) > 0
    ensures ids[EndAfter(|ids|, limit, k) - 1].lastTxLT != 0
  {
    assert k >= 1;
  }

  lemma NoBatchAtTheEnd(ids: seq<Id>, limit: nat, cursor: Option<Id>, rows: seq<Id>)
    requires Sorted(ids) && StandsAt(ids, cursor, |ids|) && (ids != [] ==> ids[|ids| - 1].lastTxLT != 0)
    requires Rearranges(rows, MatchStates(ids, cursor, limit))
    ensures rows == []
  {
    BatchFrom(ids, limit, cursor, |ids|);
  }

  /** From the end of a batch that does not end at time 0, the next batch. */
  lemma NextBatch(ids: seq<Id>, limit: nat, cursor: Option<Id>, rows: seq<Id>, k: nat, p: nat)
    requires p == EndAfter(|ids|, limit, k) < |ids| && StandsAt(ids, cursor, p) && (p > 0 ==> ids[p - 1].lastTxLT != 0)
    requires Sorted(ids) && limit >= 1 && Rearranges(rows, MatchStates(ids, cursor, limit)) && GreatestComesLast(rows)
    ensures rows != [] && StandsAt(ids, Some(LastParsed(rows)), EndAfter(|ids|, limit, k + 1))
  {
    BatchEndsAt(ids, limit, cursor, p, rows);
  }

  lemma ReachedBy(ids: seq<Id>, limit: nat, cursor: Option<Id>, rows: seq<Id>, k: nat)
    requires Sorted(ids) && limit >= 1 && EndsCount(ids, limit, k) && StandsAt(ids, cursor, EndAfter(|ids|, limit, k))
    requires Rearranges(rows, MatchStates(ids, cursor, limit)) && GreatestComesLast(rows)
    ensures rows == [] <==> EndAfter(|ids|, limit, k) == |ids|
    ensures rows != [] ==> StandsAt(ids, Some(LastParsed(rows)), EndAfter(|ids|, limit, k + 1))
  {
    if EndAfter(|ids|, limit, k) > 0 {
      EndCounts(ids, limit, k);
    }
    if EndAfter(|ids|, limit, k) < |ids| {
      NextBatch(ids, limit, cursor, rows, k, EndAfter(|ids|, limit, k));
    } else {
      NoBatchAtTheEnd(ids, limit, cursor, rows);
    }
  }

  lemma {:induction false} ReachedAfter(ids: seq<Id>, limit: nat, run: seq<Iteration>)
    requires Sorted(ids) && limit >= 1 && EndsCount(ids, limit, Successes(run)) && Runs(ids, limit, START, run) && InOrder(run)
    ensures Reached(ids, limit, After(ids, limit, START, run), Successes(run))
  {
    if run != [] {
      var init, last := run[..|run| - 1], run[|run| - 1];
      assert forall i :: 0 <= i < |init| ==> init[i] == run[i];
      ReachedAfter(ids, limit, init);
      ReachedNext(ids, limit, After(ids, limit, START, init), last, Successes(init));
    }
  }

  /** The batches it takes to get through: the ids over the limit, rounded up. */
  function Batches(n: nat, limit: nat): nat
    requires limit > 0
  {
    (n + limit - 1) / limit
  }

  lemma {:induction false} EndAfterExactly(n: nat, limit: nat, k: nat)
    requires limit > 0
    ensures EndAfter(n, limit, k) == Min(k * limit, n)
  {
    if k > 0 {
      EndAfterExactly(n, limit, k - 1);
      assert k * limit == (k - 1) * limit + limit;
    }
  }

  lemma BatchesExactly(n: nat, limit: nat, k: nat)
    requires limit > 0
    ensures limit * k >= n <==> k >= Batches(n, limit)
  {
    var b := Batches(n, limit);
    assert n + limit - 1 == limit * b + (n + limit - 1) % limit;
    Times(limit, b, k);
    Times(limit, k + 1, b);
    assert limit * (k + 1) == limit * k + limit;
  }

  lemma ThroughExactly(n: nat, limit: nat, k: nat)
    requires limit > 0
    ensures EndAfter(n, limit, k) == n <==> k >= Batches(n, limit)
  {
    EndAfterExactly(n, limit, k);
    BatchesExactly(n, limit, k);
    assert limit * k == k * limit;
  }

  lemma FinishedAfter(ids: seq<Id>, limit: nat, s: State, k: nat, b: nat)
    requires Reached(ids, limit, s, k)
    requires forall j: nat :: k <= j + 2 && j <= k ==> (EndAfter(|ids|, limit, j) == |ids| <==> j >= b)
    ensures k <= b + 1 && (s.finished <==> k == b + 1)
  {
  }

  /**
   With rows in order, and no batch ending with an id at time 0, the task is finished exactly after as
   many successful iterations as there are batches and one more, however many fail in between.
   */
  lemma FinishesAfterBatches(ids: seq<Id>, limit: nat, run: seq<Iteration>)
    requires Sorted(ids) && limit >= 1 && EndsCount(ids, limit, Successes(run)) && Runs(ids, limit, START, run) && InOrder(run)
    ensures Successes(run) <= Batches(|ids|, limit) + 1
    ensures After(ids, limit, START, run).finished <==> Successes(run) == Batches(|ids|, limit) + 1
  {
    var k, b := Successes(run), Batches(|ids|, limit);
    ReachedAfter(ids, limit, run);
    forall j: nat | k <= j + 2 && j <= k
      ensures EndAfter(|ids|, limit, j) == |ids| <==> j >= b
    {
      ThroughExactly(|ids|, limit, j);
    }
    FinishedAfter(ids, limit, After(ids, limit, START, run), k, b);
  }

  lemma {:induction false} CountDistinct(rows: seq<Id>, id: Id)
    requires DistinctIds(rows)
    ensures Count(rows, id) == if id in rows then 1 else 0
  {
    if rows != [] {
      var init := rows[..|rows| - 1];
      CountDistinct(init, id);
      assert rows == init + [rows[|rows| - 1]];
    }
  }

  ghost predicate NoneFails(run: seq<Iteration>) {
    forall i :: 0 <= i < |run| ==> run[i].failure.None?
  }

  /** The ids up to the cursor are parsed once, and no others. */
  ghost predicate ParsedOnce(ids: seq<Id>, s: State, p: nat) {
    p <= |ids| && forall id :: Count(s.parsed, id) == if id in ids[..p] then 1 else 0
  }

  lemma MatchingEndsCount(ids: seq<Id>, limit: nat, k: nat)
    requires Matching(ids, limit)
    ensures EndsCount(ids, limit, k)
  {
  }

  lemma InOrderBefore(run: seq<Iteration>)
    requires run != [] && NoneFails(run) && InOrder(run)
    ensures NoneFails(run[..|run| - 1]) && InOrder(run[..|run| - 1])
  {
    assert forall i :: 0 <= i < |run| - 1 ==> run[..|run| - 1][i] == run[i];
  }

  lemma {:induction false} InOrderParsesOnce(ids: seq<Id>, limit: nat, run: seq<Iteration>)
    requires Matching(ids, limit) && Runs(ids, limit, START, run) && NoneFails(run) && InOrder(run)
    ensures ParsedOnce(ids, After(ids, limit, START, run), EndAfter(|ids|, limit, Successes(run)))
  {
    if run == [] {
      assert ids[..0] == [];
    } else {
      var init, last := run[..|run| - 1], run[|run| - 1];
      InOrderBefore(run);
      InOrderParsesOnce(ids, limit, init);
      MatchingEndsCount(ids, limit, Successes(init));
      ReachedAfter(ids, limit, init);
      ParsedOnceNext(ids, limit, After(ids, limit, START, init), last, Successes(init));
      assert After(ids, limit, START, run) == Step(ids, limit, After(ids, limit, START, init), last);
      assert Successes(run) == Successes(init) + 1;
    }
  }

  lemma ParsedOnceNext(ids: seq<Id>, limit: nat, s: State, it: Iteration, k: nat)
    requires Matching(ids, limit) && Reached(ids, limit, s, k) && ParsedOnce(ids, s, EndAfter(|ids|, limit, k))
    requires Possible(ids, limit, s, it) && it.failure.None?
    ensures ParsedOnce(ids, Step(ids, limit, s, it), EndAfter(|ids|, limit, k + 1))
  {
    OnceMore(ids, limit, s, it, EndAfter(|ids|, limit, k));
  }

  lemma OnceMore(ids: seq<Id>, limit: nat, s: State, it: Iteration, p: nat)
    requires Matching(ids, limit) && !s.finished && StandsAt(ids, s.cursor, p) && ParsedOnce(ids, s, p)
    requires Possible(ids, limit, s, it) && it.failure.None?
    ensures ParsedOnce(ids, Step(ids, limit, s, it), Min(p + limit, |ids|))
  {
    var e := Min(p + limit, |ids|);
    BatchFrom(ids, limit, s.cursor, p);
    assert it.rows == [] ==> s.parsed + it.rows == s.parsed;
    forall id
      ensures Count(Step(ids, limit, s, it).parsed, id) == if id in ids[..e] then 1 else 0
    {
      OnceEach(ids, s.parsed, it.rows, p, e, id);
    }
  }

  lemma OnceEach(ids: seq<Id>, parsed: seq<Id>, rows: seq<Id>, p: nat, e: nat, id: Id)
    requires Sorted(ids) && p <= e <= |ids| && Rearranges(rows, ids[p..e])
    requires Count(parsed, id) == if id in ids[..p] then 1 else 0
    ensures Count(parsed + rows, id) == if id in ids[..e] then 1 else 0
  {
    assert ids[..e] == ids[..p] + ids[p..e];
    CountOfBoth(parsed, rows, id);
    CountDistinct(rows, id);
    NotInBoth(ids, p, e, id);
  }

  lemma NotInBoth(ids: seq<Id>, p: nat, e: nat, id: Id)
    requires Sorted(ids) && p <= e <= |ids|
    ensures !(id in ids[..p] && id in ids[p..e])
  {
    assert forall i, j :: 0 <= i < p <= j < e ==> ids[i] != ids[j];
  }

  /** Of the ids after the cursor `from`, those that the scan has passed are among the rows parsed `since`. */
  ghost predicate CaughtUp(ids: seq<Id>, from: Option<Id>, s: State, since: seq<Id>) {
    forall id :: id in ids && Beyond(from, id) && (s.finished || !Beyond(s.cursor, id)) ==> id in since
  }

  lemma CaughtUpStep(ids: seq<Id>, limit: nat, from: Option<Id>, s: State, since: seq<Id>, it: Iteration)
    requires Matching(ids, limit) && CaughtUp(ids, from, s, since) && NothingLeftOut(ids, s) && Possible(ids, limit, s, it)
    requires it.failure.None?
    ensures CaughtUp(ids, from, Step(ids, limit, s, it), since + it.rows)
  {
    var batch := MatchStates(ids, s.cursor, limit);
    assert batch != [] ==> batch[0] in it.rows;
    if it.rows == [] {
      BatchExactly(ids, limit, s.cursor);
    } else {
      CursorAdvances(ids, limit, s.cursor, it.rows);
      var next := LastParsed(it.rows);
      forall id | id in ids && Beyond(from, id) && !Before(next, id)
        ensures id in since + it.rows
      {
        assert Beyond(s.cursor, id) ==> id in it.rows;
      }
    }
  }

  lemma {:induction false} CaughtUpSince(ids: seq<Id>, limit: nat, run: seq<Iteration>, i: nat) returns (since: seq<Id>)
    requires Matching(ids, limit) && Runs(ids, limit, START, run) && i <= |run| && NoneFails(run)
    requires !After(ids, limit, START, run[..i]).finished
    ensures After(ids, limit, START, run).parsed == After(ids, limit, START, run[..i]).parsed + since
    ensures CaughtUp(ids, After(ids, limit, START, run[..i]).cursor, After(ids, limit, START, run), since)
    decreases |run|
  {
    if i == |run| {
      assert run[..i] == run;
      since := [];
    } else {
      var init, last := run[..|run| - 1], run[|run| - 1];
      assert init[..i] == run[..i];
      NoneFailsBefore(run);
      since := CaughtUpSince(ids, limit, init, i);
      EveryIdIsParsed(ids, limit, init);
      CaughtUpStep(ids, limit, After(ids, limit, START, run[..i]).cursor, After(ids, limit, START, init), since, last);
      StepParses(ids, limit, After(ids, limit, START, init), last, After(ids, limit, START, run[..i]).parsed, since);
      since := since + last.rows;
    }
  }

  lemma NoneFailsBefore(run: seq<Iteration>)
    requires NoneFails(run) && run != []
    ensures NoneFails(run[..|run| - 1]) && run[|run| - 1].failure.None?
  {
  }

  lemma StepParses(ids: seq<Id>, limit: nat, s: State, it: Iteration, before: seq<Id>, since: seq<Id>)
    requires it.failure.None? && s.parsed == before + since
    ensures Step(ids, limit, s, it).parsed == before + (since + it.rows)
  {
  }

  /** A batch whose cursor falls behind one of its rows is followed by parsing that row again. */
  lemma ParsedAgain(ids: seq<Id>, limit: nat, run: seq<Iteration>, i: nat, id: Id)
    requires Matching(ids, limit) && Runs(ids, limit, START, run) && NoneFails(run) && i < |run|
    requires After(ids, limit, START, run).finished && id in run[i].rows && Before(LastParsed(run[i].rows), id)
    ensures id in ids && Count(After(ids, limit, START, run).parsed, id) >= 2
  {
    var s, s' := After(ids, limit, START, run[..i]), After(ids, limit, START, run[..i + 1]);
    assert run[..i + 1][..i] == run[..i];
    PrefixRuns(ids, limit, run, i + 1);
    EveryIdIsParsed(ids, limit, run[..i]);
    BatchExactly(ids, limit, s.cursor);
    assert s'.parsed == s.parsed + run[i].rows && !s'.finished;
    var since := CaughtUpSince(ids, limit, run, i + 1);
    CountOfBoth(s'.parsed, since, id);
    CountOfBoth(s.parsed, run[i].rows, id);
    CountMember(run[i].rows, id);
    CountMember(since, id);
  }

  lemma {:induction false} PrefixRuns(ids: seq<Id>, limit: nat, run: seq<Iteration>, i: nat)
    requires Runs(ids, limit, START, run) && i <= |run|
    ensures Runs(ids, limit, START, run[..i])
    decreases |run|
  {
    if i == |run| {
      assert run[..i] == run;
    } else {
      assert run[..|run| - 1][..i] == run[..i];
      PrefixRuns(ids, limit, run[..|run| - 1], i);
    }
  }

  lemma PossibleAt(ids: seq<Id>, limit: nat, run: seq<Iteration>, i: nat)
    requires Runs(ids, limit, START, run) && i < |run|
    ensures Possible(ids, limit, After(ids, limit, START, run[..i]), run[i])
  {
    PrefixRuns(ids, limit, run, i + 1);
    assert run[..i + 1][..i] == run[..i];
  }

  /**
   A finished task of which no iteration failed parsed every id exactly once if and only if in each batch
   the rows after the greatest one were smaller in both parts.
   */
  lemma ExactlyOnceExactly(ids: seq<Id>, limit: nat, run: seq<Iteration>)
    requires Matching(ids, limit) && Runs(ids, limit, START, run) && NoneFails(run) && After(ids, limit, START, run).finished
    ensures (forall id :: id in ids ==> Count(After(ids, limit, START, run).parsed, id) == 1) <==> InOrder(run)
  {
    if InOrder(run) {
      InOrderParsesOnce(ids, limit, run);
      ReachedAfter(ids, limit, run);
      assert ids[..|ids|] == ids;
    } else {
      var i :| 0 <= i < |run| && run[i].failure.None? && !GreatestComesLast(run[i].rows);
      PossibleAt(ids, limit, run, i);
      CursorBehindNoneExactly(run[i].rows);
      var id :| id in run[i].rows && Before(LastParsed(run[i].rows), id);
      ParsedAgain(ids, limit, run, i, id);
    }
  }

  // ------------------------------------------------------------------------- how long it takes

  /** The cursor stands at least as far as there were successful iterations. */
  ghost predicate FarEnough(ids: seq<Id>, s: State, k: nat) {
    exists p: nat :: StandsAt(ids, s.cursor, p) && k <= p + if s.finished then 1 else 0
  }

  lemma StandsFarther(ids: seq<Id>, cursor: Option<Id>, p: nat, next: Id) returns (x: nat)
    requires Sorted(ids) && StandsAt(ids, cursor, p) && next in ids && Beyond(cursor, next)
    ensures x > p && StandsAt(ids, Some(next), x)
  {
    var i: nat :| i < |ids| && ids[i] == next;
    assert p > 0 ==> Before(ids[p - 1], ids[i]);
    x := i + 1;
  }

  lemma FartherNext(ids: seq<Id>, limit: nat, s: State, it: Iteration, k: nat)
    requires Matching(ids, limit) && NothingLeftOut(ids, s) && Possible(ids, limit, s, it) && FarEnough(ids, s, k)
    ensures FarEnough(ids, Step(ids, limit, s, it), k + if it.failure.None? then 1 else 0)
  {
    var p: nat :| StandsAt(ids, s.cursor, p) && k <= p;
    var s' := Step(ids, limit, s, it);
    if it.failure.None? && it.rows != [] {
      CursorAdvances(ids, limit, s.cursor, it.rows);
      var x := StandsFarther(ids, s.cursor, p, LastParsed(it.rows));
      assert StandsAt(ids, s'.cursor, x);
    } else {
      assert StandsAt(ids, s'.cursor, p);
    }
  }

  /** Whatever the order of the rows, the task finishes within as many successful iterations as there are ids, and one more. */
  lemma {:induction false} FinishesInAnyOrder(ids: seq<Id>, limit: nat, run: seq<Iteration>)
    requires Matching(ids, limit) && Runs(ids, limit, START, run)
    ensures FarEnough(ids, After(ids, limit, START, run), Successes(run))
    ensures Successes(run) <= |ids| + 1 && (Successes(run) == |ids| + 1 ==> After(ids, limit, START, run).finished)
  {
    if run == [] {
      assert StandsAt(ids, None, 0);
    } else {
      var init := run[..|run| - 1];
      FinishesInAnyOrder(ids, limit, init);
      EveryIdIsParsed(ids, limit, init);
      FartherNext(ids, limit, After(ids, limit, START, init), run[|run| - 1], Successes(init));
    }
  }

  // ------------------------------------------------------------------------- ids at time 0

  /** The first batch that ends with an id at time 0. */
  ghost predicate FirstLost(ids: seq<Id>, limit: nat, j: nat) {
    && j >= 1 && EndAfter(|ids|, limit, j) > 0 && ids[EndAfter(|ids|, limit, j) - 1].lastTxLT == 0
    && EndsCount(ids, limit, j - 1)
  }

  lemma {:induction false} FindFirstLost(ids: seq<Id>, limit: nat, k: nat) returns (j: nat)
    requires !EndsCount(ids, limit, k)
    ensures j <= k && FirstLost(ids, limit, j)
  {
    if EndsCount(ids, limit, k - 1) {
      j := k;
    } else {
      j := FindFirstLost(ids, limit, k - 1);
    }
  }

  ghost predicate GoesRound(ids: seq<Id>, limit: nat, s: State, j: nat) {
    !s.finished && exists i: nat :: i <= j && StandsAt(ids, s.cursor, EndAfter(|ids|, limit, i))
  }

  lemma GoesRoundNext(ids: seq<Id>, limit: nat, s: State, it: Iteration, j: nat)
    requires Sorted(ids) && limit >= 1 && FirstLost(ids, limit, j) && GoesRound(ids, limit, s, j) && Possible(ids, limit, s, it)
    requires it.failure.None? ==> GreatestComesLast(it.rows)
    ensures GoesRound(ids, limit, Step(ids, limit, s, it), j)
  {
    if it.failure.None? {
      var i: nat :| i <= j && StandsAt(ids, s.cursor, EndAfter(|ids|, limit, i));
      var p := EndAfter(|ids|, limit, i);
      if !(p > 0 && ids[p - 1].lastTxLT == 0) {
        NotThrough(ids, limit, i, j);
      }
      var next := NextEnd(ids, limit, s.cursor, it.rows, i, p);
      assert StandsAt(ids, Some(LastParsed(it.rows)), EndAfter(|ids|, limit, next));
    }
  }

  lemma LostCursor(ids: seq<Id>, limit: nat, cursor: Id)
    requires cursor.lastTxLT == 0
    ensures MatchStates(ids, Some(cursor), limit) == MatchStates(ids, None, limit)
  {
  }

  lemma StartsOver(ids: seq<Id>, limit: nat, cursor: Id, rows: seq<Id>)
    requires Sorted(ids) && limit >= 1 && ids != [] && cursor.lastTxLT == 0
    requires Rearranges(rows, MatchStates(ids, Some(cursor), limit)) && GreatestComesLast(rows)
    ensures rows != [] && StandsAt(ids, Some(LastParsed(rows)), EndAfter(|ids|, limit, 1))
  {
    LostCursor(ids, limit, cursor);
    assert EndAfter(|ids|, limit, 0) == 0;
    NextBatch(ids, limit, None, rows, 0, 0);
  }

  lemma NextEnd(ids: seq<Id>, limit: nat, cursor: Option<Id>, rows: seq<Id>, i: nat, p: nat) returns (next: nat)
    requires Sorted(ids) && limit >= 1 && p == EndAfter(|ids|, limit, i) && StandsAt(ids, cursor, p)
    requires p < |ids| || (p > 0 && ids[p - 1].lastTxLT == 0)
    requires Rearranges(rows, MatchStates(ids, cursor, limit)) && GreatestComesLast(rows)
    ensures next == if p > 0 && ids[p - 1].lastTxLT == 0 then 1 else i + 1
    ensures rows != [] && StandsAt(ids, Some(LastParsed(rows)), EndAfter(|ids|, limit, next))
  {
    if p > 0 && ids[p - 1].lastTxLT == 0 {
      next := 1;
      StartsOver(ids, limit, cursor.value, rows);
    } else {
      next := i + 1;
      NextBatch(ids, limit, cursor, rows, i, p);
    }
  }

  /** Before the first lost batch end there is more to come. */
  lemma NotThrough(ids: seq<Id>, limit: nat, i: nat, j: nat)
    requires FirstLost(ids, limit, j) && i <= j
    requires EndAfter(|ids|, limit, i) > 0 ==> ids[EndAfter(|ids|, limit, i) - 1].lastTxLT != 0
    ensures i < j && EndAfter(|ids|, limit, i) < |ids|
  {
    EndsRise(|ids|, limit, i, j);
  }

  lemma {:induction false} EndsRise(n: nat, limit: nat, i: nat, j: nat)
    requires i <= j
    ensures EndAfter(n, limit, i) <= EndAfter(n, limit, j)
    decreases j
  {
    if i < j {
      EndsRise(n, limit, i, j - 1);
    }
  }

  lemma {:induction false} GoesRoundForever(ids: seq<Id>, limit: nat, run: seq<Iteration>, j: nat)
    requires Sorted(ids) && limit >= 1 && FirstLost(ids, limit, j) && Runs(ids, limit, START, run) && InOrder(run)
    ensures GoesRound(ids, limit, After(ids, limit, START, run), j)
  {
    if run == [] {
      assert StandsAt(ids, None, EndAfter(|ids|, limit, 0));
    } else {
      var init, last := run[..|run| - 1], run[|run| - 1];
      assert forall i :: 0 <= i < |init| ==> init[i] == run[i];
      GoesRoundForever(ids, limit, init, j);
      GoesRoundNext(ids, limit, After(ids, limit, START, init), last, j);
    }
  }

  /**
   Ids at time 0 allowed, rows in order: given enough successful iterations, a task is finished if and
   only if no batch ends with an id at time 0; otherwise it goes round for ever.
   */
  lemma FinishesExactly(ids: seq<Id>, limit: nat, run: seq<Iteration>)
    requires Sorted(ids) && limit >= 1 && Runs(ids, limit, START, run) && InOrder(run)
    requires Successes(run) > Batches(|ids|, limit)
    ensures After(ids, limit, START, run).finished <==> EndsCount(ids, limit, Batches(|ids|, limit))
  {
    var k, b := Successes(run), Batches(|ids|, limit);
    if EndsCount(ids, limit, b) {
      EndsCountOn(ids, limit, b, k);
      FinishesAfterBatches(ids, limit, run);
    } else {
      var j := FindFirstLost(ids, limit, b);
      GoesRoundForever(ids, limit, run, j);
    }
  }

  /** After the last batch every end is the same. */
  lemma EndsCountOn(ids: seq<Id>, limit: nat, b: nat, k: nat)
    requires limit > 0 && b == Batches(|ids|, limit) && EndsCount(ids, limit, b) && k >= b
    ensures EndsCount(ids, limit, k)
  {
    forall j: nat | b < j <= k
      ensures EndAfter(|ids|, limit, j) == EndAfter(|ids|, limit, b)
    {
      ThroughExactly(|ids|, limit, b);
      EndsRise(|ids|, limit, b, j);
    }
    if b == 0 {
      ThroughExactly(|ids|, limit, 0);
    }
  }

  /** A single account whose state is at time 0 keeps the task going for ever. */
  lemma OneIdAtTimeZero()
    ensures !EndsCount([Id(7, 0)], 1, Batches(1, 1)) && Sorted([Id(7, 0)])
  {
    var ids := [Id(7, 0)];
    assert EndAfter(|ids|, 1, 0) == 0;
    assert EndAfter(|ids|, 1, 1) == 1 && ids[EndAfter(|ids|, 1, 1) - 1].lastTxLT == 0;
  }
}
