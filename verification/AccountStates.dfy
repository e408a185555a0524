/** The change log of an account's code and data, and the window of it that is loaded. */
module AccountStates {
  import opened MinterSpec
  import opened Wrappers

  /** The recorded states of one account, in order. */
  type History = seq<AccountState>

  ghost predicate Ordered(h: History) {
    forall i, j :: 0 <= i < j < |h| ==> h[i].lastTxLT < h[j].lastTxLT
  }

  predicate Differ(s: AccountState, t: AccountState) {
    s.code != t.code || s.data != t.data
  }

  /** The states with code and data, which are all the log looks at. */
  function Present(h: History): (p: History) {
    if h == [] then []
    else if h[0].code != Empty && h[0].data != Empty then [h[0]] + Present(h[1..])
    else Present(h[1..])
  }

  lemma {:induction false} PresentExactly(h: History, s: AccountState)
    ensures s in Present(h) <==> s in h && s.code != Empty && s.data != Empty
  {
    if h != [] {
      assert h == [h[0]] + h[1..];
      PresentExactly(h[1..], s);
    }
  }

  lemma {:induction false} PresentOrdered(h: History)
    requires Ordered(h)
    ensures Ordered(Present(h))
  {
    if h != [] {
      var p := Present(h[1..]);
      PresentOrdered(h[1..]);
      forall i | 0 <= i < |p|
        ensures h[0].lastTxLT < p[i].lastTxLT
      {
        PresentExactly(h[1..], p[i]);
      }
    }
  }

  datatype Change = Change(lt: nat, code: Hash, data: Hash)

  function ChangeTo(s: AccountState): Change {
    Change(s.lastTxLT, s.code, s.data)
  }

  /** The rows where the next state differs, as that next state; and the last state, which has no next one. */
  function Diffs(p: History): seq<Change> {
    if p == [] then []
    else if |p| == 1 then [ChangeTo(p[0])]
    else (if Differ(p[0], p[1]) then [ChangeTo(p[1])] else []) + Diffs(p[1..])
  }

  /** What the query of the log returns: the first state, then the differences. */
  function ChangeRows(h: History): seq<Change> {
    var p := Present(h);
    if p == [] then [] else [ChangeTo(p[0])] + Diffs(p)
  }

  /** Drops the rows that repeat the code and data of the last one kept. */
  function Dedup(rows: seq<Change>, last: Option<Change>): seq<nat> {
    if rows == [] then []
    else if last.Some? && rows[0].code == last.value.code && rows[0].data == last.value.data then Dedup(rows[1..], last)
    else [rows[0].lt] + Dedup(rows[1..], Some(rows[0]))
  }

  method Deduplicate(rows: seq<Change>) returns (lts: seq<nat>)
    ensures lts == Dedup(rows, None)
  {
    lts := [];
    var last := None;
    var it := 0;
    while it < |rows|
      invariant it <= |rows|
      invariant lts + Dedup(rows[it..], last) == Dedup(rows, None)
    {
      var row := rows[it];
      assert rows[it..][0] == row && rows[it..][1..] == rows[it + 1..];
      it := it + 1;
      if last.Some? && row.code == last.value.code && row.data == last.value.data {
        continue;
      }
      last := Some(row);
      lts := lts + [row.lt];
    }
  }

  // ------------------------------------------------------------------------- what the log lists

  /** The times at which code or data changed. */
  function ChangeTimes(h: History): seq<nat> {
    Dedup(ChangeRows(h), None)
  }

  ghost predicate Rising(lts: seq<nat>) {
    forall i, j :: 0 <= i < j < |lts| ==> lts[i] < lts[j]
  }

  /** The times after the first at which code or data changed. */
  function LaterChanges(p: History): seq<nat> {
    if |p| <= 1 then []
    else (if Differ(p[0], p[1]) then [p[1].lastTxLT] else []) + LaterChanges(p[1..])
  }

  lemma {:induction false} DedupDiffs(p: History, last: Change)
    requires p != [] && last.code == p[0].code && last.data == p[0].data
    ensures Dedup(Diffs(p), Some(last)) == LaterChanges(p)
  {
    if |p| > 1 {
      if Differ(p[0], p[1]) {
        assert Diffs(p)[0] == ChangeTo(p[1]) && Diffs(p)[1..] == Diffs(p[1..]);
        DedupDiffs(p[1..], ChangeTo(p[1]));
      } else {
        assert Diffs(p) == Diffs(p[1..]);
        DedupDiffs(p[1..], last);
        assert LaterChanges(p) == LaterChanges(p[1..]);
      }
    }
  }

  /** The state at `i` took effect at `t`, and differs from the one before. */
  ghost predicate ChangesAt(p: History, i: nat, t: nat) {
    i < |p| && p[i].lastTxLT == t && (i == 0 || Differ(p[i - 1], p[i]))
  }

  lemma {:induction false} LaterChangesRise(p: History)
    requires Ordered(p) && p != []
    ensures Rising(LaterChanges(p))
    ensures forall i :: 0 <= i < |LaterChanges(p)| ==> p[0].lastTxLT < LaterChanges(p)[i]
  {
    if |p| > 1 {
      LaterChangesRise(p[1..]);
    }
  }

  lemma {:induction false} LaterChangesAt(p: History, t: nat)
    ensures t in LaterChanges(p) <==> exists i: nat :: i > 0 && ChangesAt(p, i, t)
  {
    if |p| > 1 {
      LaterChangesAt(p[1..], t);
      if i: nat :| i > 0 && ChangesAt(p, i, t) {
        assert i == 1 || ChangesAt(p[1..], i - 1, t);
      }
      if i: nat :| i > 0 && ChangesAt(p[1..], i, t) {
        assert ChangesAt(p, i + 1, t);
      }
      assert Differ(p[0], p[1]) ==> ChangesAt(p, 1, p[1].lastTxLT);
    }
  }

  lemma ChangeTimesSplit(h: History)
    ensures Present(h) == [] ==> ChangeTimes(h) == []
    ensures Present(h) != [] ==> ChangeTimes(h) == [Present(h)[0].lastTxLT] + LaterChanges(Present(h))
  {
    var p := Present(h);
    if p != [] {
      DedupDiffs(p, ChangeTo(p[0]));
      assert ChangeRows(h)[1..] == Diffs(p);
    }
  }

  /**
   The log lists, each once and in order, exactly the first state with code and data and the states
   that differ from the one before.
   */
  lemma ChangesExactly(h: History)
    requires Ordered(h)
    ensures Rising(ChangeTimes(h))
    ensures forall t: nat :: t in ChangeTimes(h) <==> exists i: nat :: ChangesAt(Present(h), i, t)
  {
    var p := Present(h);
    PresentOrdered(h);
    ChangeTimesSplit(h);
    if p != [] {
      LaterChangesRise(p);
    }
    forall t: nat
      ensures t in ChangeTimes(h) <==> exists i: nat :: ChangesAt(p, i, t)
    {
      LaterChangesAt(p, t);
      assert p != [] ==> (t in ChangeTimes(h) <==> t == p[0].lastTxLT || t in LaterChanges(p));
      assert p != [] ==> ChangesAt(p, 0, p[0].lastTxLT);
    }
  }

  // ------------------------------------------------------------------------- the latest change

  /** `lts[m]` is the latest time at or before `q`. */
  ghost predicate IsLatest(lts: seq<nat>, m: nat, q: nat) {
    m < |lts| && lts[m] <= q && (m + 1 < |lts| ==> q < lts[m + 1])
  }

  /** The latest state with code and data at or before `q`. */
  ghost predicate IsCurrent(h: History, s: AccountState, q: nat) {
    var p := Present(h);
    s in p && s.lastTxLT <= q && forall t :: t in p && t.lastTxLT <= q ==> t.lastTxLT <= s.lastTxLT
  }

  lemma {:induction false} LatestExists(lts: seq<nat>, q: nat) returns (m: nat)
    requires Rising(lts) && lts != [] && lts[0] <= q
    ensures IsLatest(lts, m, q)
  {
    if |lts| == 1 || q < lts[1] {
      m := 0;
    } else {
      m := LatestExists(lts[1..], q);
      m := m + 1;
    }
  }

  /** Between changes nothing changes: code and data at any time are those of the latest change. */
  lemma LatestChangeIsCurrent(h: History, m: nat, q: nat, change: AccountState, current: AccountState)
    requires Ordered(h) && IsLatest(ChangeTimes(h), m, q)
    requires change in h && change.lastTxLT == ChangeTimes(h)[m]
    requires IsCurrent(h, current, q)
    ensures change.code == current.code && change.data == current.data
  {
    var p, lts := Present(h), ChangeTimes(h);
    ChangesExactly(h);
    PresentOrdered(h);
    assert lts[m] in lts;
    var i: nat :| ChangesAt(p, i, lts[m]);
    PresentExactly(h, p[i]);
    assert p[i] == change by {
      var x: nat, y: nat :| x < |h| && h[x] == change && y < |h| && h[y] == p[i];
    }
    var j: nat :| j < |p| && p[j] == current;
    SameUntil(p, i, j, lts, m, q);
  }

  lemma {:induction false} SameUntil(p: History, i: nat, j: nat, lts: seq<nat>, m: nat, q: nat)
    requires Rising(lts) && IsLatest(lts, m, q)
    requires Ordered(p) && i <= j < |p| && p[j].lastTxLT <= q && p[i].lastTxLT == lts[m]
    requires forall t: nat :: (exists k: nat :: ChangesAt(p, k, t)) ==> t in lts
    ensures p[i].code == p[j].code && p[i].data == p[j].data
    decreases j
  {
    if i < j {
      SameUntil(p, i, j - 1, lts, m, q);
      assert forall k :: 0 <= k < |lts| ==> lts[k] <= lts[m] || (m + 1 < |lts| && lts[k] >= lts[m + 1]);
      assert p[j].lastTxLT !in lts;
      assert Differ(p[j - 1], p[j]) ==> ChangesAt(p, j, p[j].lastTxLT);
    }
  }

  // ------------------------------------------------------------------------- the window

  /** The index of the first time at or after `q`, or the length. */
  function FirstAtLeast(lts: seq<nat>, q: nat): (f: nat)
    ensures f <= |lts| && (f < |lts| ==> lts[f] >= q)
    ensures forall i :: 0 <= i < f ==> lts[i] < q
  {
    if lts == [] then 0 else if lts[0] >= q then 0 else 1 + FirstAtLeast(lts[1..], q)
  }

  /** Where the window starts and ends. */
  function Bounds(lts: seq<nat>, q: nat, limit: nat): (b: (nat, nat))
    ensures b.0 <= b.1 <= |lts|
  {
    var f := FirstAtLeast(lts, q);
    if |lts| <= limit then (0, |lts|)
    else if f == |lts| then (|lts| - limit, |lts|)
    else if f == |lts| - 1 then (0, |lts|)
    else if f + 1 > limit then (f + 1 - limit, f + 1)
    else (0, limit)
  }

  method Window(lts: seq<nat>, beforeTxLT: nat, limit: nat) returns (window: seq<nat>)
    ensures var (lo, hi) := Bounds(lts, beforeTxLT, limit); window == lts[lo..hi]
  {
    window := lts;
    if |lts| > limit {
      var found := false;
      var it := 0;
      while it < |lts|
        invariant it <= |lts| && window == lts
        invariant if found then it == FirstAtLeast(lts, beforeTxLT) + 1 else it <= FirstAtLeast(lts, beforeTxLT)
      {
        if !found {
          found := lts[it] >= beforeTxLT;
          it := it + 1;
          continue;
        }
        if it > limit {
          window := lts[it - limit..it];
        } else {
          window := lts[0..limit];
        }
        break;
      }
      if !found {
        window := lts[|lts| - limit..];
      }
    }
  }

  /**
   With a limit of at least two, the window reaches the latest change at or before the time asked
   for; when the window is not cut, that change is among its last two.
   */
  lemma WindowReaches(lts: seq<nat>, q: nat, limit: nat, m: nat)
    requires Rising(lts) && limit >= 2 && IsLatest(lts, m, q)
    ensures var (lo, hi) := Bounds(lts, q, limit);
            lo <= m < hi && hi - m <= limit
  {
    var f := FirstAtLeast(lts, q);
    assert f == |lts| || lts[f] > q ==> f == m + 1;
    assert f < |lts| && lts[f] == q ==> f == m;
  }

  /** The first time at or after `q` is the `f`th; there is none if `f` is the length. */
  ghost predicate IsFirstAtLeast(lts: seq<nat>, q: nat, f: nat) {
    f <= |lts| && (f < |lts| ==> lts[f] >= q) && (f > 0 ==> lts[f - 1] < q)
  }

  /**
   More times than the limit are cut to exactly the limit: to the last ones if all are before `q`, else to
   those up to the first at or after `q`, or to the first ones if these are too few.  They are not cut at
   all if only the very last one is at or after `q`.
   */
  lemma WindowExactly(lts: seq<nat>, q: nat, limit: nat, f: nat)
    requires Rising(lts) && IsFirstAtLeast(lts, q, f)
    ensures var (lo, hi) := Bounds(lts, q, limit);
            if |lts| <= limit || f == |lts| - 1 then lo == 0 && hi == |lts|
            else
              && hi - lo == limit
              && (f == |lts| ==> hi == |lts|)
              && (f < |lts| && f >= limit ==> hi == f + 1)
              && (f < |lts| && f < limit ==> lo == 0)
  {
    assert forall i :: 0 <= i < f ==> lts[i] <= lts[f - 1];
  }
}
