/** Whose states the cache holds in a run of calls, and in which order a get touches states. */
module MinterRecency {
  import opened AccountStates
  import opened LruSpec
  import opened MinterSpec
  import opened RecentExact
  import opened RecentRuns
  import opened RecentStates
  import opened Wrappers

  // ------------------------------------------------------------------------- addresses

  /** The addresses as they stand after one is touched, or put in front of the others. */
  ghost function Touched(capacity: int, c: Minters, a: Address): seq<Address>
    requires capacity != 0
  {
    Keys(Put(capacity, c, a, []))
  }

  lemma TouchHeld(capacity: int, c: Minters, a: Address, e: Entry<Address, States>)
    requires capacity != 0 && Has(c, a) && e.key == a
    ensures Keys([e] + Drop(c, Position(c, a))) == Touched(capacity, c, a)
  {
    KeysMoved(c, e, Position(c, a));
    KeysMoved(c, Entry(a, []), Position(c, a));
  }

  lemma GetTouches(capacity: int, c: Minters, a: Address, q: nat)
    requires capacity != 0
    ensures Keys(GetState(c, a, q).0) == if Has(c, a) then Touched(capacity, c, a) else Keys(c)
  {
    if Has(c, a) {
      TouchHeld(capacity, c, a, Entry(a, ScanDown(c[Position(c, a)].data, q).states));
    }
  }

  lemma PutTouches(capacity: int, c: Minters, a: Address, state: AccountState, nextTxLT: nat)
    requires capacity != 0
    ensures Keys(PutState(capacity, c, a, state, nextTxLT)) == Touched(capacity, c, a)
  {
    if Has(c, a) {
      TouchHeld(capacity, c, a, PutState(capacity, c, a, state, nextTxLT)[0]);
    } else {
      assert forall v, w :: Keys(Put(capacity, c, a, v)) == Keys(Put(capacity, c, a, w));
    }
  }

  /** Touching the address in front changes nothing. */
  lemma TouchFirst(capacity: int, c: Minters, a: Address)
    requires capacity != 0 && DistinctKeys(c) && c != [] && c[0].key == a
    ensures Has(c, a) && Touched(capacity, c, a) == Keys(c)
  {
    assert Position(c, a) == 0;
    KeysMoved(c, Entry(a, []), 0);
  }

  lemma {:induction false} RefillTouches(capacity: int, c: Minters, a: Address, states: History, i: nat)
    requires capacity != 0 && DistinctKeys(c) && 1 <= i <= |states|
    ensures Keys(Refill(capacity, c, a, states, i)) == Touched(capacity, c, a)
  {
    var before := Refill(capacity, c, a, states, i - 1);
    PutTouches(capacity, before, a, states[i - 1], NextTxLT(states, i - 1));
    if i > 1 {
      RefillTouches(capacity, c, a, states, i - 1);
      RefillShape(capacity, c, a, states, i - 1);
      TouchFirst(capacity, before, a);
    }
  }

  /** A fill and the get that follows it touch the address. */
  lemma FillTouches(capacity: int, c: Minters, a: Address, states: History, q: nat)
    requires capacity != 0 && DistinctKeys(c) && states != []
    ensures Keys(GetState(Refill(capacity, c, a, states, |states|), a, q).0) == Touched(capacity, c, a)
  {
    var r := Refill(capacity, c, a, states, |states|);
    RefillTouches(capacity, c, a, states, |states|);
    RefillShape(capacity, c, a, states, |states|);
    TouchFirst(capacity, r, a);
    GetTouches(capacity, r, a, q);
  }

  lemma MissTouches(capacity: int, c: Minters, h: History, a: Address, q: nat)
    requires capacity != 0 && DistinctKeys(c) && Ordered(h)
    ensures Keys(AfterMiss(capacity, c, h, a, q).0) == if ChangeRows(h) == [] then Keys(c) else Touched(capacity, c, a)
  {
    if ChangeRows(h) != [] {
      var lo, hi := LoadedExactly(h, q);
      FillTouches(capacity, c, a, Select(h, ChangeTimes(h)[lo..hi]), q);
    }
  }

  /** A call for an address that has changes touches it; any other call leaves the addresses alone. */
  lemma CallTouches(capacity: int, c: Minters, h: History, a: Address, q: nat)
    requires capacity != 0 && DistinctKeys(c) && Ordered(h) && (Has(c, a) ==> ChangeRows(h) != [])
    ensures Keys(RecentState(capacity, c, h, a, q).0) == if ChangeRows(h) == [] then Keys(c) else Touched(capacity, c, a)
  {
    GetTouches(capacity, c, a, q);
    var c' := GetState(c, a, q).0;
    if GetState(c, a, q).1.None? {
      if Has(c, a) {
        GetStateShape(c, a, q);
        TouchFirst(capacity, c', a);
      }
      MissTouches(capacity, c', h, a, q);
    }
  }

  /** The addresses called, of those that have changes. */
  function CalledFor(db: Address -> History, calls: seq<Call>): seq<Address> {
    if calls == [] then []
    else
      var a := calls[|calls| - 1].a;
      CalledFor(db, calls[..|calls| - 1]) + if ChangeRows(db(a)) == [] then [] else [a]
  }

  lemma HeldHasChanges(c: Minters, db: Address -> History, a: Address)
    requires AllStretches(c, db) && Has(c, a)
    ensures ChangeRows(db(a)) != []
  {
    assert c[Position(c, a)] in c;
    var lo: nat, hi: nat :| HoldsStretch(db(a), ChangeTimes(db(a)), c[Position(c, a)].data, lo, hi);
  }

  lemma OneCallMore(capacity: int, c: Minters, db: Address -> History, called: seq<Address>, call: Call)
    requires capacity >= 1 && Ordered(db(call.a)) && AllStretches(c, db) && Keys(c) == Take(Recency(called), capacity)
    ensures Keys(RecentState(capacity, c, db(call.a), call.a, call.lastLT).0)
         == Take(Recency(called + if ChangeRows(db(call.a)) == [] then [] else [call.a]), capacity)
  {
    if Has(c, call.a) {
      HeldHasChanges(c, db, call.a);
    }
    CallTouches(capacity, c, db(call.a), call.a, call.lastLT);
    OneTouch(capacity, c, called, PutOp(call.a, []));
    assert called + [] == called;
  }

  /** In every run the addresses held are those called last, most recent first, as many as fit. */
  lemma {:induction false} HoldsLastCalled(capacity: int, db: Address -> History, calls: seq<Call>)
    requires capacity >= 1 && forall a :: Ordered(db(a))
    ensures Keys(After(capacity, db, calls)) == Take(Recency(CalledFor(db, calls)), capacity)
  {
    if calls != [] {
      var init, last := calls[..|calls| - 1], calls[|calls| - 1];
      HoldsLastCalled(capacity, db, init);
      RunsHoldStretches(capacity, db, init);
      OneCallMore(capacity, After(capacity, db, init), db, CalledFor(db, init), last);
    }
  }

  // ------------------------------------------------------------------------- states

  /** The states after a number of gets, in order. */
  ghost function GetAll(c: States, ks: seq<nat>): States
    decreases |ks|
  {
    if ks == [] then c else GetAll(Get(c, ks[0]), ks[1..])
  }

  /** `ks` are the keys among `lts` from `from` up to `q`, latest first. */
  ghost predicate Between(lts: seq<nat>, from: nat, q: nat, ks: seq<nat>) {
    Descending(ks) && forall k: nat :: k in ks <==> k in lts && from <= k <= q
  }

  /** The answer is of the state at `from`; without an answer, `from` is 0. */
  ghost predicate FoundAt(c: States, lts: seq<nat>, i: nat, q: nat, found: Option<AccountState>, from: nat) {
    match found
    case Some(acc) => exists e :: FirstCovering(c, lts, i, q, e) && e.data.acc == acc && e.key == from
    case None => from == 0
  }

  lemma BetweenSkipped(rest: seq<nat>, k: nat, from: nat, q: nat, ks: seq<nat>)
    requires Descending([k] + rest) && Between(rest, from, q, ks)
    ensures k > q ==> Between([k] + rest, from, q, ks)
    ensures from <= k <= q ==> Between([k] + rest, from, q, [k] + ks)
  {
    var lts, more := [k] + rest, [k] + ks;
    assert forall x :: x in lts <==> x == k || x in rest;
    assert forall x :: x in more <==> x == k || x in ks;
    forall x | x in rest
      ensures k > x
    {
      var j: nat :| j < |rest| && rest[j] == x;
      assert lts[j + 1] == x && lts[0] == k;
    }
    if from <= k <= q {
      assert forall j :: 1 <= j < |more| ==> more[j] == ks[j - 1] && ks[j - 1] in ks;
    }
  }

  lemma FoundLater(c: States, d: States, lts: seq<nat>, i: nat, q: nat, e: Entry<nat, MinterState>, found: Option<AccountState>, from: nat)
    requires DistinctKeys(c) && (forall x :: x in d <==> x in c) && i < |lts| && Descending(lts)
    requires e in c && e.key == lts[i] && !InEffect(e, q) && FoundAt(d, lts, i + 1, q, found, from)
    ensures FoundAt(c, lts, i, q, found, from) && from <= lts[i]
  {
    NotTheFirst(c, d, lts, i, q, e);
    if found.Some? {
      var f :| FirstCovering(d, lts, i + 1, q, f) && f.data.acc == found.value && f.key == from;
      assert FirstCovering(c, lts, i, q, f);
      var j: nat :| j < |lts[i + 1..]| && lts[i + 1..][j] == f.key;
      assert lts[i] > lts[i + 1 + j];
    }
  }

  lemma OnlyTheFirst(lts: seq<nat>, i: nat, q: nat)
    requires Descending(lts) && i < |lts| && lts[i] <= q
    ensures Between(lts[i..], lts[i], q, [lts[i]])
  {
    assert lts[i..][0] == lts[i];
    assert forall j :: i < j < |lts| ==> lts[j] < lts[i];
  }

  /** Scanning from the `i`th key on touches `ks`, which are from the key that answers, or all, up to `q`. */
  ghost predicate Touches(c: States, lts: seq<nat>, i: nat, q: nat, ks: seq<nat>, from: nat)
    requires i <= |lts|
  {
    && Scan(c, lts, i, q).states == GetAll(c, ks) && Between(lts[i..], from, q, ks)
    && FoundAt(c, lts, i, q, Scan(c, lts, i, q).found, from)
  }

  lemma TouchAnswer(c: States, lts: seq<nat>, i: nat, q: nat)
    requires Scannable(c, lts) && Descending(lts) && i < |lts|
    requires lts[i] <= q && Covers(lts[i], c[Position(c, lts[i])].data, q)
    ensures Touches(c, lts, i, q, [lts[i]], lts[i])
  {
    FirstIsLatest(c, lts, i, q, c[Position(c, lts[i])]);
    OnlyTheFirst(lts, i, q);
    assert GetAll(c, [lts[i]]) == Get(c, lts[i]);
  }

  lemma SplitAt(lts: seq<nat>, i: nat)
    requires i < |lts| && Descending(lts)
    ensures lts[i..] == [lts[i]] + lts[i + 1..] && Descending([lts[i]] + lts[i + 1..])
  {
    assert lts[i..] == [lts[i]] + lts[i + 1..];
  }

  lemma TouchOneMore(c: States, lts: seq<nat>, i: nat, q: nat, ks: seq<nat>, from: nat)
    requires Scannable(c, lts) && Descending(lts) && i < |lts|
    requires !Covers(lts[i], c[Position(c, lts[i])].data, q)
    requires Touches(if lts[i] > q then c else Get(c, lts[i]), lts, i + 1, q, ks, from)
    ensures Touches(c, lts, i, q, if lts[i] > q then ks else [lts[i]] + ks, from)
  {
    var k, d := lts[i], if lts[i] > q then c else Get(c, lts[i]);
    SplitAt(lts, i);
    GetKeeps(c, k);
    FoundLater(c, d, lts, i, q, c[Position(c, k)], Scan(d, lts, i + 1, q).found, from);
    BetweenSkipped(lts[i + 1..], k, from, q, ks);
  }

  lemma {:induction false} ScanTouches(c: States, lts: seq<nat>, i: nat, q: nat) returns (ks: seq<nat>, from: nat)
    requires Scannable(c, lts) && Descending(lts) && i <= |lts|
    ensures Touches(c, lts, i, q, ks, from)
    decreases |lts| - i
  {
    if i == |lts| {
      ks, from := [], 0;
    } else if lts[i] <= q && Covers(lts[i], c[Position(c, lts[i])].data, q) {
      TouchAnswer(c, lts, i, q);
      ks, from := [lts[i]], lts[i];
    } else {
      GetKeeps(c, lts[i]);
      ks, from := ScanTouches(if lts[i] > q then c else Get(c, lts[i]), lts, i + 1, q);
      TouchOneMore(c, lts, i, q, ks, from);
      ks := if lts[i] > q then ks else [lts[i]] + ks;
    }
  }

  /** The answer is the latest held state in effect, which took effect at `from`; without one, `from` is 0. */
  ghost predicate AnswersFrom(held: States, q: nat, found: Option<AccountState>, from: nat) {
    match found
    case Some(acc) => exists i: nat :: LatestCovering(held, q, i) && held[i].data.acc == acc && held[i].key == from
    case None => from == 0
  }

  lemma FoundAmongHeld(held: States, lts: seq<nat>, q: nat, found: Option<AccountState>, from: nat)
    requires FoundAt(held, lts, 0, q, found, from) && forall i :: 0 <= i < |held| ==> held[i].key in lts
    ensures AnswersFrom(held, q, found, from)
  {
    assert lts[0..] == lts;
    if found.Some? {
      var e :| FirstCovering(held, lts, 0, q, e) && e.data.acc == found.value && e.key == from;
      var i: nat :| i < |held| && held[i] == e;
      assert forall j :: 0 <= j < |held| ==> held[j] in held;
      assert LatestCovering(held, q, i);
    }
  }

  /**
   A get touches exactly the states from the one that answers, or from the first if none does, up to the
   time asked for, latest first.
   */
  lemma ScanDownTouches(held: States, q: nat) returns (ks: seq<nat>, from: nat)
    requires DistinctKeys(held)
    ensures ScanDown(held, q).states == GetAll(held, ks) && AnswersFrom(held, q, ScanDown(held, q).found, from)
    ensures Descending(ks) && forall k: nat :: k in ks <==> Has(held, k) && from <= k <= q
  {
    var lts := KeysDown(held);
    KeysAreDistinct(held);
    ks, from := ScanTouches(held, lts, 0, q);
    assert lts[0..] == lts;
    FoundAmongHeld(held, lts, q, ScanDown(held, q).found, from);
  }
}
