/** When the answer with an account's recent state is exact. */
module RecentExact {
  import opened AccountStates
  import opened LruSpec
  import opened MinterSpec
  import opened RecentStates
  import opened Wrappers

  ghost predicate HasTime(h: History, t: nat) {
    exists s :: s in h && s.lastTxLT == t
  }

  /** `lts` are the times of some of the states of `h`, in order. */
  ghost predicate Logged(h: History, lts: seq<nat>) {
    Ordered(h) && Rising(lts) && forall i :: 0 <= i < |lts| ==> HasTime(h, lts[i])
  }

  lemma ChangeTimesLogged(h: History)
    requires Ordered(h)
    ensures Logged(h, ChangeTimes(h))
  {
    var lts := ChangeTimes(h);
    ChangesExactly(h);
    forall i | 0 <= i < |lts|
      ensures HasTime(h, lts[i])
    {
      assert lts[i] in lts;
      var j: nat :| ChangesAt(Present(h), j, lts[i]);
      PresentExactly(h, Present(h)[j]);
    }
  }

  // ------------------------------------------------------------------------- what is loaded

  lemma {:induction false} SelectSkips(h: History, lts: seq<nat>)
    requires lts != [] && forall s :: s in h ==> s.lastTxLT != lts[0]
    ensures Select(h, lts) == Select(h, lts[1..])
  {
    if h != [] {
      assert h[0] in h;
      assert lts == [lts[0]] + lts[1..];
      SelectSkips(h[1..], lts);
    }
  }

  /** `sel` are states of `h`, at the times `lts`. */
  ghost predicate At(h: History, lts: seq<nat>, sel: History) {
    |sel| == |lts| && forall i :: 0 <= i < |lts| ==> sel[i] in h && sel[i].lastTxLT == lts[i]
  }

  /** The loaded states are those at the given times, in order. */
  lemma {:induction false} SelectExactly(h: History, lts: seq<nat>)
    requires Logged(h, lts)
    ensures At(h, lts, Select(h, lts))
  {
    if h == [] {
      assert lts != [] ==> HasTime(h, lts[0]);
    } else {
      FirstSelected(h, lts);
      if h[0].lastTxLT in lts {
        SelectExactly(h[1..], lts[1..]);
        SelectHead(h, lts);
      } else {
        SelectExactly(h[1..], lts);
        AtMore(h, lts, Select(h[1..], lts));
      }
    }
  }

  lemma SelectHead(h: History, lts: seq<nat>)
    requires Ordered(h) && h != [] && lts != [] && lts[0] == h[0].lastTxLT
    requires At(h[1..], lts[1..], Select(h[1..], lts[1..]))
    ensures At(h, lts, Select(h, lts))
  {
    forall s | s in h[1..]
      ensures s.lastTxLT != lts[0]
    {
      var i :| 1 <= i < |h| && h[i] == s;
    }
    SelectSkips(h[1..], lts);
    AtPushed(h, lts, Select(h[1..], lts[1..]));
  }

  lemma AtPushed(h: History, lts: seq<nat>, rest: History)
    requires h != [] && lts != [] && lts[0] == h[0].lastTxLT && At(h[1..], lts[1..], rest)
    ensures At(h, lts, [h[0]] + rest)
  {
    forall i | 1 <= i < |lts|
      ensures ([h[0]] + rest)[i] in h && ([h[0]] + rest)[i].lastTxLT == lts[i]
    {
      assert rest[i - 1] in h[1..] && rest[i - 1].lastTxLT == lts[1..][i - 1];
    }
  }

  lemma AtMore(h: History, lts: seq<nat>, sel: History)
    requires h != [] && At(h[1..], lts, sel)
    ensures At(h, lts, sel)
  {
  }

  lemma FirstSelected(h: History, lts: seq<nat>)
    requires Logged(h, lts) && h != []
    ensures h[0].lastTxLT in lts ==> lts[0] == h[0].lastTxLT
    ensures Logged(h[1..], if h[0].lastTxLT in lts then lts[1..] else lts)
  {
    forall i | 0 <= i < |lts|
      ensures h[0].lastTxLT <= lts[i]
      ensures lts[i] == h[0].lastTxLT || HasTime(h[1..], lts[i])
    {
      var s :| s in h && s.lastTxLT == lts[i];
      assert s == h[0] || s in h[1..];
    }
    if h[0].lastTxLT in lts {
      var i :| 0 <= i < |lts| && lts[i] == h[0].lastTxLT;
      assert i == 0;
    }
  }

  // ------------------------------------------------------------------------- filling one address

  function EntryFor(states: History, i: nat): Entry<nat, MinterState>
    requires i < |states|
  {
    Entry(states[i].lastTxLT, MinterState(states[i], NextTxLT(states, i)))
  }

  /** The states of one address after the first `i` are put. */
  ghost function Fill(d: States, states: History, i: nat): States
    requires i <= |states|
  {
    if i == 0 then d
    else Put(MAX_MINTER_STATES, Fill(d, states, i - 1), states[i - 1].lastTxLT, EntryFor(states, i - 1).data)
  }

  lemma PutOnTop<K, V>(d: seq<Entry<K, V>>, n: nat, k: K, v: V)
    requires DistinctKeys(d) && |d| <= MAX_MINTER_STATES && n <= |d| && forall j :: 0 <= j < n ==> d[j].key != k
    ensures var d' := Put(MAX_MINTER_STATES, d, k, v);
            && DistinctKeys(d') && 1 <= |d'| <= MAX_MINTER_STATES && d'[0] == Entry(k, v)
            && (forall j :: 1 <= j <= n && j < MAX_MINTER_STATES ==> j < |d'| && d'[j] == d[j - 1])
            && (forall j :: 1 <= j < |d'| ==> d'[j] in d)
  {
    if Has(d, k) {
      Moved(d, Position(d, k));
    }
  }

  /** The first `i` states are on top, last first, as many as fit. */
  ghost predicate OnTop(f: States, states: History, i: nat) {
    && i <= |states| && (|f| >= i || |f| >= MAX_MINTER_STATES)
    && forall j :: 0 <= j < i && j < MAX_MINTER_STATES ==> f[j] == EntryFor(states, i - 1 - j)
  }

  lemma OneMoreOnTop(f: States, states: History, i: nat)
    requires DistinctKeys(f) && |f| <= MAX_MINTER_STATES && Ordered(states) && i < |states| && OnTop(f, states, i)
    ensures var f' := Put(MAX_MINTER_STATES, f, states[i].lastTxLT, EntryFor(states, i).data);
            DistinctKeys(f') && |f'| <= MAX_MINTER_STATES && OnTop(f', states, i + 1)
  {
    var n := if i < MAX_MINTER_STATES then i else MAX_MINTER_STATES;
    forall j | 0 <= j < n
      ensures f[j].key != states[i].lastTxLT
    {
      assert f[j] == EntryFor(states, i - 1 - j);
    }
    PutOnTop(f, n, states[i].lastTxLT, EntryFor(states, i).data);
  }

  lemma {:induction false} FillOnTop(d: States, states: History, i: nat)
    requires DistinctKeys(d) && |d| <= MAX_MINTER_STATES && Ordered(states) && i <= |states|
    ensures DistinctKeys(Fill(d, states, i)) && |Fill(d, states, i)| <= MAX_MINTER_STATES && OnTop(Fill(d, states, i), states, i)
  {
    if i > 0 {
      FillOnTop(d, states, i - 1);
      OneMoreOnTop(Fill(d, states, i - 1), states, i - 1);
    }
  }

  ghost predicate OneOf(states: History, i: nat, e: Entry<nat, MinterState>) {
    exists p: nat :: p < i <= |states| && e == EntryFor(states, p)
  }

  /** Whatever else is held was held before. */
  lemma {:induction false} FillFrom(d: States, states: History, i: nat)
    requires DistinctKeys(d) && |d| <= MAX_MINTER_STATES && Ordered(states) && i <= |states|
    ensures forall e :: e in Fill(d, states, i) ==> e in d || OneOf(states, i, e)
  {
    if i > 0 {
      var f := Fill(d, states, i - 1);
      FillOnTop(d, states, i - 1);
      FillFrom(d, states, i - 1);
      PutOnTop(f, 0, states[i - 1].lastTxLT, EntryFor(states, i - 1).data);
      forall e | e in Fill(d, states, i)
        ensures e in d || OneOf(states, i, e)
      {
        var j :| 0 <= j < |Fill(d, states, i)| && Fill(d, states, i)[j] == e;
        if j == 0 {
          assert e == EntryFor(states, i - 1);
        } else if e !in d {
          var p: nat :| p < i - 1 && e == EntryFor(states, p);
        }
      }
    }
  }

  ghost function HeldFor(c: Minters, a: Address): States {
    if Has(c, a) then c[Position(c, a)].data else []
  }

  /** Filling changes the states of one address, which comes first; every other entry was there before. */
  lemma {:induction false} RefillShape(capacity: int, c: Minters, a: Address, states: History, i: nat)
    requires capacity != 0 && DistinctKeys(c) && 1 <= i <= |states|
    ensures var r := Refill(capacity, c, a, states, i);
            && DistinctKeys(r) && r != [] && r[0] == Entry(a, Fill(HeldFor(c, a), states, i))
            && forall j :: 1 <= j < |r| ==> r[j] in c
  {
    if i == 1 {
      PutStateShape(capacity, c, a, states[0], NextTxLT(states, 0));
    } else {
      RefillShape(capacity, c, a, states, i - 1);
      PutStateShape(capacity, Refill(capacity, c, a, states, i - 1), a, states[i - 1], NextTxLT(states, i - 1));
    }
  }

  lemma PutStateShape(capacity: int, c: Minters, a: Address, state: AccountState, nextTxLT: nat)
    requires capacity != 0 && DistinctKeys(c)
    ensures var r := PutState(capacity, c, a, state, nextTxLT);
            && DistinctKeys(r) && r != []
            && r[0] == Entry(a, Put(MAX_MINTER_STATES, HeldFor(c, a), state.lastTxLT, MinterState(state, nextTxLT)))
            && (forall j :: 1 <= j < |r| ==> r[j] in c && r[j].key != a)
            && HeldFor(r, a) == r[0].data
  {
    var r := PutState(capacity, c, a, state, nextTxLT);
    if Has(c, a) {
      FrontShape(c, Position(c, a), r[0]);
    } else {
      assert r[0].key == a && DistinctKeys(r);
      assert Position(r, a) == 0;
    }
  }

  lemma FrontShape<K, V>(c: seq<Entry<K, V>>, i: nat, e: Entry<K, V>)
    requires DistinctKeys(c) && i < |c| && e.key == c[i].key
    ensures var r := [e] + Drop(c, i);
            && DistinctKeys(r) && Has(r, e.key) && Position(r, e.key) == 0
            && forall j :: 1 <= j < |r| ==> r[j] in c && r[j].key != e.key
  {
    var r := [e] + Drop(c, i);
    assert forall j :: 1 <= j < |c| ==> r[j] == c[if j <= i then j - 1 else j];
    assert r[0].key == e.key;
    assert DistinctKeys(r);
  }

  // ------------------------------------------------------------------------- entries that come from the records

  /** The entry is the state of the `m`th change; the next time in it is the next change's, or none. */
  ghost predicate EntryOfChange(h: History, lts: seq<nat>, m: nat, e: Entry<nat, MinterState>) {
    && m < |lts| && e.key == lts[m] && e.data.acc in h && e.data.acc.lastTxLT == e.key
    && (e.data.nextTxLT == 0 || (m + 1 < |lts| && e.data.nextTxLT == lts[m + 1]))
  }

  ghost predicate Genuine(h: History, e: Entry<nat, MinterState>) {
    exists m: nat :: EntryOfChange(h, ChangeTimes(h), m, e)
  }

  ghost predicate FromHistory(h: History, d: States) {
    DistinctKeys(d) && |d| <= MAX_MINTER_STATES && forall e :: e in d ==> Genuine(h, e)
  }

  /** Everything the cache holds comes from the records, whatever calls put it there. */
  ghost predicate BuiltFrom(c: Minters, db: Address -> History) {
    DistinctKeys(c) && forall e :: e in c ==> FromHistory(db(e.key), e.data)
  }

  lemma HeldFromHistory(c: Minters, db: Address -> History, a: Address)
    requires BuiltFrom(c, db)
    ensures FromHistory(db(a), HeldFor(c, a))
  {
    if Has(c, a) {
      assert c[Position(c, a)] in c;
    }
  }

  /** What is loaded for an address is not empty, and is a stretch of its changes. */
  lemma LoadedExactly(h: History, q: nat) returns (lo: nat, hi: nat)
    requires Ordered(h) && ChangeRows(h) != []
    ensures (lo, hi) == Bounds(ChangeTimes(h), q, MAX_MINTER_STATES) && lo < hi <= |ChangeTimes(h)|
    ensures LoadStates(h, q, MAX_MINTER_STATES) == Ok(Select(h, ChangeTimes(h)[lo..hi]))
    ensures At(h, ChangeTimes(h)[lo..hi], Select(h, ChangeTimes(h)[lo..hi]))
  {
    var lts := ChangeTimes(h);
    ChangeTimesLogged(h);
    lo, hi := Bounds(lts, q, MAX_MINTER_STATES).0, Bounds(lts, q, MAX_MINTER_STATES).1;
    assert forall i :: 0 <= i < hi - lo ==> lts[lo..hi][i] == lts[lo + i];
    SelectExactly(h, lts[lo..hi]);
  }

  lemma LoadedAreGenuine(h: History, lo: nat, hi: nat, states: History, p: nat)
    requires lo < hi <= |ChangeTimes(h)| && At(h, ChangeTimes(h)[lo..hi], states) && p < |states|
    ensures EntryOfChange(h, ChangeTimes(h), lo + p, EntryFor(states, p))
  {
    var lts := ChangeTimes(h);
    assert lts[lo..hi][p] == lts[lo + p];
    assert p + 1 < |states| ==> lts[lo..hi][p + 1] == lts[lo + p + 1];
  }

  lemma AtOrdered(h: History, lts: seq<nat>, sel: History)
    requires Rising(lts) && At(h, lts, sel)
    ensures Ordered(sel)
  {
  }

  lemma FillKeeps(h: History, d: States, lo: nat, hi: nat, states: History)
    requires FromHistory(h, d) && Ordered(h) && Ordered(states)
    requires lo < hi <= |ChangeTimes(h)| && At(h, ChangeTimes(h)[lo..hi], states)
    ensures FromHistory(h, Fill(d, states, |states|))
  {
    FillOnTop(d, states, |states|);
    FillFrom(d, states, |states|);
    forall e | e in Fill(d, states, |states|)
      ensures Genuine(h, e)
    {
      if e !in d {
        var p: nat :| p < |states| && e == EntryFor(states, p);
        LoadedAreGenuine(h, lo, hi, states, p);
      }
    }
  }

  lemma GetStateShape(c: Minters, a: Address, q: nat)
    requires DistinctKeys(c) && Has(c, a)
    ensures var r := GetState(c, a, q).0;
            && DistinctKeys(r) && r != []
            && r[0] == Entry(a, ScanDown(HeldFor(c, a), q).states)
            && (forall j :: 1 <= j < |r| ==> r[j] in c && r[j].key != a)
            && HeldFor(r, a) == r[0].data
  {
    FrontShape(c, Position(c, a), Entry(a, ScanDown(HeldFor(c, a), q).states));
  }

  /** A get keeps the cache genuine, and all the states of the address it looked at. */
  lemma GetKeepsBuilt(c: Minters, db: Address -> History, a: Address, q: nat)
    requires BuiltFrom(c, db)
    ensures BuiltFrom(GetState(c, a, q).0, db)
    ensures forall k :: Has(HeldFor(GetState(c, a, q).0, a), k) <==> Has(HeldFor(c, a), k)
  {
    if Has(c, a) {
      var d, r := HeldFor(c, a), GetState(c, a, q).0;
      GetStateShape(c, a, q);
      HeldFromHistory(c, db, a);
      ScanKeeps(d, KeysDown(d), 0, q);
      SameKeys(d, r[0].data);
      assert FromHistory(db(a), r[0].data);
      assert forall e :: e in r ==> e == r[0] || exists j :: 1 <= j < |r| && r[j] == e;
    }
  }

  lemma SameKeys<K, V>(d: seq<Entry<K, V>>, d': seq<Entry<K, V>>)
    requires forall x :: x in d' <==> x in d
    ensures forall k :: Has(d', k) <==> Has(d, k)
  {
    forall k
      ensures Has(d', k) <==> Has(d, k)
    {
      if Has(d, k) {
        assert d[Position(d, k)] in d';
      }
      if Has(d', k) {
        assert d'[Position(d', k)] in d;
      }
    }
  }

  /** A refill from the records keeps the cache genuine. */
  lemma RefillKeepsBuilt(capacity: int, c: Minters, db: Address -> History, a: Address, lo: nat, hi: nat, states: History)
    requires capacity != 0 && BuiltFrom(c, db) && Ordered(db(a))
    requires lo < hi <= |ChangeTimes(db(a))| && At(db(a), ChangeTimes(db(a))[lo..hi], states)
    ensures BuiltFrom(Refill(capacity, c, a, states, |states|), db)
    ensures HeldFor(Refill(capacity, c, a, states, |states|), a) == Fill(HeldFor(c, a), states, |states|)
  {
    var r := Refill(capacity, c, a, states, |states|);
    ChangesExactly(db(a));
    AtOrdered(db(a), ChangeTimes(db(a))[lo..hi], states);
    RefillShape(capacity, c, a, states, |states|);
    HeldFromHistory(c, db, a);
    FillKeeps(db(a), HeldFor(c, a), lo, hi, states);
    assert r[0].key == a && Position(r, a) == 0;
    assert forall e :: e in r ==> e == r[0] || exists j :: 1 <= j < |r| && r[j] == e;
  }

  /** An answer keeps the cache genuine. */
  lemma AnswerKeepsBuilt(capacity: int, c: Minters, db: Address -> History, a: Address, q: nat)
    requires capacity != 0 && BuiltFrom(c, db) && Ordered(db(a))
    ensures BuiltFrom(RecentState(capacity, c, db(a), a, q).0, db)
  {
    GetKeepsBuilt(c, db, a, q);
    var c1 := GetState(c, a, q).0;
    if ChangeRows(db(a)) != [] {
      var lo, hi := LoadedExactly(db(a), q);
      var states := Select(db(a), ChangeTimes(db(a))[lo..hi]);
      RefillKeepsBuilt(capacity, c1, db, a, lo, hi, states);
      GetKeepsBuilt(Refill(capacity, c1, a, states, |states|), db, a, q);
    }
  }

  // ------------------------------------------------------------------------- exactness

  /** The answer is the state of the `m`th change. */
  ghost predicate IsChange(h: History, m: nat, acc: AccountState) {
    m < |ChangeTimes(h)| && acc in h && acc.lastTxLT == ChangeTimes(h)[m]
  }

  /** If the latest change is held, the get finds it, and nothing else. */
  lemma HeldIsFound(h: History, d: States, m: nat, q: nat)
    requires Ordered(h) && FromHistory(h, d) && IsLatest(ChangeTimes(h), m, q) && Has(d, ChangeTimes(h)[m])
    ensures ScanDown(d, q).found.Some? && IsChange(h, m, ScanDown(d, q).found.value)
  {
    var lts := ChangeTimes(h);
    ChangesExactly(h);
    CoversExactly(h, d[Position(d, lts[m])], m, q);
    ScanDownFinds(d, q);
    var found := ScanDown(d, q).found;
    if found.Some? {
      var j: nat :| LatestCovering(d, q, j) && d[j].data.acc == found.value;
      LatestIsChange(h, d[j], m, q);
    }
  }

  /** A genuine entry at or before `q`, and not before the latest change, is that change. */
  lemma LatestIsChange(h: History, e: Entry<nat, MinterState>, m: nat, q: nat)
    requires Rising(ChangeTimes(h)) && Genuine(h, e) && IsLatest(ChangeTimes(h), m, q)
    requires ChangeTimes(h)[m] <= e.key <= q
    ensures IsChange(h, m, e.data.acc)
  {
    var lts := ChangeTimes(h);
    assert forall y :: m < y < |lts| ==> lts[y] > q;
    var x: nat :| EntryOfChange(h, lts, x, e);
  }

  lemma CoversExactly(h: History, e: Entry<nat, MinterState>, m: nat, q: nat)
    requires Rising(ChangeTimes(h)) && Genuine(h, e) && IsLatest(ChangeTimes(h), m, q) && e.key == ChangeTimes(h)[m]
    ensures InEffect(e, q)
  {
    var lts := ChangeTimes(h);
    var x: nat :| EntryOfChange(h, lts, x, e);
    assert x == m;
  }

  /** Conversely, an answer from the cache that is that change shows that it was held. */
  lemma FoundIsHeld(h: History, d: States, m: nat, q: nat)
    requires FromHistory(h, d) && ScanDown(d, q).found.Some? && IsChange(h, m, ScanDown(d, q).found.value)
    ensures Has(d, ChangeTimes(h)[m])
  {
    ScanDownFinds(d, q);
    var i: nat :| LatestCovering(d, q, i) && d[i].data.acc == ScanDown(d, q).found.value;
    assert Genuine(h, d[i]);
  }

  /** A get of an address without states misses. */
  lemma FoundInHeld(c: Minters, a: Address, q: nat)
    ensures GetState(c, a, q).1 == ScanDown(HeldFor(c, a), q).found
  {
  }

  /** A miss is followed by the exact answer, whatever the cache held before. */
  lemma MissIsExact(capacity: int, c: Minters, db: Address -> History, a: Address, q: nat, m: nat)
    requires capacity != 0 && BuiltFrom(c, db) && Ordered(db(a)) && IsLatest(ChangeTimes(db(a)), m, q)
    ensures var r := AfterMiss(capacity, c, db(a), a, q).1;
            r.Ok? && IsChange(db(a), m, r.value)
  {
    var h := db(a);
    var lo, hi := LoadedExactly(h, q);
    var states := Select(h, ChangeTimes(h)[lo..hi]);
    var filled := Refill(capacity, c, a, states, |states|);
    RefillKeepsBuilt(capacity, c, db, a, lo, hi, states);
    HeldFromHistory(filled, db, a);
    HeldFromHistory(c, db, a);
    LatestIsFilled(h, HeldFor(c, a), lo, hi, states, m, q);
    HeldIsFound(h, HeldFor(filled, a), m, q);
    FoundInHeld(filled, a, q);
  }

  lemma LatestIsFilled(h: History, d: States, lo: nat, hi: nat, states: History, m: nat, q: nat)
    requires Ordered(h) && FromHistory(h, d) && IsLatest(ChangeTimes(h), m, q)
    requires (lo, hi) == Bounds(ChangeTimes(h), q, MAX_MINTER_STATES) && At(h, ChangeTimes(h)[lo..hi], states)
    ensures Has(Fill(d, states, |states|), ChangeTimes(h)[m])
  {
    ChangesExactly(h);
    AtOrdered(h, ChangeTimes(h)[lo..hi], states);
    FillOnTop(d, states, |states|);
    var p := InWindow(h, ChangeTimes(h), lo, hi, states, m, q);
    TopIsHeld(Fill(d, states, |states|), states, p);
  }

  lemma InWindow(h: History, lts: seq<nat>, lo: nat, hi: nat, states: History, m: nat, q: nat) returns (p: nat)
    requires Rising(lts) && IsLatest(lts, m, q)
    requires (lo, hi) == Bounds(lts, q, MAX_MINTER_STATES) && At(h, lts[lo..hi], states)
    ensures p < |states| && |states| - p <= MAX_MINTER_STATES && states[p].lastTxLT == lts[m]
  {
    WindowReaches(lts, q, MAX_MINTER_STATES, m);
    p := m - lo;
    assert lts[lo..hi][p] == lts[m];
  }

  lemma TopIsHeld(f: States, states: History, p: nat)
    requires OnTop(f, states, |states|) && p < |states| && |states| - p <= MAX_MINTER_STATES
    ensures Has(f, states[p].lastTxLT)
  {
    var j := |states| - 1 - p;
    assert f[j] == EntryFor(states, p);
  }

  /**
   The answer is the latest change at or before the time asked for if and only if that change is
   held already, or the cache has no answer at all.
   */
  lemma AnswerExactly(capacity: int, c: Minters, db: Address -> History, a: Address, q: nat, m: nat)
    requires capacity != 0 && BuiltFrom(c, db) && Ordered(db(a)) && IsLatest(ChangeTimes(db(a)), m, q)
    ensures var r := RecentState(capacity, c, db(a), a, q).1;
            && r.Ok?
            && (IsChange(db(a), m, r.value) <==> Has(HeldFor(c, a), ChangeTimes(db(a))[m]) || GetState(c, a, q).1.None?)
  {
    var h := db(a);
    HeldFromHistory(c, db, a);
    FoundInHeld(c, a, q);
    if GetState(c, a, q).1.None? {
      GetKeepsBuilt(c, db, a, q);
      MissIsExact(capacity, GetState(c, a, q).0, db, a, q, m);
    } else {
      if Has(HeldFor(c, a), ChangeTimes(h)[m]) {
        HeldIsFound(h, HeldFor(c, a), m, q);
      }
      if IsChange(h, m, GetState(c, a, q).1.value) {
        FoundIsHeld(h, HeldFor(c, a), m, q);
      }
    }
  }

  /** Before the first change there is no answer. */
  lemma NoAnswerBeforeFirst(capacity: int, c: Minters, db: Address -> History, a: Address, q: nat)
    requires capacity != 0 && BuiltFrom(c, db) && Ordered(db(a))
    requires ChangeTimes(db(a)) == [] || q < ChangeTimes(db(a))[0]
    ensures RecentState(capacity, c, db(a), a, q).1 == Err(NotFound)
  {
    var h := db(a);
    NothingFound(c, db, a, q);
    GetKeepsBuilt(c, db, a, q);
    if ChangeRows(h) != [] {
      var lo, hi := LoadedExactly(h, q);
      var states := Select(h, ChangeTimes(h)[lo..hi]);
      RefillKeepsBuilt(capacity, GetState(c, a, q).0, db, a, lo, hi, states);
      NothingFound(Refill(capacity, GetState(c, a, q).0, a, states, |states|), db, a, q);
    }
  }

  lemma NothingFound(c: Minters, db: Address -> History, a: Address, q: nat)
    requires BuiltFrom(c, db) && Ordered(db(a)) && (ChangeTimes(db(a)) == [] || q < ChangeTimes(db(a))[0])
    ensures GetState(c, a, q).1 == None
  {
    var d := HeldFor(c, a);
    HeldFromHistory(c, db, a);
    FoundInHeld(c, a, q);
    ScanDownFinds(d, q);
    ChangesExactly(db(a));
    forall i | 0 <= i < |d|
      ensures !InEffect(d[i], q)
    {
      assert Genuine(db(a), d[i]);
    }
  }

  // ------------------------------------------------------------------------- whole runs

  datatype Call = Call(a: Address, lastLT: nat)

  /** What the cache holds after a run of calls from the start. */
  ghost function After(capacity: int, db: Address -> History, calls: seq<Call>): Minters
    requires capacity != 0
  {
    if calls == [] then []
    else
      var last := calls[|calls| - 1];
      RecentState(capacity, After(capacity, db, calls[..|calls| - 1]), db(last.a), last.a, last.lastLT).0
  }

  lemma {:induction false} RunsBuildFromRecords(capacity: int, db: Address -> History, calls: seq<Call>)
    requires capacity != 0 && forall a :: Ordered(db(a))
    ensures BuiltFrom(After(capacity, db, calls), db)
  {
    if calls != [] {
      var last := calls[|calls| - 1];
      RunsBuildFromRecords(capacity, db, calls[..|calls| - 1]);
      AnswerKeepsBuilt(capacity, After(capacity, db, calls[..|calls| - 1]), db, last.a, last.lastLT);
    }
  }

  /** In every run, an answer that had to be loaded has the code and data that are current at the time asked for. */
  lemma LoadedAnswersAreCurrent(capacity: int, db: Address -> History, calls: seq<Call>, a: Address, q: nat, current: AccountState)
    requires capacity != 0 && forall a :: Ordered(db(a))
    requires IsCurrent(db(a), current, q) && GetState(After(capacity, db, calls), a, q).1.None?
    ensures var r := RecentState(capacity, After(capacity, db, calls), db(a), a, q).1;
            r.Ok? && r.value.code == current.code && r.value.data == current.data
  {
    var h := db(a);
    var lts := ChangeTimes(h);
    RunsBuildFromRecords(capacity, db, calls);
    FirstIsChange(h, current);
    var m := LatestExists(lts, q);
    AnswerExactly(capacity, After(capacity, db, calls), db, a, q, m);
    LatestChangeIsCurrent(h, m, q, RecentState(capacity, After(capacity, db, calls), h, a, q).1.value, current);
  }

  lemma FirstIsChange(h: History, s: AccountState)
    requires Ordered(h) && s in Present(h)
    ensures ChangeTimes(h) != [] && ChangeTimes(h)[0] <= s.lastTxLT && Rising(ChangeTimes(h))
  {
    var p, lts := Present(h), ChangeTimes(h);
    ChangesExactly(h);
    PresentOrdered(h);
    assert ChangesAt(p, 0, p[0].lastTxLT);
    assert p[0].lastTxLT in lts;
    var i :| 0 <= i < |p| && p[i] == s;
    var j :| 0 <= j < |lts| && lts[j] == p[0].lastTxLT;
  }

  /** A cut window: no later change is held, and the last one in it counts as lasting forever. */
  ghost predicate CutAt(h: History, d: States, m: nat) {
    && FromHistory(h, d) && m < |ChangeTimes(h)| && Has(d, ChangeTimes(h)[m])
    && forall e :: e in d ==> e.key <= ChangeTimes(h)[m] && (e.key == ChangeTimes(h)[m] ==> e.data.nextTxLT == 0)
  }

  lemma CutIsStale(h: History, d: States, m: nat, q: nat)
    requires Ordered(h) && CutAt(h, d, m) && q >= ChangeTimes(h)[m]
    ensures ScanDown(d, q).found.Some? && IsChange(h, m, ScanDown(d, q).found.value)
  {
    var lts := ChangeTimes(h);
    var i := Position(d, lts[m]);
    assert d[i] in d;
    ScanDownFinds(d, q);
    var found := ScanDown(d, q).found;
    if found.Some? {
      var j: nat :| LatestCovering(d, q, j) && d[j].data.acc == found.value;
      assert d[j] in d && Genuine(h, d[j]);
    }
  }

  /** A first call at the time of the first of many changes loads a cut window. */
  lemma FirstCallCuts(h: History, d: States, states: History)
    requires Ordered(h) && |ChangeTimes(h)| > MAX_MINTER_STATES && Bounds(ChangeTimes(h), ChangeTimes(h)[0], MAX_MINTER_STATES) == (0, MAX_MINTER_STATES)
    requires At(h, ChangeTimes(h)[0..MAX_MINTER_STATES], states) && d == Fill([], states, MAX_MINTER_STATES)
    ensures CutAt(h, d, MAX_MINTER_STATES - 1)
  {
    var lts := ChangeTimes(h);
    ChangesExactly(h);
    AtOrdered(h, lts[0..MAX_MINTER_STATES], states);
    FillKeeps(h, [], 0, MAX_MINTER_STATES, states);
    FillOnTop([], states, MAX_MINTER_STATES);
    FillFrom([], states, MAX_MINTER_STATES);
    assert d[0] == EntryFor(states, MAX_MINTER_STATES - 1);
    forall e | e in d
      ensures e.key <= lts[MAX_MINTER_STATES - 1] && (e.key == lts[MAX_MINTER_STATES - 1] ==> e.data.nextTxLT == 0)
    {
      var p: nat :| p < MAX_MINTER_STATES && e == EntryFor(states, p);
    }
  }

  /**
   An answer from the cache need not be: with more changes than a window takes, a call at the time of
   the first change makes a later call answer with a state that has been replaced.
   */
  lemma StaleAnswer(capacity: int, db: Address -> History, a: Address)
    requires capacity != 0 && (forall a :: Ordered(db(a))) && |ChangeTimes(db(a))| > MAX_MINTER_STATES
    ensures var lts := ChangeTimes(db(a));
            var c := After(capacity, db, [Call(a, lts[0])]);
            var r := RecentState(capacity, c, db(a), a, lts[MAX_MINTER_STATES]).1;
            IsLatest(lts, MAX_MINTER_STATES, lts[MAX_MINTER_STATES]) && r.Ok? && IsChange(db(a), MAX_MINTER_STATES - 1, r.value)
  {
    var h := db(a);
    var lts := ChangeTimes(h);
    ChangesExactly(h);
    assert [Call(a, lts[0])][..0] == [];
    assert After(capacity, db, []) == [];
    var lo, hi := LoadedExactly(h, lts[0]);
    var states := Select(h, lts[lo..hi]);
    assert (lo, hi) == (0, MAX_MINTER_STATES);
    FirstCallCuts(h, Fill([], states, |states|), states);
    RefillKeepsBuilt(capacity, [], db, a, lo, hi, states);
    var filled := Refill(capacity, [], a, states, |states|);
    GetKeepsCut(filled, db, a, lts[0], MAX_MINTER_STATES - 1);
    var c := After(capacity, db, [Call(a, lts[0])]);
    assert c == GetState(filled, a, lts[0]).0;
    CutIsStale(h, HeldFor(c, a), MAX_MINTER_STATES - 1, lts[MAX_MINTER_STATES]);
    FoundInHeld(c, a, lts[MAX_MINTER_STATES]);
  }

  lemma GetKeepsCut(c: Minters, db: Address -> History, a: Address, q: nat, m: nat)
    requires BuiltFrom(c, db) && CutAt(db(a), HeldFor(c, a), m)
    ensures CutAt(db(a), HeldFor(GetState(c, a, q).0, a), m)
  {
    var d := HeldFor(c, a);
    GetKeepsBuilt(c, db, a, q);
    if Has(c, a) {
      GetStateShape(c, a, q);
      ScanKeeps(d, KeysDown(d), 0, q);
    }
    HeldFromHistory(GetState(c, a, q).0, db, a);
  }

  // ------------------------------------------------------------------------- such a history

  function Steps(n: nat): History {
    seq(n, i requires 0 <= i => AccountState(i + 1, Hash(i), Hash(0)))
  }

  lemma {:induction false} EveryStepChanges(p: History)
    requires p != [] && forall i :: 0 < i < |p| ==> Differ(p[i - 1], p[i])
    ensures |LaterChanges(p)| == |p| - 1
  {
    if |p| > 1 {
      assert forall i :: 0 < i < |p| - 1 ==> p[1..][i - 1] == p[i] && p[1..][i] == p[i + 1];
      EveryStepChanges(p[1..]);
    }
  }

  lemma {:induction false} AllPresent(h: History)
    requires forall s :: s in h ==> s.code != Empty && s.data != Empty
    ensures Present(h) == h
  {
    if h != [] {
      assert h[0] in h && forall s :: s in h[1..] ==> s in h;
      AllPresent(h[1..]);
    }
  }

  /** A history of any number of changes. */
  lemma StepsChange(n: nat)
    requires n > 0
    ensures Ordered(Steps(n)) && |ChangeTimes(Steps(n))| == n
  {
    var h := Steps(n);
    AllPresent(h);
    EveryStepChanges(h);
    DedupDiffs(h, ChangeTo(h[0]));
    assert ChangeRows(h)[1..] == Diffs(h);
  }
}
