/** What the cache holds of an account in any run of calls, and what it therefore answers. */
module RecentRuns {
  import opened AccountStates
  import opened LruSpec
  import opened MinterSpec
  import opened RecentExact
  import opened RecentStates
  import opened Wrappers

  /** The entry of the `i`th change in a stretch that ends before the `hi`th: the last one has no next time. */
  ghost predicate IsEntry(h: History, lts: seq<nat>, i: nat, hi: nat, e: Entry<nat, MinterState>) {
    && i < hi <= |lts| && e.key == lts[i] && e.data.acc in h && e.data.acc.lastTxLT == lts[i]
    && e.data.nextTxLT == if i + 1 < hi then lts[i + 1] else 0
  }

  ghost predicate IsEntryFrom(h: History, lts: seq<nat>, lo: nat, hi: nat, e: Entry<nat, MinterState>) {
    exists i: nat :: lo <= i && IsEntry(h, lts, i, hi, e)
  }

  /** The states held are those of the changes from the `lo`th to before the `hi`th, without a gap. */
  ghost predicate HoldsStretch(h: History, lts: seq<nat>, d: States, lo: nat, hi: nat) {
    && lo < hi <= |lts| && DistinctKeys(d) && |d| <= MAX_MINTER_STATES
    && (forall e :: e in d ==> IsEntryFrom(h, lts, lo, hi, e))
    && (forall i :: lo <= i < hi ==> Has(d, lts[i]))
  }

  ghost predicate HoldsSome(h: History, d: States) {
    exists lo: nat, hi: nat :: HoldsStretch(h, ChangeTimes(h), d, lo, hi)
  }

  /** Of every address in the cache a stretch is held. */
  ghost predicate AllStretches(c: Minters, db: Address -> History) {
    DistinctKeys(c) && forall e :: e in c ==> HoldsSome(db(e.key), e.data)
  }

  // ------------------------------------------------------------------------- what a fill leaves

  function Least(a: nat, b: nat): nat { if a < b then a else b }

  /** The last states of a stretch, last first, and nothing else. */
  ghost predicate Stacked(h: History, lts: seq<nat>, f: States, n: nat, hi: nat) {
    && n <= hi && |f| == Least(n, MAX_MINTER_STATES)
    && forall j :: 0 <= j < |f| ==> IsEntry(h, lts, hi - 1 - j, hi, f[j])
  }

  lemma StackedIsStretch(h: History, lts: seq<nat>, f: States, n: nat, hi: nat)
    requires Stacked(h, lts, f, n, hi) && n > 0 && hi <= |lts| && DistinctKeys(f)
    ensures HoldsStretch(h, lts, f, hi - |f|, hi)
  {
    forall e | e in f
      ensures IsEntryFrom(h, lts, hi - |f|, hi, e)
    {
      var j: nat :| j < |f| && f[j] == e;
      assert IsEntry(h, lts, hi - 1 - j, hi, e);
    }
    forall i | hi - |f| <= i < hi
      ensures Has(f, lts[i])
    {
      assert IsEntry(h, lts, i, hi, f[hi - 1 - i]);
    }
  }

  /** The states on top of a filled cache, as many as fit: the last ones of the stretch loaded. */
  lemma TopIsStretch(h: History, lts: seq<nat>, f: States, states: History, lo: nat, hi: nat, j: nat)
    requires lo < hi <= |lts| && At(h, lts[lo..hi], states) && OnTop(f, states, |states|)
    requires j < |states| && j < MAX_MINTER_STATES
    ensures j < |f| && IsEntry(h, lts, hi - 1 - j, hi, f[j])
  {
    var p := |states| - 1 - j;
    assert f[j] == EntryFor(states, p);
    assert lts[lo..hi][p] == lts[lo + p];
    assert p + 1 < |states| ==> lts[lo..hi][p + 1] == lts[lo + p + 1];
  }

  /** Nothing else is held once the stretch is as long as the cache, or all there is. */
  lemma NothingBelowTop(h: History, lts: seq<nat>, f: States, states: History, lo: nat, hi: nat)
    requires lo < hi <= |lts| && At(h, lts[lo..hi], states) && OnTop(f, states, |states|)
    requires DistinctKeys(f) && |f| <= MAX_MINTER_STATES && forall e :: e in f ==> e.key in lts
    requires hi - lo >= MAX_MINTER_STATES || (lo == 0 && hi == |lts|)
    ensures |f| == Least(|states|, MAX_MINTER_STATES)
  {
    if |f| > |states| {
      var e := f[|states|];
      assert e in f;
      var m: nat :| m < |lts| && lts[m] == e.key;
      TopIsStretch(h, lts, f, states, lo, hi, hi - 1 - m);
    }
  }

  lemma KeysAreTimes(h: History, d: States)
    requires FromHistory(h, d)
    ensures forall e :: e in d ==> e.key in ChangeTimes(h)
  {
    forall e | e in d
      ensures e.key in ChangeTimes(h)
    {
      assert Genuine(h, e);
    }
  }

  lemma FilledStack(h: History, lts: seq<nat>, f: States, states: History, lo: nat, hi: nat)
    requires lo < hi <= |lts| && At(h, lts[lo..hi], states) && OnTop(f, states, |states|)
    requires DistinctKeys(f) && |f| <= MAX_MINTER_STATES && forall e :: e in f ==> e.key in lts
    requires hi - lo >= MAX_MINTER_STATES || (lo == 0 && hi == |lts|)
    ensures Stacked(h, lts, f, |states|, hi) && |states| > 0
  {
    NothingBelowTop(h, lts, f, states, lo, hi);
    forall j | 0 <= j < |f|
      ensures IsEntry(h, lts, hi - 1 - j, hi, f[j])
    {
      TopIsStretch(h, lts, f, states, lo, hi, j);
    }
  }

  lemma FillHoldsStretch(h: History, d: States, states: History, lo: nat, hi: nat)
    requires Ordered(h) && FromHistory(h, d) && lo < hi <= |ChangeTimes(h)| && At(h, ChangeTimes(h)[lo..hi], states)
    requires hi - lo >= MAX_MINTER_STATES || (lo == 0 && hi == |ChangeTimes(h)|)
    ensures HoldsSome(h, Fill(d, states, |states|))
  {
    var f := Fill(d, states, |states|);
    ChangesExactly(h);
    AtOrdered(h, ChangeTimes(h)[lo..hi], states);
    FillOnTop(d, states, |states|);
    FillKeeps(h, d, lo, hi, states);
    KeysAreTimes(h, f);
    FilledStack(h, ChangeTimes(h), f, states, lo, hi);
    StackedIsStretch(h, ChangeTimes(h), f, |states|, hi);
  }

  // ------------------------------------------------------------------------- every call keeps it

  lemma StretchIsGenuine(h: History, d: States)
    requires HoldsSome(h, d)
    ensures FromHistory(h, d)
  {
    var lts := ChangeTimes(h);
    var lo: nat, hi: nat :| HoldsStretch(h, lts, d, lo, hi);
    forall e | e in d
      ensures Genuine(h, e)
    {
      var i: nat :| lo <= i && IsEntry(h, lts, i, hi, e);
      assert EntryOfChange(h, lts, i, e);
    }
  }

  lemma StretchesAreBuilt(c: Minters, db: Address -> History)
    requires AllStretches(c, db)
    ensures BuiltFrom(c, db)
  {
    forall e | e in c
      ensures FromHistory(db(e.key), e.data)
    {
      StretchIsGenuine(db(e.key), e.data);
    }
  }

  lemma SameStretch(h: History, d: States, d': States)
    requires HoldsSome(h, d) && |d'| == |d| && DistinctKeys(d') && forall x :: x in d' <==> x in d
    ensures HoldsSome(h, d')
  {
    var lo: nat, hi: nat :| HoldsStretch(h, ChangeTimes(h), d, lo, hi);
    SameKeys(d, d');
    assert HoldsStretch(h, ChangeTimes(h), d', lo, hi);
  }

  /** A cache of which the first entry is new and the others were there before. */
  lemma FrontAndRest(c: Minters, r: Minters, db: Address -> History)
    requires AllStretches(c, db) && DistinctKeys(r) && r != [] && HoldsSome(db(r[0].key), r[0].data)
    requires forall j :: 1 <= j < |r| ==> r[j] in c
    ensures AllStretches(r, db)
  {
    forall e | e in r
      ensures HoldsSome(db(e.key), e.data)
    {
      var j: nat :| j < |r| && r[j] == e;
      assert j > 0 ==> e in c;
    }
  }

  /** A get only moves what is held. */
  lemma GetKeepsStretches(c: Minters, db: Address -> History, a: Address, q: nat)
    requires AllStretches(c, db)
    ensures AllStretches(GetState(c, a, q).0, db)
  {
    if Has(c, a) {
      var d, r := HeldFor(c, a), GetState(c, a, q).0;
      GetStateShape(c, a, q);
      assert c[Position(c, a)] in c && HoldsSome(db(a), d);
      ScanDownKeeps(d, q);
      SameStretch(db(a), d, r[0].data);
      FrontAndRest(c, r, db);
    }
  }

  lemma ScanDownKeeps(d: States, q: nat)
    requires DistinctKeys(d)
    ensures var d' := ScanDown(d, q).states;
            |d'| == |d| && DistinctKeys(d') && forall x :: x in d' <==> x in d
  {
    ScanKeeps(d, KeysDown(d), 0, q);
  }

  /** A refill from the window of a miss leaves a stretch. */
  lemma RefillKeepsStretches(capacity: int, c: Minters, db: Address -> History, a: Address, states: History, lo: nat, hi: nat)
    requires capacity != 0 && AllStretches(c, db) && Ordered(db(a))
    requires lo < hi <= |ChangeTimes(db(a))| && At(db(a), ChangeTimes(db(a))[lo..hi], states)
    requires hi - lo >= MAX_MINTER_STATES || (lo == 0 && hi == |ChangeTimes(db(a))|)
    ensures AllStretches(Refill(capacity, c, a, states, |states|), db)
  {
    StretchesAreBuilt(c, db);
    HeldFromHistory(c, db, a);
    FillHoldsStretch(db(a), HeldFor(c, a), states, lo, hi);
    RefillShape(capacity, c, a, states, |states|);
    FrontAndRest(c, Refill(capacity, c, a, states, |states|), db);
  }

  /** The window of a miss is as long as the cache, or all there is. */
  lemma WindowFills(h: History, q: nat)
    requires Ordered(h)
    ensures var (lo, hi) := Bounds(ChangeTimes(h), q, MAX_MINTER_STATES);
            hi - lo >= MAX_MINTER_STATES || (lo == 0 && hi == |ChangeTimes(h)|)
  {
    ChangesExactly(h);
    WindowExactly(ChangeTimes(h), q, MAX_MINTER_STATES, FirstAtLeast(ChangeTimes(h), q));
  }

  lemma LoadKeepsStretches(capacity: int, c: Minters, db: Address -> History, a: Address, q: nat)
    requires capacity != 0 && AllStretches(c, db) && Ordered(db(a))
    ensures AllStretches(AfterMiss(capacity, c, db(a), a, q).0, db)
  {
    if ChangeRows(db(a)) != [] {
      var lo, hi := LoadedExactly(db(a), q);
      var states := Select(db(a), ChangeTimes(db(a))[lo..hi]);
      WindowFills(db(a), q);
      RefillKeepsStretches(capacity, c, db, a, states, lo, hi);
      GetKeepsStretches(Refill(capacity, c, a, states, |states|), db, a, q);
    }
  }

  /** In every run of calls, for any addresses and whatever is evicted, only stretches are held. */
  lemma {:induction false} RunsHoldStretches(capacity: int, db: Address -> History, calls: seq<Call>)
    requires capacity != 0 && forall a :: Ordered(db(a))
    ensures AllStretches(After(capacity, db, calls), db)
  {
    if calls != [] {
      var last := calls[|calls| - 1];
      var before := After(capacity, db, calls[..|calls| - 1]);
      RunsHoldStretches(capacity, db, calls[..|calls| - 1]);
      GetKeepsStretches(before, db, last.a, last.lastLT);
      LoadKeepsStretches(capacity, GetState(before, last.a, last.lastLT).0, db, last.a, last.lastLT);
    }
  }

  // ------------------------------------------------------------------------- what is answered

  /** The entry held for a change of the stretch. */
  lemma EntryAt(h: History, lts: seq<nat>, d: States, lo: nat, hi: nat, k: nat)
    requires Rising(lts) && HoldsStretch(h, lts, d, lo, hi) && lo <= k < hi
    ensures Has(d, lts[k]) && IsEntry(h, lts, k, hi, d[Position(d, lts[k])])
  {
    var e := d[Position(d, lts[k])];
    assert e in d && IsEntryFrom(h, lts, lo, hi, e);
    var i: nat :| lo <= i && IsEntry(h, lts, i, hi, e);
    assert i == k;
  }

  /** An entry held that covers `q` is of a change up to the latest; the last of these that is held covers it. */
  lemma CoversUpTo(h: History, lts: seq<nat>, i: nat, hi: nat, e: Entry<nat, MinterState>, m: nat, q: nat)
    requires Rising(lts) && IsLatest(lts, m, q) && IsEntry(h, lts, i, hi, e)
    ensures InEffect(e, q) ==> i <= m
    ensures i == Least(m, hi - 1) ==> InEffect(e, q)
  {
    assert i > m ==> lts[i] > q;
    assert i + 1 < hi && i == m ==> lts[i + 1] > q;
  }

  ghost predicate IsStateAt(h: History, t: nat, acc: AccountState) {
    acc in h && acc.lastTxLT == t
  }

  /** The latest state held that covers `q` is that of the latest change, or of the last one held if that is earlier. */
  lemma LatestCoveringIs(h: History, lts: seq<nat>, d: States, lo: nat, hi: nat, m: nat, q: nat, x: nat)
    requires Rising(lts) && HoldsStretch(h, lts, d, lo, hi) && IsLatest(lts, m, q) && LatestCovering(d, q, x)
    ensures lo <= m && IsStateAt(h, lts[Least(m, hi - 1)], d[x].data.acc)
  {
    assert d[x] in d && IsEntryFrom(h, lts, lo, hi, d[x]);
    var j: nat :| lo <= j && IsEntry(h, lts, j, hi, d[x]);
    CoversUpTo(h, lts, j, hi, d[x], m, q);
    var k := Least(m, hi - 1);
    EntryAt(h, lts, d, lo, hi, k);
    CoversUpTo(h, lts, k, hi, d[Position(d, lts[k])], m, q);
    assert lts[k] <= lts[j];
  }

  /** From a stretch that begins by then, a get answers with the latest change or the last one held, whichever is earlier. */
  lemma StretchAnswers(h: History, lts: seq<nat>, d: States, lo: nat, hi: nat, m: nat, q: nat)
    requires Rising(lts) && HoldsStretch(h, lts, d, lo, hi) && IsLatest(lts, m, q)
    ensures m < lo ==> ScanDown(d, q).found.None?
    ensures m >= lo ==> ScanDown(d, q).found.Some? && IsStateAt(h, lts[Least(m, hi - 1)], ScanDown(d, q).found.value)
  {
    ScanDownFinds(d, q);
    var found := ScanDown(d, q).found;
    if found.Some? {
      var x: nat :| LatestCovering(d, q, x) && d[x].data.acc == found.value;
      LatestCoveringIs(h, lts, d, lo, hi, m, q, x);
    } else if m >= lo {
      var k := Least(m, hi - 1);
      EntryAt(h, lts, d, lo, hi, k);
      CoversUpTo(h, lts, k, hi, d[Position(d, lts[k])], m, q);
    }
  }

  /** What is held of an address: a stretch of its changes, or nothing. */
  ghost predicate Held(c: Minters, h: History, a: Address, lo: nat, hi: nat) {
    if Has(c, a) then HoldsStretch(h, ChangeTimes(h), HeldFor(c, a), lo, hi) else lo == hi == 0
  }

  ghost predicate Answers(r: Answer, h: History, m: nat) {
    r.Ok? && IsChange(h, m, r.value)
  }

  /** The latest change, or the last one of a stretch that ends before it. */
  function LastOr(lo: nat, hi: nat, m: nat): nat { if lo < hi <= m then hi - 1 else m }

  ghost predicate FoundIn(found: Option<AccountState>, h: History, lo: nat, hi: nat, m: nat) {
    match found
    case Some(acc) => m >= lo && IsChange(h, LastOr(lo, hi, m), acc)
    case None => m < lo || lo == hi
  }

  lemma HitInRuns(c: Minters, db: Address -> History, a: Address, q: nat, m: nat) returns (lo: nat, hi: nat)
    requires AllStretches(c, db) && Has(c, a) && Rising(ChangeTimes(db(a))) && IsLatest(ChangeTimes(db(a)), m, q)
    ensures Held(c, db(a), a, lo, hi) && FoundIn(GetState(c, a, q).1, db(a), lo, hi, m)
  {
    assert c[Position(c, a)] in c && HoldsSome(db(a), HeldFor(c, a));
    lo, hi :| HoldsStretch(db(a), ChangeTimes(db(a)), HeldFor(c, a), lo, hi);
    StretchAnswers(db(a), ChangeTimes(db(a)), HeldFor(c, a), lo, hi, m, q);
    FoundInHeld(c, a, q);
    assert m >= lo ==> Least(m, hi - 1) == LastOr(lo, hi, m);
  }

  /** What a get finds of an address, of which perhaps nothing is held. */
  lemma FindInRuns(c: Minters, db: Address -> History, a: Address, q: nat, m: nat) returns (lo: nat, hi: nat)
    requires AllStretches(c, db) && Rising(ChangeTimes(db(a))) && IsLatest(ChangeTimes(db(a)), m, q)
    ensures Held(c, db(a), a, lo, hi) && FoundIn(GetState(c, a, q).1, db(a), lo, hi, m)
  {
    if Has(c, a) {
      lo, hi := HitInRuns(c, db, a, q, m);
    } else {
      lo, hi := 0, 0;
    }
  }

  lemma MissInRuns(capacity: int, c: Minters, db: Address -> History, a: Address, q: nat, m: nat)
    requires capacity != 0 && AllStretches(c, db) && Ordered(db(a)) && IsLatest(ChangeTimes(db(a)), m, q)
    requires GetState(c, a, q).1.None?
    ensures Answers(RecentState(capacity, c, db(a), a, q).1, db(a), m)
  {
    StretchesAreBuilt(c, db);
    AnswerExactly(capacity, c, db, a, q, m);
  }

  lemma HitIsAnswered(capacity: int, c: Minters, h: History, a: Address, q: nat)
    requires capacity != 0 && GetState(c, a, q).1.Some?
    ensures RecentState(capacity, c, h, a, q).1 == Ok(GetState(c, a, q).1.value)
  {
  }

  /** A hit answers with what was found, a miss with the latest change. */
  lemma FoundIsAnswered(r: Answer, found: Option<AccountState>, h: History, lo: nat, hi: nat, m: nat)
    requires FoundIn(found, h, lo, hi, m)
    requires found.Some? ==> r == Ok(found.value)
    requires found.None? ==> Answers(r, h, m)
    ensures Answers(r, h, LastOr(lo, hi, m))
  {
  }

  lemma AnswerFromStretches(capacity: int, c: Minters, db: Address -> History, a: Address, q: nat, m: nat) returns (lo: nat, hi: nat)
    requires capacity != 0 && AllStretches(c, db) && Ordered(db(a)) && Rising(ChangeTimes(db(a))) && IsLatest(ChangeTimes(db(a)), m, q)
    ensures Held(c, db(a), a, lo, hi) && Answers(RecentState(capacity, c, db(a), a, q).1, db(a), LastOr(lo, hi, m))
  {
    lo, hi := FindInRuns(c, db, a, q, m);
    if GetState(c, a, q).1.None? {
      MissInRuns(capacity, c, db, a, q, m);
    } else {
      HitIsAnswered(capacity, c, db(a), a, q);
    }
    FoundIsAnswered(RecentState(capacity, c, db(a), a, q).1, GetState(c, a, q).1, db(a), lo, hi, m);
  }

  /**
   What any call in any run answers with, `m` being the latest change at or before its time.  If states of
   the address are held, they are a stretch of its changes, and if that ends before `m`, its last change is
   the answer, replaced though it is; in every other case the answer is the latest change itself.
   */
  lemma AnswerInRuns(capacity: int, db: Address -> History, calls: seq<Call>, a: Address, q: nat, m: nat) returns (lo: nat, hi: nat)
    requires capacity != 0 && (forall a :: Ordered(db(a))) && IsLatest(ChangeTimes(db(a)), m, q)
    ensures Held(After(capacity, db, calls), db(a), a, lo, hi)
    ensures Answers(RecentState(capacity, After(capacity, db, calls), db(a), a, q).1, db(a), LastOr(lo, hi, m))
  {
    RunsHoldStretches(capacity, db, calls);
    ChangesExactly(db(a));
    lo, hi := AnswerFromStretches(capacity, After(capacity, db, calls), db, a, q, m);
  }
}
