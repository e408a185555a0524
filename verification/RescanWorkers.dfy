/** Handing a slice out to workers, and finding where the scan got to. */
module RescanWorkers {
  import opened Counting

  // ------------------------------------------------------------------------- cutting

  function Min(a: nat, b: nat): nat { if a < b then a else b }

  /** The length of the next of `workers` batches out of `n` items: an even share, rounded up. */
  function BatchLen(n: nat, workers: nat): (len: nat)
    requires workers > 0
  {
    n / workers + if n % workers != 0 then 1 else 0
  }

  lemma Times(w: nat, x: int, y: int)
    ensures x <= y ==> w * x <= w * y
  {
  }

  lemma DivMod(q: nat, r: nat, w: nat)
    requires r < w
    ensures (q * w + r) / w == q && (q * w + r) % w == r
  {
    var n := q * w + r;
    assert n == w * (n / w) + n % w;
    Times(w, n / w, q - 1);
    Times(w, q + 1, n / w);
  }

  /** `q` for each of `w`. */
  ghost function ForEach(q: nat, w: nat): nat {
    if w == 0 then 0 else q + ForEach(q, w - 1)
  }

  lemma {:induction false} ForEachIsTimes(q: nat, w: nat)
    ensures ForEach(q, w) == q * w
  {
    if w > 0 {
      ForEachIsTimes(q, w - 1);
    }
  }

  /** `rest` items are `q` for each of `w` workers, and `over` more. */
  ghost predicate Shares(rest: int, q: nat, over: nat, w: nat) {
    rest == ForEach(q, w) + over && (over < w || over == w == 0)
  }

  lemma FirstShares(n: nat, w: nat) returns (q: nat, over: nat)
    requires 0 < w <= n
    ensures q == n / w && over == n % w && Shares(n, q, over, w) && q >= 1
  {
    q, over := n / w, n % w;
    ForEachIsTimes(q, w);
    Times(w, q, 0);
  }

  lemma NothingLeft(q: nat, over: nat, w: nat)
    requires Shares(0, q, over, w) && q >= 1
    ensures w == 0
  {
  }

  /** A batch takes an even share, and leaves even shares. */
  lemma ShareTaken(rest: nat, q: nat, over: nat, w: nat) returns (len: nat, over': nat)
    requires Shares(rest, q, over, w) && w > 0
    ensures len == BatchLen(rest, w) == q + (if over > 0 then 1 else 0) && len <= rest
    ensures over' == (if over > 0 then over - 1 else 0) && Shares(rest - len, q, over', w - 1)
  {
    ForEachIsTimes(q, w);
    DivMod(q, over, w);
    len, over' := BatchLen(rest, w), if over > 0 then over - 1 else 0;
  }

  lemma NoWorkersLeft(rest: nat, q: nat, over: nat, w: nat)
    requires Shares(rest, q, over, w) && rest > 0
    ensures w > 0
  {
  }

  /** With `q` items a worker and `r` over, the first `r` batches take one more. */
  ghost predicate EvenShares<V>(batches: seq<seq<V>>, q: nat, r: nat) {
    forall k :: 0 <= k < |batches| ==> |batches[k]| == if k < r then q + 1 else q
  }

  function Flatten<V>(batches: seq<seq<V>>): seq<V> {
    if batches == [] then [] else Flatten(batches[..|batches| - 1]) + batches[|batches| - 1]
  }

  /**
   As many batches as there are workers, or as there are items if these are fewer: consecutive, none
   empty, and as even as they can be.
   */
  method Cut<V>(slice: seq<V>, workers: nat) returns (batches: seq<seq<V>>)
    requires workers > 0
    ensures Flatten(batches) == slice && |batches| == Min(workers, |slice|)
    ensures forall k :: 0 <= k < |batches| ==> batches[k] != []
    ensures slice != [] ==> EvenShares(batches, |slice| / |batches|, |slice| % |batches|)
  {
    var w: nat := workers;
    if |slice| < w {
      w := |slice|;
    }
    batches := [];
    if slice == [] {
      return;
    }
    ghost var all := w;
    ghost var q, over := FirstShares(|slice|, w);
    ghost var r := over;
    var i: nat := 0;
    while i < |slice|
      invariant i <= |slice| && |batches| + w == all && over == (if |batches| < r then r - |batches| else 0)
      invariant Shares(|slice| - i, q, over, w)
      invariant Flatten(batches) == slice[..i]
      invariant EvenShares(batches, q, r)
      decreases w
    {
      NoWorkersLeft(|slice| - i, q, over, w);
      ghost var len, over' := ShareTaken(|slice| - i, q, over, w);
      var batchLen := BatchLen(|slice| - i, w);
      var batch := slice[i..i + batchLen];
      Appended(batches, batch, q, r);
      assert slice[..i] + batch == slice[..i + batchLen];
      batches := batches + [batch];
      i := i + batchLen;
      w := w - 1;
      over := over';
    }
    assert slice[..|slice|] == slice;
    NothingLeft(q, over, w);
  }

  lemma Appended<V>(batches: seq<seq<V>>, batch: seq<V>, q: nat, r: nat)
    requires EvenShares(batches, q, r) && |batch| == if |batches| < r then q + 1 else q
    ensures EvenShares(batches + [batch], q, r)
    ensures Flatten(batches + [batch]) == Flatten(batches) + batch
  {
    assert (batches + [batch])[..|batches|] == batches;
  }

  // ------------------------------------------------------------------------- collecting

  /** How often `v` is among the updates of all batches. */
  function Total<V(==)>(batches: seq<seq<V>>, work: seq<V> -> seq<V>, v: V): nat {
    if batches == [] then 0 else Total(batches[..|batches| - 1], work, v) + Count(work(batches[|batches| - 1]), v)
  }

  lemma {:induction false} TotalOfBoth<V>(a: seq<seq<V>>, b: seq<seq<V>>, work: seq<V> -> seq<V>, v: V)
    ensures Total(a + b, work, v) == Total(a, work, v) + Total(b, work, v)
    decreases |b|
  {
    if b == [] {
      assert a + b == a;
    } else {
      assert (a + b)[..|a + b| - 1] == a + b[..|b| - 1];
      TotalOfBoth(a, b[..|b| - 1], work, v);
    }
  }

  lemma TotalOfMiddle<V>(a: seq<seq<V>>, batch: seq<V>, b: seq<seq<V>>, work: seq<V> -> seq<V>, v: V)
    ensures Total(a + [batch] + b, work, v) == Total(a + b, work, v) + Count(work(batch), v)
  {
    TotalOfBoth(a + [batch], b, work, v);
    TotalOfBoth(a, b, work, v);
    assert (a + [batch])[..|a|] == a;
  }

  lemma SplitAt<T>(s: seq<T>, k: nat)
    requires k < |s|
    ensures s == s[..k] + [s[k]] + s[k + 1..]
  {
  }

  lemma TotalWithout<V>(batches: seq<seq<V>>, k: nat, work: seq<V> -> seq<V>, v: V)
    requires k < |batches|
    ensures Total(batches, work, v) == Total(batches[..k] + batches[k + 1..], work, v) + Count(work(batches[k]), v)
  {
    SplitAt(batches, k);
    TotalOfMiddle(batches[..k], batches[k], batches[k + 1..], work, v);
  }

  /** The workers finish in any order; their updates are appended as they come. */
  method Collect<V(!new)>(batches: seq<seq<V>>, work: seq<V> -> seq<V>) returns (updatesAll: seq<V>)
    ensures forall v :: Count(updatesAll, v) == Total(batches, work, v)
  {
    updatesAll := [];
    var running := batches;
    while running != []
      invariant forall v :: Count(updatesAll, v) + Total(running, work, v) == Total(batches, work, v)
      decreases |running|
    {
      var k: nat :| k < |running|;
      forall v
        ensures Count(updatesAll + work(running[k]), v) + Total(running[..k] + running[k + 1..], work, v) == Total(batches, work, v)
      {
        TotalWithout(running, k, work, v);
        CountOfBoth(updatesAll, work(running[k]), v);
      }
      updatesAll := updatesAll + work(running[k]);
      running := running[..k] + running[k + 1..];
    }
  }

  /** A worker that treats its items one by one. */
  ghost predicate OneByOne<V(!new)>(work: seq<V> -> seq<V>) {
    work([]) == [] && forall a, b :: work(a + b) == work(a) + work(b)
  }

  /** Such workers together update exactly what one of them would, given everything. */
  lemma {:induction false} SameAsOneWorker<V(!new)>(batches: seq<seq<V>>, work: seq<V> -> seq<V>, v: V)
    requires OneByOne(work)
    ensures Total(batches, work, v) == Count(work(Flatten(batches)), v)
  {
    if batches != [] {
      var init, last := batches[..|batches| - 1], batches[|batches| - 1];
      SameAsOneWorker(init, work, v);
      assert work(Flatten(init) + last) == work(Flatten(init)) + work(last);
      CountOfBoth(work(Flatten(init)), work(last), v);
    }
  }

  // ------------------------------------------------------------------------- where the scan got to

  /** The id of an account's state; addresses are ordered as the numbers their bytes spell. */
  datatype Id = Id(address: nat, lastTxLT: nat)

  const NO_ID := Id(0, 0)

  predicate Before(a: Id, b: Id) {
    a.address < b.address || (a.address == b.address && a.lastTxLT < b.lastTxLT)
  }

  function Advance(last: Id, id: Id): Id {
    if last.address <= id.address || last.lastTxLT <= id.lastTxLT then id else last
  }

  function LastParsed(rows: seq<Id>): Id {
    if rows == [] then NO_ID else Advance(LastParsed(rows[..|rows| - 1]), rows[|rows| - 1])
  }

  /** Hands the rows out, collects the updates, and finds the last row parsed. */
  method RescanStartWorkers<V(!new)>(slice: seq<V>, getID: V -> Id, work: seq<V> -> seq<V>, workers: nat)
    returns (updatesAll: seq<V>, lastParsed: Id, ghost batches: seq<seq<V>>)
    requires workers > 0
    ensures Flatten(batches) == slice && |batches| == Min(workers, |slice|)
    ensures forall v :: Count(updatesAll, v) == Total(batches, work, v)
    ensures OneByOne(work) ==> forall v :: Count(updatesAll, v) == Count(work(slice), v)
    ensures lastParsed == LastParsed(Ids(slice, getID))
  {
    var cut := Cut(slice, workers);
    batches := cut;
    updatesAll := Collect(cut, work);
    if OneByOne(work) {
      forall v
        ensures Count(updatesAll, v) == Count(work(slice), v)
      {
        SameAsOneWorker(batches, work, v);
      }
    }
    lastParsed := NO_ID;
    var it: nat := 0;
    while it < |slice|
      invariant it <= |slice| && lastParsed == LastParsed(Ids(slice, getID)[..it])
    {
      var vID := getID(slice[it]);
      assert Ids(slice, getID)[..it + 1][..it] == Ids(slice, getID)[..it];
      if lastParsed.address <= vID.address || lastParsed.lastTxLT <= vID.lastTxLT {
        lastParsed := vID;
      }
      it := it + 1;
    }
    assert Ids(slice, getID)[..|slice|] == Ids(slice, getID);
  }

  function Ids<V>(slice: seq<V>, getID: V -> Id): (ids: seq<Id>)
    ensures |ids| == |slice| && forall k :: 0 <= k < |ids| ==> ids[k] == getID(slice[k])
  {
    seq(|slice|, k requires 0 <= k < |slice| => getID(slice[k]))
  }

  ghost predicate DistinctIds(rows: seq<Id>) {
    forall i, j :: 0 <= i < j < |rows| ==> rows[i] != rows[j]
  }

  /** `m` is the greatest row. */
  ghost predicate IsGreatest(rows: seq<Id>, m: nat) {
    m < |rows| && forall j :: 0 <= j < |rows| && j != m ==> Before(rows[j], rows[m])
  }

  /** After the greatest row come only rows smaller in both parts. */
  ghost predicate OnlySmallerAfter(rows: seq<Id>, m: nat) {
    forall j :: m < j < |rows| ==> rows[j].address < rows[m].address && rows[j].lastTxLT < rows[m].lastTxLT
  }

  /** Of distinct rows there is a greatest one. */
  lemma {:induction false} Greatest(rows: seq<Id>) returns (m: nat)
    requires rows != [] && DistinctIds(rows)
    ensures IsGreatest(rows, m)
  {
    var n := |rows| - 1;
    if n == 0 {
      m := 0;
    } else {
      assert forall j :: 0 <= j < n ==> rows[..n][j] == rows[j];
      m := Greatest(rows[..n]);
      if Before(rows[m], rows[n]) { m := n; }
    }
  }

  lemma {:induction false} LastParsedIsARow(rows: seq<Id>) returns (k: nat)
    requires rows != []
    ensures k < |rows| && rows[k] == LastParsed(rows)
  {
    var n := |rows| - 1;
    if Advance(LastParsed(rows[..n]), rows[n]) == rows[n] {
      k := n;
    } else {
      assert rows[..0] == [];
      k := LastParsedIsARow(rows[..n]);
    }
  }

  /**
   The row the scan got to is the greatest one if and only if every row after that one is smaller in
   both address and time.
   */
  lemma {:induction false} GreatestIsParsedExactly(rows: seq<Id>, m: nat)
    requires IsGreatest(rows, m)
    ensures LastParsed(rows) == rows[m] <==> OnlySmallerAfter(rows, m)
  {
    var n := |rows| - 1;
    if m == n {
      if rows[..n] != [] {
        var k := LastParsedIsARow(rows[..n]);
        assert Before(rows[k], rows[m]);
      }
    } else {
      assert forall j :: 0 <= j < n ==> rows[..n][j] == rows[j];
      GreatestIsParsedExactly(rows[..n], m);
      assert Before(rows[n], rows[m]);
    }
  }

  /** Rows out of order: the scan falls back behind a row it has parsed. */
  lemma ScanFallsBack()
    ensures var rows := [Id(1, 9), Id(2, 5), Id(1, 7)];
            IsGreatest(rows, 1) && LastParsed(rows) == Id(1, 7) && Before(LastParsed(rows), rows[0])
  {
    var rows := [Id(1, 9), Id(2, 5), Id(1, 7)];
    assert rows[..1][..0] == [];
    assert LastParsed(rows[..1]) == Id(1, 9);
    assert rows[..2][..1] == rows[..1];
    assert LastParsed(rows[..2]) == Id(2, 5);
  }
}
