/** What a least-recently-used cache holds, as a list of entries from most to least recently touched. */
module LruSpec {
  import opened Counting
  import opened Wrappers

  datatype Entry<K, V> = Entry(key: K, data: V)

  function Keys<K, V>(c: seq<Entry<K, V>>): (ks: seq<K>)
    ensures |ks| == |c| && forall i :: 0 <= i < |c| ==> ks[i] == c[i].key
  {
    seq(|c|, i requires 0 <= i < |c| => c[i].key)
  }

  ghost predicate Has<K, V>(c: seq<Entry<K, V>>, k: K) {
    exists i :: 0 <= i < |c| && c[i].key == k
  }

  ghost predicate DistinctKeys<K, V>(c: seq<Entry<K, V>>) {
    forall i, j :: 0 <= i < j < |c| ==> c[i].key != c[j].key
  }

  ghost function Position<K, V>(c: seq<Entry<K, V>>, k: K): (i: nat)
    requires Has(c, k)
    ensures i < |c| && c[i].key == k
  {
    var i :| 0 <= i < |c| && c[i].key == k;
    i
  }

  ghost function Lookup<K, V>(c: seq<Entry<K, V>>, k: K): Option<V> {
    if Has(c, k) then Some(c[Position(c, k)].data) else None
  }

  /** The entries except the one at position `i`. */
  function Drop<T>(c: seq<T>, i: nat): seq<T>
    requires i < |c|
  {
    c[..i] + c[i + 1..]
  }

  /** Without room for a single entry, nothing can be put into an empty cache. */
  ghost function Put<K, V>(capacity: int, c: seq<Entry<K, V>>, k: K, v: V): seq<Entry<K, V>>
    requires capacity != 0 || c != []
  {
    if Has(c, k) then [Entry(k, v)] + Drop(c, Position(c, k))
    else if capacity == |c| then [Entry(k, v)] + c[..|c| - 1]
    else [Entry(k, v)] + c
  }

  ghost function Get<K, V>(c: seq<Entry<K, V>>, k: K): seq<Entry<K, V>> {
    if Has(c, k) then [c[Position(c, k)]] + Drop(c, Position(c, k)) else c
  }

  // ------------------------------------------------------------------------- whole histories

  datatype Op<K, V> = PutOp(key: K, data: V) | GetOp(key: K)

  ghost function Run<K, V>(capacity: int, ops: seq<Op<K, V>>): seq<Entry<K, V>>
    requires capacity != 0
  {
    if ops == [] then []
    else
      var c := Run(capacity, ops[..|ops| - 1]);
      match ops[|ops| - 1]
      case PutOp(k, v) => Put(capacity, c, k, v)
      case GetOp(k) => Get(c, k)
  }

  /** The keys touched, in order: every put, and every get that hits. */
  ghost function Touches<K, V>(capacity: int, ops: seq<Op<K, V>>): seq<K>
    requires capacity != 0
  {
    if ops == [] then []
    else
      var init, op := ops[..|ops| - 1], ops[|ops| - 1];
      if op.PutOp? || Has(Run(capacity, init), op.key) then Touches(capacity, init) + [op.key] else Touches(capacity, init)
  }

  function Without<K(==)>(ks: seq<K>, k: K): seq<K> {
    if ks == [] then [] else if ks[0] == k then Without(ks[1..], k) else [ks[0]] + Without(ks[1..], k)
  }

  /** All keys ever touched, the last touched first. */
  function Recency<K(==)>(touches: seq<K>): seq<K> {
    if touches == [] then []
    else
      var k := touches[|touches| - 1];
      [k] + Without(Recency(touches[..|touches| - 1]), k)
  }

  lemma {:induction false} WithoutAbsent<K>(ks: seq<K>, k: K)
    requires k !in ks
    ensures Without(ks, k) == ks
  {
    if ks != [] {
      assert ks[0] in ks;
      WithoutAbsent(ks[1..], k);
    }
  }

  lemma {:induction false} WithoutDrops<K>(ks: seq<K>, k: K, i: nat)
    requires Distinct(ks) && i < |ks| && ks[i] == k
    ensures Without(ks, k) == Drop(ks, i)
    decreases |ks|
  {
    DistinctTail(ks);
    if i == 0 {
      WithoutAbsent(ks[1..], k);
      assert Drop(ks, 0) == ks[1..];
    } else {
      WithoutDrops(ks[1..], k, i - 1);
      assert ks[1..][i - 1] == k;
      assert Drop(ks, i) == [ks[0]] + Drop(ks[1..], i - 1);
    }
  }

  lemma {:induction false} WithoutMembers<K>(ks: seq<K>, k: K)
    ensures forall x :: x in Without(ks, k) <==> x in ks && x != k
    ensures Distinct(ks) ==> Distinct(Without(ks, k))
  {
    if ks != [] {
      WithoutMembers(ks[1..], k);
      assert forall x :: x in ks <==> x == ks[0] || x in ks[1..];
      if Distinct(ks) {
        DistinctTail(ks);
        DistinctFirst(ks[0], Without(ks[1..], k));
      }
    }
  }

  lemma {:induction false} RecencyMembers<K>(touches: seq<K>)
    ensures Distinct(Recency(touches))
    ensures forall x :: x in Recency(touches) <==> x in touches
  {
    if touches != [] {
      var init, k := touches[..|touches| - 1], touches[|touches| - 1];
      assert touches == init + [k];
      RecencyMembers(init);
      WithoutMembers(Recency(init), k);
      DistinctFirst(k, Without(Recency(init), k));
    }
  }

  function Take<T>(s: seq<T>, n: int): (r: seq<T>)
    requires n >= 0
    ensures |r| <= n && |r| <= |s| && r == s[..|r|] && (|r| == n || |r| == |s|)
  {
    if n < |s| then s[..n] else s
  }

  lemma TakePushed<K>(r: seq<K>, k: K, n: int)
    requires n >= 1
    ensures Take([k] + r, n) == [k] + Take(r, n - 1)
  {
  }

  lemma DropWithin<K>(ks: seq<K>, i: nat, n: nat)
    requires i < n <= |ks|
    ensures Drop(ks, i)[..n - 1] == Drop(ks[..n], i)
  {
  }

  /** Touching a key among the first `n` of a list only moves it within them. */
  lemma TouchWithin<K>(ks: seq<K>, k: K, n: int, i: nat)
    requires n >= 1 && Distinct(ks) && i < |Take(ks, n)| && ks[i] == k
    ensures Take([k] + Without(ks, k), n) == [k] + Drop(Take(ks, n), i)
  {
    WithoutDrops(ks, k, i);
    TakePushed(Drop(ks, i), k, n);
    if n < |ks| {
      DropWithin(ks, i, n);
    }
  }

  lemma TakeDropped<K>(ks: seq<K>, i: nat, n: nat)
    requires n < i + 1 <= |ks|
    ensures Take(Drop(ks, i), n) == Take(ks, n)
  {
  }

  /** Touching any other key pushes out the last of them. */
  lemma TouchBeyond<K>(ks: seq<K>, k: K, n: int)
    requires n >= 1 && Distinct(ks) && forall p :: 0 <= p < |ks| && p < n ==> ks[p] != k
    ensures Take([k] + Without(ks, k), n) == [k] + Take(ks, n - 1)
  {
    TakePushed(Without(ks, k), k, n);
    if i: nat :| i < |ks| && ks[i] == k {
      WithoutDrops(ks, k, i);
      TakeDropped(ks, i, n - 1);
    } else {
      WithoutAbsent(ks, k);
    }
  }

  /**
   The cache holds the keys that were touched most recently, most recent first, as many as fit;
   so an insertion into a full cache drops exactly the least recently touched key.
   */
  lemma {:induction false} HoldsMostRecent<K, V>(capacity: int, ops: seq<Op<K, V>>)
    requires capacity >= 1
    ensures Keys(Run(capacity, ops)) == Take(Recency(Touches(capacity, ops)), capacity)
    ensures DistinctKeys(Run(capacity, ops)) && |Run(capacity, ops)| <= capacity
  {
    if ops != [] {
      var init, op := ops[..|ops| - 1], ops[|ops| - 1];
      HoldsMostRecent(capacity, init);
      if op.PutOp? || Has(Run(capacity, init), op.key) {
        OneTouch(capacity, Run(capacity, init), Touches(capacity, init), op);
      }
    }
    var t := Touches(capacity, ops);
    RecencyMembers(t);
    DistinctPrefix(Recency(t), |Take(Recency(t), capacity)|);
    KeysDistinct(Run(capacity, ops));
  }

  lemma OneTouch<K, V>(capacity: int, c: seq<Entry<K, V>>, touches: seq<K>, op: Op<K, V>)
    requires capacity >= 1 && Keys(c) == Take(Recency(touches), capacity)
    requires op.PutOp? || Has(c, op.key)
    ensures Keys(if op.PutOp? then Put(capacity, c, op.key, op.data) else Get(c, op.key))
         == Take(Recency(touches + [op.key]), capacity)
  {
    RecencyMembers(touches);
    assert (touches + [op.key])[..|touches|] == touches;
    if Has(c, op.key) {
      OneHit(capacity, c, Recency(touches), op);
    } else {
      OneMiss(capacity, c, Recency(touches), op.key, op.data);
    }
  }

  lemma OneHit<K, V>(capacity: int, c: seq<Entry<K, V>>, r: seq<K>, op: Op<K, V>)
    requires capacity >= 1 && Distinct(r) && Keys(c) == Take(r, capacity) && Has(c, op.key)
    ensures Keys(if op.PutOp? then Put(capacity, c, op.key, op.data) else Get(c, op.key))
         == Take([op.key] + Without(r, op.key), capacity)
  {
    var i := Position(c, op.key);
    assert Keys(c)[i] == op.key;
    TouchWithin(r, op.key, capacity, i);
    KeysMoved(c, if op.PutOp? then Entry(op.key, op.data) else c[i], i);
  }

  lemma KeysMoved<K, V>(c: seq<Entry<K, V>>, front: Entry<K, V>, i: nat)
    requires i < |c|
    ensures Keys([front] + Drop(c, i)) == [front.key] + Drop(Keys(c), i)
  {
  }

  lemma KeysPushed<K, V>(c: seq<Entry<K, V>>, front: Entry<K, V>, n: nat)
    requires n <= |c|
    ensures Keys([front] + c[..n]) == [front.key] + Keys(c)[..n]
  {
  }

  lemma OneMiss<K, V>(capacity: int, c: seq<Entry<K, V>>, r: seq<K>, k: K, v: V)
    requires capacity >= 1 && Distinct(r) && Keys(c) == Take(r, capacity) && !Has(c, k)
    ensures Keys(Put(capacity, c, k, v)) == Take([k] + Without(r, k), capacity)
  {
    assert forall p :: 0 <= p < |Keys(c)| ==> r[p] == Keys(c)[p] == c[p].key;
    TouchBeyond(r, k, capacity);
    var n := if |c| == capacity then capacity - 1 else |c|;
    KeysPushed(c, Entry(k, v), n);
    assert c[..|c|] == c;
    assert Keys(c)[..n] == Take(r, capacity - 1);
  }

  lemma KeysDistinct<K, V>(c: seq<Entry<K, V>>)
    requires Distinct(Keys(c))
    ensures DistinctKeys(c)
  {
    forall i, j | 0 <= i < j < |c|
      ensures c[i].key != c[j].key
    {
      DistinctPair(Keys(c), i, j);
    }
  }

  /** The keys touched after the last touch of `k`. */
  ghost function TouchedSince<K>(touches: seq<K>, k: K): set<K> {
    if touches == [] || touches[|touches| - 1] == k then {}
    else TouchedSince(touches[..|touches| - 1], k) + {touches[|touches| - 1]}
  }

  /** In recency order, a key stands right after the keys touched since. */
  lemma {:induction false} RecencyPosition<K>(touches: seq<K>, k: K) returns (i: nat)
    requires k in touches
    ensures i < |Recency(touches)| && Recency(touches)[i] == k
    ensures forall x :: x in Recency(touches)[..i] <==> x in TouchedSince(touches, k)
  {
    var init, x := touches[..|touches| - 1], touches[|touches| - 1];
    assert touches == init + [x];
    if x == k {
      return 0;
    }
    var j := RecencyPosition(init, k);
    RecencyMembers(init);
    i := ShiftedPosition(Recency(init), x, j);
    assert forall y :: y in Recency(touches)[..i] <==> y == x || y in Recency(init)[..j];
  }

  /** Where position `j` goes when another key `x` is touched. */
  lemma ShiftedPosition<K>(r: seq<K>, x: K, j: nat) returns (i: nat)
    requires Distinct(r) && j < |r| && r[j] != x
    ensures i < |[x] + Without(r, x)| && ([x] + Without(r, x))[i] == r[j]
    ensures forall y :: y in ([x] + Without(r, x))[..i] <==> y == x || y in r[..j]
  {
    var r' := [x] + Without(r, x);
    if p :| 0 <= p < j && r[p] == x {
      WithoutDrops(r, x, p);
      i := j;
      assert r'[..i] == [x] + r[..p] + r[p + 1..j];
      assert r[..j] == r[..p] + [x] + r[p + 1..j];
    } else {
      i := j + 1;
      if x in r {
        var p :| 0 <= p < |r| && r[p] == x;
        WithoutDrops(r, x, p);
      } else {
        WithoutAbsent(r, x);
      }
      assert r'[..i] == [x] + r[..j];
    }
  }

  lemma {:induction false} PrefixSize<K>(ks: seq<K>, i: nat, s: set<K>)
    requires Distinct(ks) && i <= |ks| && forall x :: x in ks[..i] <==> x in s
    ensures i == |s|
    decreases i
  {
    if i > 0 {
      var last := ks[i - 1];
      assert ks[..i] == ks[..i - 1] + [last];
      assert last !in ks[..i - 1] by {
        forall p | 0 <= p < i - 1
          ensures ks[p] != last
        {
          DistinctPair(ks, p, i - 1);
        }
      }
      PrefixSize(ks, i - 1, s - {last});
    } else {
      assert s == {};
    }
  }

  lemma HeldByPosition<K, V>(c: seq<Entry<K, V>>, r: seq<K>, n: nat, k: K, i: nat)
    requires Keys(c) == Take(r, n) && Distinct(r) && i < |r| && r[i] == k
    ensures Has(c, k) <==> i < n
  {
    if i < n {
      assert c[i].key == Keys(c)[i] == k;
    } else if Has(c, k) {
      assert Keys(c)[Position(c, k)] == r[Position(c, k)];
      DistinctPair(r, Position(c, k), i);
    }
  }

  lemma HeldIsTouched<K, V>(c: seq<Entry<K, V>>, r: seq<K>, n: nat, k: K)
    requires Keys(c) == Take(r, n) && Has(c, k)
    ensures k in r
  {
    assert Keys(c)[Position(c, k)] == r[Position(c, k)];
  }

  /** A key is held if and only if it was touched and fewer than `capacity` other keys were touched since. */
  lemma HeldExactly<K, V>(capacity: int, ops: seq<Op<K, V>>, k: K)
    requires capacity >= 1
    ensures Has(Run(capacity, ops), k)
       <==> k in Touches(capacity, ops) && |TouchedSince(Touches(capacity, ops), k)| < capacity
  {
    HoldsMostRecent(capacity, ops);
    var c, t := Run(capacity, ops), Touches(capacity, ops);
    RecencyMembers(t);
    if k in t {
      var i := RecencyPosition(t, k);
      PrefixSize(Recency(t), i, TouchedSince(t, k));
      HeldByPosition(c, Recency(t), capacity, k, i);
    } else if Has(c, k) {
      HeldIsTouched(c, Recency(t), capacity, k);
    }
  }

  /** What was put last under a key. */
  ghost function LastPut<K, V>(ops: seq<Op<K, V>>, k: K): Option<V> {
    if ops == [] then None
    else
      match ops[|ops| - 1]
      case PutOp(x, v) => if x == k then Some(v) else LastPut(ops[..|ops| - 1], k)
      case GetOp(_) => LastPut(ops[..|ops| - 1], k)
  }

  /** Whatever the cache still holds is what was put last. */
  lemma {:induction false} HoldsLastPut<K, V>(capacity: int, ops: seq<Op<K, V>>)
    requires capacity >= 1
    ensures forall i :: 0 <= i < |Run(capacity, ops)| ==> LastPut(ops, Run(capacity, ops)[i].key) == Some(Run(capacity, ops)[i].data)
  {
    if ops != [] {
      HoldsLastPut(capacity, ops[..|ops| - 1]);
      HoldsMostRecent(capacity, ops[..|ops| - 1]);
    }
  }
}
