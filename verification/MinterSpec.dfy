/** What the cache of minter states holds and answers: per address, states by the time they took effect. */
module MinterSpec {
  import opened Counting
  import opened LruSpec
  import opened Wrappers

  type Address = nat

  datatype Hash = Empty | Hash(bits: nat)

  datatype AccountState = AccountState(lastTxLT: nat, code: Hash, data: Hash)

  /** A state and the time of the next one; 0 when no next one is known. */
  datatype MinterState = MinterState(acc: AccountState, nextTxLT: nat)

  const MAX_MINTER_STATES: int := 64

  type States = seq<Entry<nat, MinterState>>

  type Minters = seq<Entry<Address, States>>

  /** `put`: the states of one address count as one entry of the outer cache. */
  ghost function PutState(capacity: int, c: Minters, a: Address, state: AccountState, nextTxLT: nat): Minters
    requires capacity != 0
  {
    var m := MinterState(state, nextTxLT);
    if Has(c, a) then
      [Entry(a, Put(MAX_MINTER_STATES, c[Position(c, a)].data, state.lastTxLT, m))] + Drop(c, Position(c, a))
    else
      Put(capacity, c, a, Put(MAX_MINTER_STATES, [], state.lastTxLT, m))
  }

  // ------------------------------------------------------------------------- descending keys

  ghost predicate Descending(s: seq<nat>) {
    forall i, j :: 0 <= i < j < |s| ==> s[i] > s[j]
  }

  function InsertDown(s: seq<nat>, x: nat): (r: seq<nat>)
    ensures forall y :: y in r <==> y == x || y in s
    ensures Descending(s) && x !in s ==> Descending(r)
  {
    if s == [] || s[0] < x then [x] + s
    else
      assert forall y :: y in s <==> y == s[0] || y in s[1..];
      var rest := InsertDown(s[1..], x);
      assert forall j :: 0 <= j < |rest| ==> rest[j] in rest;
      [s[0]] + rest
  }

  function SortDown(s: seq<nat>): (r: seq<nat>)
    ensures forall y :: y in r <==> y in s
    ensures Distinct(s) ==> Descending(r)
  {
    if s == [] then []
    else
      assert forall y :: y in s <==> y == s[0] || y in s[1..];
      assert Distinct(s) ==> s[0] !in s[1..] && Distinct(s[1..]) by {
        if Distinct(s) { DistinctTail(s); }
      }
      InsertDown(SortDown(s[1..]), s[0])
  }

  /** The order in which the keys were collected does not matter. */
  lemma {:induction false} DescendingIsUnique(s: seq<nat>, t: seq<nat>)
    requires Descending(s) && Descending(t)
    requires forall y :: y in s <==> y in t
    ensures s == t
  {
    if s != [] {
      assert s[0] in t;
    }
    if t != [] {
      assert t[0] in s;
    }
    if s != [] && t != [] {
      assert s[0] == t[0];
      forall y
        ensures y in s[1..] <==> y in t[1..]
      {
        assert y in s <==> y == s[0] || y in s[1..];
        assert y in t <==> y == t[0] || y in t[1..];
        assert s[0] !in s[1..] && t[0] !in t[1..];
      }
      DescendingIsUnique(s[1..], t[1..]);
      assert s == [s[0]] + s[1..] && t == [t[0]] + t[1..];
    }
  }

  // ------------------------------------------------------------------------- get

  /** Whether a state that took effect at `lt` is still the one at `q`, as far as the cache knows. */
  predicate Covers(lt: nat, m: MinterState, q: nat) {
    lt <= q && !(m.nextTxLT != 0 && q > m.nextTxLT)
  }

  datatype Scanned = Scanned(states: States, found: Option<AccountState>)

  /**
   Tries the keys from the `i`th on, in order, touching each one at or before `q`, and stops at the
   first whose state covers `q`, or at a key that is not there.
   */
  ghost function Scan(c: States, lts: seq<nat>, i: nat, q: nat): Scanned
    decreases |lts| - i
  {
    if i >= |lts| then Scanned(c, None)
    else if lts[i] > q then Scan(c, lts, i + 1, q)
    else
      match Lookup(c, lts[i])
      case None => Scanned(c, None)
      case Some(m) =>
        if Covers(lts[i], m, q) then Scanned(Get(c, lts[i]), Some(m.acc)) else Scan(Get(c, lts[i]), lts, i + 1, q)
  }

  /** The keys are there to be tried. */
  ghost predicate Scannable(c: States, lts: seq<nat>) {
    DistinctKeys(c) && forall i :: 0 <= i < |lts| ==> Has(c, lts[i])
  }

  /** A get moves entries, and changes none. */
  lemma GetKeeps<K, V>(c: seq<Entry<K, V>>, k: K)
    requires DistinctKeys(c)
    ensures |Get(c, k)| == |c| && DistinctKeys(Get(c, k))
    ensures forall x :: x in Get(c, k) <==> x in c
    ensures forall x :: Has(Get(c, k), x) <==> Has(c, x)
  {
    if Has(c, k) {
      var i := Position(c, k);
      Moved(c, i);
      var c' := Get(c, k);
      forall x
        ensures Has(c', x) <==> Has(c, x)
      {
        if Has(c', x) {
          assert c[Front(i, Position(c', x))].key == x;
        }
        if Has(c, x) {
          assert c'[Back(i, Position(c, x))].key == x;
        }
      }
    }
  }

  /** Where position `j` was before position `i` was moved to the front, and where it went. */
  function Front(i: nat, j: nat): nat { if j == 0 then i else if j <= i then j - 1 else j }
  function Back(i: nat, j: nat): nat { if j == i then 0 else if j < i then j + 1 else j }

  lemma Moved<T>(c: seq<T>, i: nat)
    requires i < |c|
    ensures var c' := [c[i]] + Drop(c, i);
            && |c'| == |c|
            && (forall j: nat :: j < |c| ==> c'[j] == c[Front(i, j)])
            && (forall j: nat :: j < |c| ==> c[j] == c'[Back(i, j)])
  {
  }

  /** The keys of the states, latest first. */
  ghost function KeysDown(c: States): (lts: seq<nat>)
    ensures forall i :: 0 <= i < |lts| ==> Has(c, lts[i])
    ensures forall lt :: lt in lts <==> Has(c, lt)
  {
    var ks := Keys(c);
    assert forall k :: k in ks <==> Has(c, k) by {
      forall k | Has(c, k)
        ensures k in ks
      {
        assert ks[Position(c, k)] == k;
      }
    }
    SortDown(ks)
  }

  ghost function ScanDown(c: States, q: nat): Scanned {
    Scan(c, KeysDown(c), 0, q)
  }

  ghost predicate Sound(c: Minters) {
    DistinctKeys(c) && forall i :: 0 <= i < |c| ==> DistinctKeys(c[i].data)
  }

  /** `get`. */
  ghost function GetState(c: Minters, a: Address, q: nat): (r: (Minters, Option<AccountState>)) {
    if Has(c, a) then
      var s := ScanDown(c[Position(c, a)].data, q);
      ([Entry(a, s.states)] + Drop(c, Position(c, a)), s.found)
    else (c, None)
  }

  // ------------------------------------------------------------------------- what get finds

  /** The state was in effect at `q`, up to the moment the next one took effect. */
  predicate InEffect(e: Entry<nat, MinterState>, q: nat) {
    e.key <= q && (e.data.nextTxLT == 0 || q <= e.data.nextTxLT)
  }

  /** `i` is the latest of the held states in effect at `q`. */
  ghost predicate LatestCovering(c: States, q: nat, i: nat) {
    && i < |c| && InEffect(c[i], q)
    && forall j :: 0 <= j < |c| && InEffect(c[j], q) ==> c[j].key <= c[i].key
  }

  /** Of the entries under the keys from the `i`th on, `e` is the latest that covers `q`. */
  ghost predicate FirstCovering(c: States, lts: seq<nat>, i: nat, q: nat, e: Entry<nat, MinterState>) {
    && e in c && i <= |lts| && e.key in lts[i..] && InEffect(e, q)
    && forall x :: x in c && x.key in lts[i..] && InEffect(x, q) ==> x.key <= e.key
  }

  lemma {:induction false} ScanKeeps(c: States, lts: seq<nat>, i: nat, q: nat)
    requires Scannable(c, lts)
    ensures var c' := Scan(c, lts, i, q).states;
            |c'| == |c| && DistinctKeys(c') && forall x :: x in c' <==> x in c
    decreases |lts| - i
  {
    if i < |lts| {
      GetKeeps(c, lts[i]);
      if lts[i] > q {
        ScanKeeps(c, lts, i + 1, q);
      } else if !Covers(lts[i], c[Position(c, lts[i])].data, q) {
        ScanKeeps(Get(c, lts[i]), lts, i + 1, q);
      }
    }
  }

  /** The scan answers with the first key in line that covers `q`. */
  lemma {:induction false} ScanFinds(c: States, lts: seq<nat>, i: nat, q: nat)
    requires Scannable(c, lts) && Descending(lts) && i <= |lts|
    ensures match Scan(c, lts, i, q).found
            case Some(acc) => exists e :: FirstCovering(c, lts, i, q, e) && e.data.acc == acc
            case None => forall x :: x in c && x.key in lts[i..] ==> !InEffect(x, q)
    decreases |lts| - i
  {
    if i < |lts| {
      var k := lts[i];
      var e := c[Position(c, k)];
      if k <= q && Covers(k, e.data, q) {
        FirstIsLatest(c, lts, i, q, e);
      } else {
        GetKeeps(c, k);
        var d := if k > q then c else Get(c, k);
        ScanFinds(d, lts, i + 1, q);
        NotTheFirst(c, d, lts, i, q, e);
      }
    }
  }

  lemma FirstIsLatest(c: States, lts: seq<nat>, i: nat, q: nat, e: Entry<nat, MinterState>)
    requires Scannable(c, lts) && Descending(lts) && i < |lts|
    requires e in c && e.key == lts[i] && InEffect(e, q)
    ensures FirstCovering(c, lts, i, q, e)
  {
    assert lts[i..][0] == e.key;
  }

  /** A key that does not cover `q` may be passed over. */
  lemma NotTheFirst(c: States, d: States, lts: seq<nat>, i: nat, q: nat, e: Entry<nat, MinterState>)
    requires DistinctKeys(c) && (forall x :: x in d <==> x in c) && i < |lts|
    requires e in c && e.key == lts[i] && !InEffect(e, q)
    ensures forall x :: x in c && x.key in lts[i..] && InEffect(x, q) ==> x.key in lts[i + 1..]
    ensures forall f :: FirstCovering(d, lts, i + 1, q, f) ==> FirstCovering(c, lts, i, q, f)
  {
    assert lts[i..] == [lts[i]] + lts[i + 1..];
    forall x | x in c && x.key in lts[i..] && InEffect(x, q)
      ensures x.key in lts[i + 1..]
    {
      var y: nat, z: nat :| y < |c| && c[y] == x && z < |c| && c[z] == e;
      assert x.key != lts[i];
    }
  }

  lemma ScanDownFinds(held: States, q: nat)
    requires DistinctKeys(held)
    ensures match ScanDown(held, q).found
            case Some(acc) => exists i: nat :: LatestCovering(held, q, i) && held[i].data.acc == acc
            case None => forall i :: 0 <= i < |held| ==> !InEffect(held[i], q)
  {
    var lts := KeysDown(held);
    KeysAreDistinct(held);
    ScanFinds(held, lts, 0, q);
    assert lts[0..] == lts;
    assert forall i :: 0 <= i < |held| ==> held[i] in held && held[i].key in lts;
    var found := ScanDown(held, q).found;
    if found.Some? {
      var e :| FirstCovering(held, lts, 0, q, e) && e.data.acc == found.value;
      var i: nat :| i < |held| && held[i] == e;
      assert LatestCovering(held, q, i);
    }
  }

  /**
   A get answers with the latest held state that covers the time asked for, whatever was touched
   before; it misses if and only if no held state covers it.
   */
  lemma GetStateFinds(c: Minters, a: Address, q: nat)
    requires Sound(c) && Has(c, a)
    ensures var held := c[Position(c, a)].data;
            match GetState(c, a, q).1
            case Some(acc) => exists i: nat :: LatestCovering(held, q, i) && held[i].data.acc == acc
            case None => forall i :: 0 <= i < |held| ==> !InEffect(held[i], q)
  {
    ScanDownFinds(c[Position(c, a)].data, q);
  }

  lemma KeysAreDistinct<K, V>(c: seq<Entry<K, V>>)
    requires DistinctKeys(c)
    ensures Distinct(Keys(c))
    decreases |c|
  {
    if c != [] {
      KeysAreDistinct(c[..|c| - 1]);
      assert Keys(c)[..|c| - 1] == Keys(c[..|c| - 1]);
    }
  }
}
