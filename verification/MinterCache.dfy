/** The cache of minter states: a least-recently-used cache per address, inside another one. */
module MinterCache {
  import opened Lru
  import opened LruSpec
  import opened MinterSpec
  import opened Wrappers

  /** The same entries in the same order, with other data under their keys. */
  ghost function WithData<K, V, W>(c: seq<Entry<K, V>>, data: map<K, W>): (r: seq<Entry<K, W>>)
    requires Covered(c, data)
    ensures |r| == |c| && forall i :: 0 <= i < |c| ==> r[i] == Entry(c[i].key, data[c[i].key])
  {
    seq(|c|, i requires 0 <= i < |c| => Entry(c[i].key, data[c[i].key]))
  }

  lemma SamePosition<K, V, W>(c: seq<Entry<K, V>>, data: map<K, W>, k: K)
    requires DistinctKeys(c) && Covered(c, data)
    ensures var r := WithData(c, data);
            DistinctKeys(r) && (Has(r, k) <==> Has(c, k)) && (Has(c, k) ==> Position(r, k) == Position(c, k))
  {
    var r := WithData(c, data);
    if Has(c, k) {
      assert r[Position(c, k)].key == k;
      assert c[Position(r, k)].key == k;
    }
  }

  ghost predicate Covered<K, V, W>(c: seq<Entry<K, V>>, data: map<K, W>) {
    forall i :: 0 <= i < |c| ==> c[i].key in data
  }

  lemma PushData<K, V, W>(rest: seq<Entry<K, V>>, data: map<K, W>, k: K, v: V, w: W)
    requires Covered(rest, data) && !Has(rest, k)
    ensures Covered([Entry(k, v)] + rest, data[k := w])
    ensures WithData([Entry(k, v)] + rest, data[k := w]) == [Entry(k, w)] + WithData(rest, data)
  {
    assert forall j :: 0 < j <= |rest| ==> ([Entry(k, v)] + rest)[j] == rest[j - 1];
  }

  lemma DropData<K, V, W>(c: seq<Entry<K, V>>, data: map<K, W>, i: nat)
    requires DistinctKeys(c) && i < |c| && Covered(c, data)
    ensures Covered(Drop(c, i), data) && !Has(Drop(c, i), c[i].key)
    ensures WithData(Drop(c, i), data) == Drop(WithData(c, data), i)
  {
    assert forall j :: 0 <= j < |c| - 1 ==> Drop(c, i)[j] == c[if j < i then j else j + 1];
  }

  /** A get of `k`, followed by a change of the data under `k`. */
  lemma GetThenChange<K, V, W>(c: seq<Entry<K, V>>, data: map<K, W>, k: K, w: W)
    requires DistinctKeys(c) && Has(c, k) && Covered(c, data)
    ensures Covered(Get(c, k), data[k := w])
    ensures WithData(Get(c, k), data[k := w])
         == [Entry(k, w)] + Drop(WithData(c, data), Position(WithData(c, data), k))
  {
    SamePosition(c, data, k);
    var i := Position(c, k);
    DropData(c, data, i);
    PushData(Drop(c, i), data, k, c[i].data, w);
  }

  lemma PutNew<K, V, W>(capacity: int, c: seq<Entry<K, V>>, data: map<K, W>, k: K, v: V, w: W)
    requires capacity != 0 && DistinctKeys(c) && !Has(c, k) && Covered(c, data)
    ensures Covered(Put(capacity, c, k, v), data[k := w])
    ensures WithData(Put(capacity, c, k, v), data[k := w]) == Put(capacity, WithData(c, data), k, w)
  {
    SamePosition(c, data, k);
    var rest := if capacity == |c| then c[..|c| - 1] else c;
    PushData(rest, data, k, v, w);
    assert WithData(c[..|rest|], data) == WithData(c, data)[..|rest|];
    assert c[..|c|] == c && WithData(c, data)[..|c|] == WithData(c, data);
  }

  lemma ListedData<K, V>(es: seq<Element<K>>, items: map<K, Item<K, V>>, data: map<K, V>)
    requires Linked(es, items) && data.Keys == items.Keys
    ensures Covered(Entries(es, data), data) && DistinctKeys(Entries(es, data))
  {
  }

  /** The caches of states are all in order, hold what `held` says, and share no object. */
  ghost predicate Owned(caches: map<Address, Cache<nat, MinterState>>, held: map<Address, States>, own: set<object>)
    reads own
  {
    && (forall a :: a in caches ==> caches[a] in own && caches[a].Repr <= own && caches[a].Valid())
    && (forall a :: a in caches ==> caches[a].capacity == MAX_MINTER_STATES)
    && (forall a :: a in caches ==> a in held && caches[a].Contents() == held[a])
    && (forall a, b :: a in caches && b in caches && a != b ==> caches[a].Repr !! caches[b].Repr)
  }

  /** One cache of states joins others. */
  lemma Joined(others: map<Address, Cache<nat, MinterState>>, held: map<Address, States>, rest: set<object>,
               all: map<Address, Cache<nat, MinterState>>, a: Address, states: Cache<nat, MinterState>, own: set<object>)
    requires Owned(others, held, rest) && states.Valid() && states.Repr !! rest && states.capacity == MAX_MINTER_STATES
    requires a in all && all[a] == states && forall b :: b in all && b != a ==> b in others && all[b] == others[b]
    requires own == rest + states.Repr
    ensures Owned(all, held[a := states.Contents()], own)
  {
  }

  /** The caches of states but one, apart from its objects. */
  lemma Others(caches: map<Address, Cache<nat, MinterState>>, held: map<Address, States>, own: set<object>, a: Address)
    requires Owned(caches, held, own) && a in caches
    ensures Owned(caches - {a}, held, own - caches[a].Repr)
  {
  }

  /** The end of `Put`, when the address has its own cache of states. */
  method PutHeld(ghost caches: map<Address, Cache<nat, MinterState>>, ghost held: map<Address, States>, ghost own: set<object>,
                 a: Address, states: Cache<nat, MinterState>, state: AccountState, nextTxLT: nat)
    returns (ghost own': set<object>)
    requires Owned(caches, held, own) && a in caches && caches[a] == states
    modifies states.Repr
    ensures fresh(states.Repr - old(states.Repr)) && own' <= own + states.Repr
    ensures Owned(caches, held[a := LruSpec.Put(MAX_MINTER_STATES, held[a], state.lastTxLT, MinterState(state, nextTxLT))], own')
  {
    ghost var rest := own - states.Repr;
    Others(caches, held, own, a);
    var _ := states.Put(state.lastTxLT, MinterState(state, nextTxLT));
    own' := rest + states.Repr;
    Joined(caches - {a}, held, rest, caches, a, states, own');
  }

  /** The outer cache and the caches of states, together. */
  ghost predicate Nested(lru: Cache<Address, Cache<nat, MinterState>>, held: map<Address, States>, own: set<object>)
    reads lru, lru.Repr, own
  {
    lru.Valid() && lru.capacity != 0 && lru.Repr !! own && Owned(lru.data, held, own)
  }

  method GetHeld(lru: Cache<Address, Cache<nat, MinterState>>, ghost held: map<Address, States>, ghost own: set<object>, a: Address)
    returns (r: Option<Cache<nat, MinterState>>)
    requires Nested(lru, held, own)
    modifies lru.Repr
    ensures Nested(lru, held, own) && lru.Repr == old(lru.Repr) && lru.data == old(lru.data)
    ensures lru.Contents() == old(LruSpec.Get(lru.Contents(), a))
    ensures r == if a in lru.data then Some(lru.data[a]) else None
    ensures DistinctKeys(old(lru.Contents())) && Covered(old(lru.Contents()), held)
    ensures Has(old(lru.Contents()), a) == r.Some?
    ensures r.None? ==> Shown(lru, held, own) == old(Shown(lru, held, own))
    ensures r.None? ==> !Has(old(Shown(lru, held, own)), a)
  {
    ShownAt(lru, held, own, a);
    r := lru.Get(a);
  }

  method NewStates(state: AccountState, nextTxLT: nat) returns (states: Cache<nat, MinterState>)
    ensures states.Valid() && fresh(states.Repr) && states.capacity == MAX_MINTER_STATES
    ensures states.Contents() == LruSpec.Put(MAX_MINTER_STATES, [], state.lastTxLT, MinterState(state, nextTxLT))
  {
    states := new Cache(MAX_MINTER_STATES);
    var _ := states.Put(state.lastTxLT, MinterState(state, nextTxLT));
  }

  method AddStates(lru: Cache<Address, Cache<nat, MinterState>>, ghost held: map<Address, States>, ghost own: set<object>,
                   a: Address, states: Cache<nat, MinterState>)
    requires Nested(lru, held, own) && a !in lru.data
    requires states.Valid() && states.Repr !! own + lru.Repr && states.capacity == MAX_MINTER_STATES
    modifies lru.Repr
    ensures fresh(lru.Repr - old(lru.Repr))
    ensures states.Valid() && states.Repr == old(states.Repr) && states.Contents() == old(states.Contents())
    ensures Nested(lru, held[a := states.Contents()], own + states.Repr)
    ensures lru.Contents() == old(LruSpec.Put(lru.capacity, lru.Contents(), a, states))
  {
    ghost var before := lru.data;
    var _ := lru.Put(a, states);
    assert Owned(before, held, own);
    Joined(before, held, own, lru.data, a, states, own + states.Repr);
  }

  /** What the nested caches hold, from most to least recently touched address. */
  ghost function Shown(lru: Cache<Address, Cache<nat, MinterState>>, held: map<Address, States>, own: set<object>): Minters
    requires Nested(lru, held, own)
    reads lru, lru.Repr, own
  {
    ListedData(lru.queue.elements, lru.items, lru.data);
    WithData(lru.Contents(), held)
  }

  lemma ShownAt(lru: Cache<Address, Cache<nat, MinterState>>, held: map<Address, States>, own: set<object>, a: Address)
    requires Nested(lru, held, own)
    ensures var c := lru.Contents();
            && DistinctKeys(c) && Covered(c, held) && (Has(c, a) <==> a in lru.data)
            && (Has(Shown(lru, held, own), a) <==> a in lru.data)
            && (Has(c, a) ==> Position(Shown(lru, held, own), a) == Position(c, a))
  {
    ListedData(lru.queue.elements, lru.items, lru.data);
    Listed(lru.queue.elements, lru.items, lru.data, a);
    SamePosition(lru.Contents(), held, a);
  }

  /** `Put` for an address without states. */
  method PutFirst(lru: Cache<Address, Cache<nat, MinterState>>, ghost held: map<Address, States>, ghost own: set<object>,
                  a: Address, state: AccountState, nextTxLT: nat)
    returns (ghost held': map<Address, States>, ghost own': set<object>)
    requires Nested(lru, held, own) && a !in lru.data
    modifies lru.Repr
    ensures Nested(lru, held', own') && fresh(lru.Repr - old(lru.Repr)) && forall o :: o in own' ==> o in own || fresh(o)
    ensures Shown(lru, held', own') == PutState(lru.capacity, old(Shown(lru, held, own)), a, state, nextTxLT)
  {
    ghost var c := lru.Contents();
    ShownAt(lru, held, own, a);
    var states := NewStates(state, nextTxLT);
    AddStates(lru, held, own, a, states);
    PutNew(lru.capacity, c, held, a, states, states.Contents());
    held' := held[a := states.Contents()];
    own' := own + states.Repr;
  }

  /** The body of `Get`, once the address is found: its states are tried, latest first, until one covers `q`. */
  method ScanStates(states: Cache<nat, MinterState>, q: nat) returns (r: Option<AccountState>)
    requires states.Valid()
    modifies states.Repr
    ensures states.Valid() && states.Repr == old(states.Repr)
    ensures var s := old(ScanDown(states.Contents(), q));
            states.Contents() == s.states && r == s.found
  {
    ghost var c := states.Contents();
    ListedData(states.queue.elements, states.items, states.data);
    var lts := states.Keys();
    lts := SortDown(lts);
    SortedKeys(c, lts);
    var i, stop := 0, false;
    r := None;
    while i < |lts| && !stop
      invariant i <= |lts| && states.Valid() && states.Repr == old(states.Repr)
      invariant Scan(c, lts, 0, q) == if stop then Scanned(states.Contents(), r) else Scan(states.Contents(), lts, i, q)
      invariant !stop ==> r == None
    {
      r, stop := ScanOne(states, lts, i, q);
      i := i + 1;
    }
  }

  /** The body of that loop. */
  method ScanOne(states: Cache<nat, MinterState>, lts: seq<nat>, i: nat, q: nat) returns (r: Option<AccountState>, stop: bool)
    requires states.Valid() && i < |lts|
    modifies states.Repr
    ensures states.Valid() && states.Repr == old(states.Repr)
    ensures old(Scan(states.Contents(), lts, i, q))
         == if stop then Scanned(states.Contents(), r) else Scan(states.Contents(), lts, i + 1, q)
    ensures !stop ==> r == None
  {
    var lt := lts[i];
    if lt > q {
      return None, false;
    }
    var minter := states.Get(lt);
    if minter == None {
      return None, true;
    }
    if minter.value.nextTxLT != 0 && q > minter.value.nextTxLT {
      return None, false;
    }
    r, stop := Some(minter.value.acc), true;
  }

  lemma SortedKeys(c: States, lts: seq<nat>)
    requires DistinctKeys(c) && Descending(lts) && forall k: nat :: k in lts <==> Has(c, k)
    ensures lts == KeysDown(c)
  {
    KeysAreDistinct(c);
    DescendingIsUnique(lts, KeysDown(c));
  }

  method GetStates(ghost caches: map<Address, Cache<nat, MinterState>>, ghost held: map<Address, States>, ghost own: set<object>,
                   a: Address, states: Cache<nat, MinterState>, q: nat)
    returns (r: Option<AccountState>)
    requires Owned(caches, held, own) && a in caches && caches[a] == states
    modifies states.Repr
    ensures states.Repr == old(states.Repr)
    ensures Owned(caches, held[a := ScanDown(held[a], q).states], own)
    ensures r == ScanDown(held[a], q).found
  {
    ghost var rest := own - states.Repr;
    Others(caches, held, own, a);
    r := ScanStates(states, q);
    Joined(caches - {a}, held, rest, caches, a, states, own);
  }

  /** What is held once a state is put into the states of its address. */
  ghost function PutInto(held: map<Address, States>, a: Address, state: AccountState, nextTxLT: nat): map<Address, States>
    requires a in held
  {
    held[a := LruSpec.Put(MAX_MINTER_STATES, held[a], state.lastTxLT, MinterState(state, nextTxLT))]
  }

  /** After the address was found, a change of its states is all that shows: this is what `put` prescribes. */
  lemma ShownAfterPut(lru: Cache<Address, Cache<nat, MinterState>>, c: seq<Entry<Address, Cache<nat, MinterState>>>,
                      held: map<Address, States>, own: set<object>, a: Address, state: AccountState, nextTxLT: nat)
    requires DistinctKeys(c) && Covered(c, held) && Has(c, a) && a in held
    requires Nested(lru, PutInto(held, a, state, nextTxLT), own) && lru.Contents() == Get(c, a)
    ensures Shown(lru, PutInto(held, a, state, nextTxLT), own) == PutState(lru.capacity, WithData(c, held), a, state, nextTxLT)
  {
    SamePosition(c, held, a);
    GetThenChange(c, held, a, PutInto(held, a, state, nextTxLT)[a]);
  }

  /** And what `get` prescribes. */
  lemma ShownAfterGet(lru: Cache<Address, Cache<nat, MinterState>>, c: seq<Entry<Address, Cache<nat, MinterState>>>,
                      held: map<Address, States>, own: set<object>, a: Address, q: nat)
    requires DistinctKeys(c) && Covered(c, held) && Has(c, a) && a in held
    requires Nested(lru, held[a := ScanDown(held[a], q).states], own) && lru.Contents() == Get(c, a)
    ensures (Shown(lru, held[a := ScanDown(held[a], q).states], own), ScanDown(held[a], q).found) == GetState(WithData(c, held), a, q)
  {
    SamePosition(c, held, a);
    GetThenChange(c, held, a, ScanDown(held[a], q).states);
  }

  /** `Put` for an address that was just found. */
  method PutNext(lru: Cache<Address, Cache<nat, MinterState>>, ghost c: seq<Entry<Address, Cache<nat, MinterState>>>,
                 ghost held: map<Address, States>, ghost own: set<object>,
                 a: Address, states: Cache<nat, MinterState>, state: AccountState, nextTxLT: nat)
    returns (ghost held': map<Address, States>, ghost own': set<object>)
    requires Nested(lru, held, own) && lru.Contents() == Get(c, a) && a in lru.data && lru.data[a] == states
    requires DistinctKeys(c) && Covered(c, held) && Has(c, a)
    modifies states.Repr
    ensures Nested(lru, held', own') && forall o :: o in own' ==> o in own || fresh(o)
    ensures lru.capacity != 0 && Shown(lru, held', own') == PutState(lru.capacity, WithData(c, held), a, state, nextTxLT)
  {
    held' := PutInto(held, a, state, nextTxLT);
    own' := PutHeld(lru.data, held, own, a, states, state, nextTxLT);
    ShownAfterPut(lru, c, held, own', a, state, nextTxLT);
  }

  /** `Get` for an address that was just found. */
  method GetNext(lru: Cache<Address, Cache<nat, MinterState>>, ghost c: seq<Entry<Address, Cache<nat, MinterState>>>,
                 ghost held: map<Address, States>, ghost own: set<object>,
                 a: Address, states: Cache<nat, MinterState>, q: nat)
    returns (r: Option<AccountState>, ghost held': map<Address, States>)
    requires Nested(lru, held, own) && lru.Contents() == Get(c, a) && a in lru.data && lru.data[a] == states
    requires DistinctKeys(c) && Covered(c, held) && Has(c, a)
    modifies states.Repr
    ensures Nested(lru, held', own)
    ensures (Shown(lru, held', own), r) == GetState(WithData(c, held), a, q)
  {
    held' := held[a := ScanDown(held[a], q).states];
    r := GetStates(lru.data, held, own, a, states, q);
    ShownAfterGet(lru, c, held, own, a, q);
  }

  method PutIn(lru: Cache<Address, Cache<nat, MinterState>>, ghost held: map<Address, States>, ghost own: set<object>,
               a: Address, state: AccountState, nextTxLT: nat)
    returns (ghost held': map<Address, States>, ghost own': set<object>)
    requires Nested(lru, held, own)
    modifies lru.Repr, own
    ensures Nested(lru, held', own') && fresh(lru.Repr - old(lru.Repr)) && forall o :: o in own' ==> o in own || fresh(o)
    ensures Shown(lru, held', own') == PutState(lru.capacity, old(Shown(lru, held, own)), a, state, nextTxLT)
  {
    ghost var c := lru.Contents();
    var found := GetHeld(lru, held, own, a);
    if found == None {
      held', own' := PutFirst(lru, held, own, a, state, nextTxLT);
    } else {
      held', own' := PutNext(lru, c, held, own, a, found.value, state, nextTxLT);
    }
  }

  method GetIn(lru: Cache<Address, Cache<nat, MinterState>>, ghost held: map<Address, States>, ghost own: set<object>, a: Address, q: nat)
    returns (r: Option<AccountState>, ghost held': map<Address, States>)
    requires Nested(lru, held, own)
    modifies lru.Repr, own
    ensures Nested(lru, held', own) && lru.Repr == old(lru.Repr)
    ensures (Shown(lru, held', own), r) == old(GetState(Shown(lru, held, own), a, q))
  {
    ghost var c := lru.Contents();
    var found := GetHeld(lru, held, own, a);
    if found == None {
      return None, held;
    }
    r, held' := GetNext(lru, c, held, own, a, found.value, q);
  }

  // ------------------------------------------------------------------------- put and get

  /** The nested caches, made of the objects `all`, hold `c`; `held` is what each inner cache holds. */
  ghost predicate Holds(lru: Cache<Address, Cache<nat, MinterState>>, held: map<Address, States>, all: set<object>, c: Minters)
    reads all
  {
    lru in all && lru.Repr <= all && Nested(lru, held, all - lru.Repr) && Shown(lru, held, all - lru.Repr) == c
  }

  method NewMinterStateCache(capacity: int) returns (lru: Cache<Address, Cache<nat, MinterState>>, ghost all: set<object>)
    requires capacity != 0
    ensures Holds(lru, map[], all, []) && fresh(all) && lru.capacity == capacity
  {
    lru := new Cache(capacity);
    all := lru.Repr;
  }

  /** `put`. */
  method PutMinterState(lru: Cache<Address, Cache<nat, MinterState>>,
                        ghost held: map<Address, States>, ghost all: set<object>, ghost c: Minters,
                        a: Address, state: AccountState, nextTxLT: nat)
    returns (ghost held': map<Address, States>, ghost all': set<object>)
    requires Holds(lru, held, all, c)
    modifies all
    ensures lru.capacity != 0 && Holds(lru, held', all', PutState(lru.capacity, c, a, state, nextTxLT)) && fresh(all' - all)
  {
    ghost var own;
    held', own := PutIn(lru, held, all - lru.Repr, a, state, nextTxLT);
    all' := lru.Repr + own;
    assert all' - lru.Repr == own;
  }

  /** `get`. */
  method GetMinterState(lru: Cache<Address, Cache<nat, MinterState>>,
                        ghost held: map<Address, States>, ghost all: set<object>, ghost c: Minters,
                        a: Address, itemTxLT: nat)
    returns (r: Option<AccountState>, ghost held': map<Address, States>)
    requires Holds(lru, held, all, c)
    modifies all
    ensures Holds(lru, held', all, GetState(c, a, itemTxLT).0) && r == GetState(c, a, itemTxLT).1
  {
    r, held' := GetIn(lru, held, all - lru.Repr, a, itemTxLT);
  }
}
