/** Answering with an account's recent state: from the cache, or after filling it from the records. */
module RecentStates {
  import opened AccountStates
  import opened Lru
  import opened MinterCache
  import opened MinterSpec
  import opened Wrappers

  datatype Error = NotFound

  /** The recorded states at the given times. */
  function Select(h: History, lts: seq<nat>): History {
    if h == [] then []
    else if h[0].lastTxLT in lts then [h[0]] + Select(h[1..], lts)
    else Select(h[1..], lts)
  }

  /** The states in the window of changes before `q`. */
  function LoadStates(h: History, q: nat, limit: nat): Result<History, Error> {
    var rows := ChangeRows(h);
    if rows == [] then Err(NotFound)
    else
      var lts := Dedup(rows, None);
      var (lo, hi) := Bounds(lts, q, limit);
      Ok(Select(h, lts[lo..hi]))
  }

  method GetAllAccountStates(h: History, beforeTxLT: nat, limit: nat) returns (r: Result<History, Error>)
    ensures r == LoadStates(h, beforeTxLT, limit)
  {
    var rows := ChangeRows(h);
    if rows == [] {
      return Err(NotFound);
    }
    var lts := Deduplicate(rows);
    lts := Window(lts, beforeTxLT, limit);
    return Ok(Select(h, lts));
  }

  /** The time of the state after the `i`th, as it is passed to the cache. */
  function NextTxLT(states: History, i: nat): nat
    requires i < |states|
  {
    if i != |states| - 1 then states[i + 1].lastTxLT else 0
  }

  /** The cache after the first `i` states are put. */
  ghost function Refill(capacity: int, c: Minters, a: Address, states: History, i: nat): Minters
    requires capacity != 0 && i <= |states|
  {
    if i == 0 then c
    else PutState(capacity, Refill(capacity, c, a, states, i - 1), a, states[i - 1], NextTxLT(states, i - 1))
  }

  type Answer = Result<AccountState, Error>

  /** After a miss that left the cache as `c`. */
  ghost function AfterMiss(capacity: int, c: Minters, h: History, a: Address, q: nat): (Minters, Answer)
    requires capacity != 0
  {
    match LoadStates(h, q, MAX_MINTER_STATES)
    case Err(e) => (c, Err(e))
    case Ok(states) =>
      var (c', again) := GetState(Refill(capacity, c, a, states, |states|), a, q);
      (c', if again.Some? then Ok(again.value) else Err(NotFound))
  }

  ghost function RecentState(capacity: int, c: Minters, h: History, a: Address, q: nat): (Minters, Answer)
    requires capacity != 0
  {
    var (c', found) := GetState(c, a, q);
    if found.Some? then (c', Ok(found.value)) else AfterMiss(capacity, c', h, a, q)
  }

  type Lrus = Cache<Address, Cache<nat, MinterState>>

  type Held = map<Address, States>

  /** The body of the loop below. */
  method PutNthState(lru: Lrus, ghost held: Held, ghost all: set<object>, ghost c: Minters, a: Address, states: History, it: nat)
    returns (ghost held': Held, ghost all': set<object>)
    requires it < |states| && lru.capacity != 0 && Holds(lru, held, all, Refill(lru.capacity, c, a, states, it))
    modifies all
    ensures Holds(lru, held', all', Refill(lru.capacity, c, a, states, it + 1)) && fresh(all' - all)
  {
    var nextTxLT := 0;
    if it != |states| - 1 {
      nextTxLT := states[it + 1].lastTxLT;
    }
    held', all' := PutMinterState(lru, held, all, Refill(lru.capacity, c, a, states, it), a, states[it], nextTxLT);
  }

  /** The loop that puts the loaded states into the cache. */
  method FillCache(lru: Lrus, ghost held: Held, ghost all: set<object>, ghost c: Minters, a: Address, states: History)
    returns (ghost held': Held, ghost all': set<object>)
    requires Holds(lru, held, all, c)
    modifies all
    ensures lru.capacity != 0 && Holds(lru, held', all', Refill(lru.capacity, c, a, states, |states|)) && fresh(all' - all)
  {
    held', all' := held, all;
    var it := 0;
    assert Refill(lru.capacity, c, a, states, it) == c && all' - all == {};
    while it < |states|
      invariant it <= |states| && fresh(all' - all)
      invariant lru.capacity != 0 && Holds(lru, held', all', Refill(lru.capacity, c, a, states, it))
    {
      held', all' := PutNthState(lru, held', all', c, a, states, it);
      it := it + 1;
    }
  }

  /** `h` is what the database has recorded for the address; the cache holds `c`. */
  method GetRecentAccountState(lru: Lrus, ghost held: Held, ghost all: set<object>, ghost c: Minters, h: History, a: Address, lastLT: nat)
    returns (r: Answer, ghost held': Held, ghost all': set<object>)
    requires Holds(lru, held, all, c)
    modifies all
    ensures lru.capacity != 0 && r == RecentState(lru.capacity, c, h, a, lastLT).1 && fresh(all' - all)
    ensures Holds(lru, held', all', RecentState(lru.capacity, c, h, a, lastLT).0)
  {
    var minter;
    minter, held' := GetMinterState(lru, held, all, c, a, lastLT);
    if minter.Some? {
      return Ok(minter.value), held', all;
    }
    r, held', all' := LoadAndGet(lru, held', all, GetState(c, a, lastLT).0, h, a, lastLT);
  }

  /** The rest of `GetRecentAccountState`, after a miss. */
  method LoadAndGet(lru: Lrus, ghost held: Held, ghost all: set<object>, ghost c: Minters, h: History, a: Address, lastLT: nat)
    returns (r: Answer, ghost held': Held, ghost all': set<object>)
    requires Holds(lru, held, all, c)
    modifies all
    ensures lru.capacity != 0 && r == AfterMiss(lru.capacity, c, h, a, lastLT).1 && fresh(all' - all)
    ensures Holds(lru, held', all', AfterMiss(lru.capacity, c, h, a, lastLT).0)
  {
    var loaded := GetAllAccountStates(h, lastLT, MAX_MINTER_STATES);
    if loaded.Err? {
      return Err(loaded.error), held, all;
    }
    r, held', all' := FillAndGet(lru, held, all, c, a, loaded.value, lastLT);
  }

  /** The loaded states are put, and the time is looked up again. */
  method FillAndGet(lru: Lrus, ghost held: Held, ghost all: set<object>, ghost c: Minters, a: Address, states: History, lastLT: nat)
    returns (r: Answer, ghost held': Held, ghost all': set<object>)
    requires Holds(lru, held, all, c)
    modifies all
    ensures lru.capacity != 0 && fresh(all' - all)
    ensures var (c', again) := GetState(Refill(lru.capacity, c, a, states, |states|), a, lastLT);
            Holds(lru, held', all', c') && r == if again.Some? then Ok(again.value) else Err(NotFound)
  {
    held', all' := FillCache(lru, held, all, c, a, states);
    var minter;
    minter, held' := GetMinterState(lru, held', all', Refill(lru.capacity, c, a, states, |states|), a, lastLT);
    r := if minter.None? then Err(NotFound) else Ok(minter.value);
  }
}
