/** The walk that lists the shard blocks between two consecutive masterchain states. */
module ShardWalk {
  import opened Wrappers
  import opened ShardIds

  /** The parents of a block: one, two after a merge, none at the root. */
  type Parents = Block -> seq<Block>

  ghost predicate Decreasing(parents: Parents) {
    forall b, p :: p in parents(b) ==> p.seqNo < b.seqNo
  }

  function Height(bs: seq<Block>): (h: nat)
    ensures forall b :: b in bs ==> b.seqNo < h
  {
    if bs == [] then 0
    else
      var h := Height(bs[..|bs| - 1]);
      var b := bs[|bs| - 1];
      assert bs == bs[..|bs| - 1] + [b];
      if b.seqNo < h then h else b.seqNo + 1
  }

  lemma {:induction false} HeightIsLeast(bs: seq<Block>, h: nat)
    requires forall b :: b in bs ==> b.seqNo < h
    ensures Height(bs) <= h
  {
    if bs != [] { HeightIsLeast(bs[..|bs| - 1], h); }
  }

  /** The last block of every shard of the previous masterchain state. */
  type LastSeqNos = map<string, nat>

  function LastOf(prev: seq<Block>): LastSeqNos {
    if prev == [] then map[]
    else LastOf(prev[..|prev| - 1])[GetShardId(prev[|prev| - 1]) := prev[|prev| - 1].seqNo]
  }

  /** The `i`th key does not come again. */
  ghost predicate IsLast<K>(keys: seq<K>, i: nat) {
    i < |keys| && forall j :: i < j < |keys| ==> keys[j] != keys[i]
  }

  /** For every key, and no other, the number at its last place. */
  ghost predicate HoldsLast<K>(last: map<K, nat>, keys: seq<K>, numbers: seq<nat>) {
    && |keys| == |numbers|
    && (forall i: nat :: IsLast(keys, i) ==> keys[i] in last && last[keys[i]] == numbers[i])
    && (forall k :: k in last ==> exists i: nat :: IsLast(keys, i) && keys[i] == k)
  }

  lemma IsLastOfMore<K>(keys: seq<K>, k: K, i: nat)
    ensures IsLast(keys + [k], i) <==> i == |keys| || (IsLast(keys, i) && keys[i] != k)
  {
    var ks := keys + [k];
    assert forall j :: 0 <= j < |keys| ==> ks[j] == keys[j];
    assert ks[|keys|] == k;
  }

  lemma OneMoreKey<K>(last: map<K, nat>, keys: seq<K>, numbers: seq<nat>, k: K, n: nat)
    requires HoldsLast(last, keys, numbers)
    ensures HoldsLast(last[k := n], keys + [k], numbers + [n])
  {
    var ks, more := keys + [k], last[k := n];
    forall i: nat | IsLast(ks, i)
      ensures ks[i] in more && more[ks[i]] == (numbers + [n])[i]
    {
      IsLastOfMore(keys, k, i);
    }
    forall x | x in more
      ensures exists i: nat :: IsLast(ks, i) && ks[i] == x
    {
      var i: nat := |keys|;
      if x != k {
        i :| IsLast(keys, i) && keys[i] == x;
      }
      IsLastOfMore(keys, k, i);
      assert IsLast(ks, i) && ks[i] == x;
    }
  }

  function ShardIdsOf(bs: seq<Block>): seq<string> {
    if bs == [] then [] else ShardIdsOf(bs[..|bs| - 1]) + [GetShardId(bs[|bs| - 1])]
  }

  function SeqNosOf(bs: seq<Block>): seq<nat> {
    if bs == [] then [] else SeqNosOf(bs[..|bs| - 1]) + [bs[|bs| - 1].seqNo]
  }

  lemma {:induction false} LastOfExactly(prev: seq<Block>)
    ensures HoldsLast(LastOf(prev), ShardIdsOf(prev), SeqNosOf(prev))
  {
    if prev != [] {
      var init, b := prev[..|prev| - 1], prev[|prev| - 1];
      LastOfExactly(init);
      OneMoreKey(LastOf(init), ShardIdsOf(init), SeqNosOf(init), GetShardId(b), b.seqNo);
    }
  }

  predicate AtTop(last: LastSeqNos, b: Block) {
    GetShardId(b) in last && last[GetShardId(b)] == b.seqNo
  }

  /** The blocks the walk from `b` lists, in order. */
  ghost function Diff(parents: Parents, last: LastSeqNos, b: Block): seq<Block>
    requires Decreasing(parents)
    decreases b.seqNo, |parents(b)| + 1
  {
    if AtTop(last, b) then []
    else
      HeightIsLeast(parents(b), b.seqNo);
      DiffAll(parents, last, parents(b)) + [b]
  }

  ghost function DiffAll(parents: Parents, last: LastSeqNos, bs: seq<Block>): seq<Block>
    requires Decreasing(parents)
    decreases Height(bs), |bs|
  {
    if bs == [] then []
    else
      HeightIsLeast(bs[..|bs| - 1], Height(bs));
      DiffAll(parents, last, bs[..|bs| - 1]) + Diff(parents, last, bs[|bs| - 1])
  }

  datatype FetchError = MasterNotFound | ShardsInfoFailed | BlockDataFailed

  ghost predicate AllFetched(fetched: Block -> bool, bs: seq<Block>) {
    forall b :: b in bs ==> fetched(b)
  }

  /** `fetched` tells for which blocks the API returns the block data. */
  method GetNotSeenBlocks(parents: Parents, fetched: Block -> bool, block: Block, last: LastSeqNos)
    returns (r: Result<seq<Block>, FetchError>)
    requires Decreasing(parents)
    ensures r == if AllFetched(fetched, Diff(parents, last, block)) then Ok(Diff(parents, last, block)) else Err(BlockDataFailed)
    decreases block.seqNo
  {
    if AtTop(last, block) {
      return Ok([]);
    }
    if !fetched(block) {
      return Err(BlockDataFailed);
    }
    var ps := parents(block);
    var ret := [];
    for i := 0 to |ps|
      invariant ret == DiffAll(parents, last, ps[..i]) && AllFetched(fetched, ret)
    {
      assert ps[..i + 1][..i] == ps[..i];
      var ext := GetNotSeenBlocks(parents, fetched, ps[i], last);
      if ext.Err? {
        ghost var b :| b in Diff(parents, last, ps[i]) && !fetched(b);
        DiffAllContains(parents, last, ps, i);
        assert b in Diff(parents, last, block);
        return Err(BlockDataFailed);
      }
      ret := ret + ext.value;
    }
    assert ps[..|ps|] == ps;
    r := Ok(ret + [block]);
  }

  lemma {:induction false} DiffAllContains(parents: Parents, last: LastSeqNos, bs: seq<Block>, i: nat)
    requires Decreasing(parents) && i < |bs|
    ensures forall b :: b in Diff(parents, last, bs[i]) ==> b in DiffAll(parents, last, bs)
    decreases |bs|
  {
    if i < |bs| - 1 { DiffAllContains(parents, last, bs[..|bs| - 1], i); }
  }

  /** The loop that notes the last block of each previous shard. */
  method LastSeqNosOf(prev: seq<Block>) returns (last: LastSeqNos)
    ensures last == LastOf(prev) && HoldsLast(last, ShardIdsOf(prev), SeqNosOf(prev))
  {
    last := map[];
    for i := 0 to |prev|
      invariant last == LastOf(prev[..i])
    {
      assert prev[..i + 1][..i] == prev[..i];
      last := last[GetShardId(prev[i]) := prev[i].seqNo];
    }
    assert prev[..|prev|] == prev;
    LastOfExactly(prev);
  }

  /** The loop over the current shards. */
  method NotSeenBlocks(parents: Parents, fetched: Block -> bool, cur: seq<Block>, last: LastSeqNos) returns (r: Result<seq<Block>, FetchError>)
    requires Decreasing(parents)
    ensures r == if AllFetched(fetched, DiffAll(parents, last, cur)) then Ok(DiffAll(parents, last, cur)) else Err(BlockDataFailed)
  {
    var shards := [];
    for i := 0 to |cur|
      invariant shards == DiffAll(parents, last, cur[..i]) && AllFetched(fetched, shards)
    {
      assert cur[..i + 1][..i] == cur[..i];
      var notSeen := GetNotSeenBlocks(parents, fetched, cur[i], last);
      if notSeen.Err? {
        DiffAllContains(parents, last, cur, i);
        return Err(notSeen.error);
      }
      shards := shards + notSeen.value;
    }
    assert cur[..|cur|] == cur;
    r := Ok(shards);
  }

  // ------------------------------------------------------------------------------ the service

  /** What the network answers: the masterchain, the shards of a masterchain block, block parents. */
  datatype Chain = Chain(masterAt: nat -> Block, shardsOf: Block -> seq<Block>, parents: Parents)

  /** Which requests are answered. */
  datatype Api = Api(master: nat -> bool, shards: Block -> bool, block: Block -> bool)

  ghost predicate ProperChain(chain: Chain) {
    Decreasing(chain.parents) && forall n :: chain.masterAt(n).seqNo == n
  }

  const CACHE_INVALIDATION := 60_000_000_000

  /** The number before, in the width the program counts in. */
  function PrevSeqNo(n: nat): (p: nat)
    ensures n < 0x1_0000_0000 ==> p < 0x1_0000_0000 && (p + 1) % 0x1_0000_0000 == n
  {
    if n == 0 then 0xFFFF_FFFF else n - 1
  }

  /** What `UnseenShards` lists for a masterchain block. */
  ghost function DiffOf(chain: Chain, n: nat): seq<Block>
    requires ProperChain(chain)
  {
    DiffAll(chain.parents, LastOf(chain.shardsOf(chain.masterAt(PrevSeqNo(n)))), chain.shardsOf(chain.masterAt(n)))
  }

  /** Every request a cold cache makes for masterchain block `n` is answered. */
  ghost predicate AllAnswered(chain: Chain, api: Api, n: nat)
    requires ProperChain(chain)
  {
    && api.master(n) && api.master(PrevSeqNo(n))
    && api.shards(chain.masterAt(n)) && api.shards(chain.masterAt(PrevSeqNo(n)))
    && AllFetched(api.block, DiffOf(chain, n))
  }

  class Fetcher {
    const chain: Chain
    var masterBlocks: map<nat, Block>
    var shardsInfo: map<nat, seq<Block>>
    var lastCleared: int

    /** The caches only hold what the network answered. */
    ghost predicate Valid()
      reads this
    {
      && ProperChain(chain)
      && (forall n :: n in masterBlocks ==> masterBlocks[n] == chain.masterAt(n))
      && (forall n :: n in shardsInfo ==> shardsInfo[n] == chain.shardsOf(chain.masterAt(n)))
    }

    constructor (chain: Chain, now: int)
      requires ProperChain(chain)
      ensures Valid() && this.chain == chain
      ensures masterBlocks == map[] && shardsInfo == map[] && lastCleared == now
    {
      this.chain := chain;
      masterBlocks := map[];
      shardsInfo := map[];
      lastCleared := now;
    }

    method ClearCaches(now: int)
      requires Valid()
      modifies this
      ensures Valid()
      ensures old(now - lastCleared < CACHE_INVALIDATION) ==>
                masterBlocks == old(masterBlocks) && shardsInfo == old(shardsInfo) && lastCleared == old(lastCleared)
      ensures old(now - lastCleared >= CACHE_INVALIDATION) ==>
                masterBlocks == map[] && shardsInfo == map[] && lastCleared == now
    {
      if now - lastCleared < CACHE_INVALIDATION {
        return;
      }
      masterBlocks := map[];
      shardsInfo := map[];
      lastCleared := now;
    }

    /** The caches are not about to be cleared. */
    predicate Fresh(now: int)
      reads this
    {
      now - lastCleared < CACHE_INVALIDATION
    }

    method LookupMaster(seqNo: nat, api: Api, now: int) returns (r: Result<Block, FetchError>)
      requires Valid()
      modifies this
      ensures Valid()
      ensures r == if seqNo in old(masterBlocks) || api.master(seqNo) then Ok(chain.masterAt(seqNo)) else Err(MasterNotFound)
      ensures seqNo in old(masterBlocks) || r.Err? ==>
                masterBlocks == old(masterBlocks) && shardsInfo == old(shardsInfo) && lastCleared == old(lastCleared)
      ensures seqNo !in old(masterBlocks) && r.Ok? && old(Fresh(now)) ==>
                masterBlocks == old(masterBlocks)[seqNo := r.value] && shardsInfo == old(shardsInfo) && lastCleared == old(lastCleared)
      ensures seqNo !in old(masterBlocks) && r.Ok? && !old(Fresh(now)) ==>
                masterBlocks == map[] && shardsInfo == map[] && lastCleared == now
    {
      if seqNo in masterBlocks {
        return Ok(masterBlocks[seqNo]);
      }
      if !api.master(seqNo) {
        return Err(MasterNotFound);
      }
      var master := chain.masterAt(seqNo);
      masterBlocks := masterBlocks[master.seqNo := master];
      ClearCaches(now);
      r := Ok(master);
    }

    /** An empty answer is passed on as no shards at all, not as an error, and is not cached. */
    method GetShardsInfo(master: Block, api: Api, now: int) returns (r: Result<seq<Block>, FetchError>)
      requires Valid() && master == chain.masterAt(master.seqNo)
      modifies this
      ensures Valid()
      ensures r == if master.seqNo in old(shardsInfo) || api.shards(master) then Ok(chain.shardsOf(master)) else Err(ShardsInfoFailed)
      ensures master.seqNo in old(shardsInfo) || r.Err? || r.value == [] ==>
                masterBlocks == old(masterBlocks) && shardsInfo == old(shardsInfo) && lastCleared == old(lastCleared)
      ensures master.seqNo !in old(shardsInfo) && r.Ok? && r.value != [] && old(Fresh(now)) ==>
                masterBlocks == old(masterBlocks) && shardsInfo == old(shardsInfo)[master.seqNo := r.value] && lastCleared == old(lastCleared)
      ensures master.seqNo !in old(shardsInfo) && r.Ok? && r.value != [] && !old(Fresh(now)) ==>
                masterBlocks == map[] && shardsInfo == map[] && lastCleared == now
    {
      if master.seqNo in shardsInfo {
        return Ok(shardsInfo[master.seqNo]);
      }
      if !api.shards(master) {
        return Err(ShardsInfoFailed);
      }
      var shards := chain.shardsOf(master);
      if |shards| == 0 {
        return Ok([]);
      }
      shardsInfo := shardsInfo[master.seqNo := shards];
      ClearCaches(now);
      r := Ok(shards);
    }

    ghost predicate KnowsMaster(api: Api, n: nat)
      reads this
    {
      n in masterBlocks || api.master(n)
    }

    ghost predicate KnowsShards(api: Api, n: nat)
      reads this
    {
      n in shardsInfo || api.shards(chain.masterAt(n))
    }

    /** What the diff of masterchain block `n` takes is cached, but for empty answers. */
    ghost predicate Remembers(n: nat)
      reads this
    {
      && PrevSeqNo(n) in masterBlocks
      && (n in shardsInfo || chain.shardsOf(chain.masterAt(n)) == [])
      && (PrevSeqNo(n) in shardsInfo || chain.shardsOf(chain.masterAt(PrevSeqNo(n))) == [])
    }

    /** Unless the caches are cleared on the way, exactly what is not cached has to be answered, and is cached then. */
    method UnseenShards(master: Block, api: Api, now: int) returns (r: Result<seq<Block>, FetchError>)
      requires Valid() && master == chain.masterAt(master.seqNo)
      modifies this
      ensures Valid()
      ensures r.Ok? ==> r.value == DiffOf(chain, master.seqNo)
      ensures AllAnswered(chain, api, master.seqNo) ==> r.Ok?
      ensures !AllFetched(api.block, DiffOf(chain, master.seqNo)) ==> r.Err?
      ensures old(Fresh(now)) ==>
                (r.Ok? <==> old(KnowsShards(api, master.seqNo)) && old(KnowsMaster(api, PrevSeqNo(master.seqNo)))
                            && old(KnowsShards(api, PrevSeqNo(master.seqNo))) && AllFetched(api.block, DiffOf(chain, master.seqNo)))
      ensures old(Fresh(now)) ==> lastCleared == old(lastCleared) && (r.Ok? ==> Remembers(master.seqNo))
      ensures old(Fresh(now)) ==> old(masterBlocks).Keys <= masterBlocks.Keys
    {
      var cur := GetShardsInfo(master, api, now);
      if cur.Err? {
        return Err(cur.error);
      }
      var prevMaster := LookupMaster(PrevSeqNo(master.seqNo), api, now);
      if prevMaster.Err? {
        return Err(prevMaster.error);
      }
      var prev := GetShardsInfo(prevMaster.value, api, now);
      if prev.Err? {
        return Err(prev.error);
      }
      var last := LastSeqNosOf(prev.value);
      r := NotSeenBlocks(chain.parents, api.block, cur.value, last);
    }

    method UnseenBlocks(masterSeqNo: nat, api: Api, now: int) returns (r: Result<(Block, seq<Block>), FetchError>)
      requires Valid()
      modifies this
      ensures Valid()
      ensures r.Ok? ==> r.value == (chain.masterAt(masterSeqNo), DiffOf(chain, masterSeqNo))
      ensures AllAnswered(chain, api, masterSeqNo) ==> r.Ok?
      ensures !AllFetched(api.block, DiffOf(chain, masterSeqNo)) ==> r.Err?
      ensures old(Fresh(now)) && r.Ok? ==> masterSeqNo in masterBlocks && Remembers(masterSeqNo) && lastCleared == old(lastCleared)
    {
      var master := LookupMaster(masterSeqNo, api, now);
      if master.Err? {
        return Err(master.error);
      }
      var shards := UnseenShards(master.value, api, now);
      if shards.Err? {
        return Err(shards.error);
      }
      r := Ok((master.value, shards.value));
    }
  }
}
