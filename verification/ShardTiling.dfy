/** Consecutive masterchain blocks share out the shard blocks among themselves. */
module ShardTiling {
  import opened ShardIds
  import opened ShardWalk
  import opened ShardDiff

  ghost function TopsAt(chain: Chain, n: nat): seq<Block> {
    chain.shardsOf(chain.masterAt(n))
  }

  /** The masterchain moves from block `n - 1` to block `n` as the network prescribes. */
  ghost predicate Advances(chain: Chain, n: nat)
    requires ProperChain(chain)
  {
    && n > 0
    && DistinctShards(TopsAt(chain, n - 1))
    && Antichain(chain.parents, TopsAt(chain, n - 1))
    && (forall b :: b in TopsAt(chain, n) ==> Covered(chain.parents, TopsAt(chain, n - 1), b))
    && (forall b :: b in TopsAt(chain, n - 1) ==> BelowAny(chain.parents, b, TopsAt(chain, n)))
  }

  ghost predicate Seen(chain: Chain, n: nat, b: Block)
    requires ProperChain(chain)
  {
    BelowAny(chain.parents, b, TopsAt(chain, n))
  }

  lemma OneDiff(chain: Chain, n: nat, b: Block)
    requires ProperChain(chain) && Advances(chain, n)
    ensures b in DiffOf(chain, n) <==> Seen(chain, n, b) && !Seen(chain, n - 1, b)
  {
    UnseenExactly(chain.parents, TopsAt(chain, n - 1), TopsAt(chain, n), b);
  }

  lemma SeenStays(chain: Chain, n: nat, b: Block)
    requires ProperChain(chain) && Advances(chain, n) && Seen(chain, n - 1, b)
    ensures Seen(chain, n, b)
  {
    var t :| t in TopsAt(chain, n - 1) && Below(chain.parents, b, t);
    assert BelowAny(chain.parents, t, TopsAt(chain, n));
    var u :| u in TopsAt(chain, n) && Below(chain.parents, t, u);
    BelowTransitive(chain.parents, b, t, u);
  }

  lemma {:induction false} SeenFrom(chain: Chain, from: nat, upTo: nat, b: Block)
    requires ProperChain(chain) && from <= upTo && Seen(chain, from, b)
    requires forall n :: from < n <= upTo ==> Advances(chain, n)
    ensures Seen(chain, upTo, b)
    decreases upTo
  {
    if from < upTo {
      SeenFrom(chain, from, upTo - 1, b);
      SeenStays(chain, upTo, b);
    }
  }

  /** The diffs of a run of masters cover exactly what the last one sees and the first one does not. */
  lemma {:induction false} DiffsCover(chain: Chain, from: nat, upTo: nat, b: Block)
    requires ProperChain(chain) && from <= upTo
    requires forall n :: from < n <= upTo ==> Advances(chain, n)
    ensures (exists n :: from < n <= upTo && b in DiffOf(chain, n)) <==> Seen(chain, upTo, b) && !Seen(chain, from, b)
    decreases upTo
  {
    if from < upTo {
      DiffsCover(chain, from, upTo - 1, b);
      OneDiff(chain, upTo, b);
      if Seen(chain, upTo - 1, b) {
        SeenStays(chain, upTo, b);
      }
      if Seen(chain, from, b) {
        SeenFrom(chain, from, upTo, b);
        SeenFrom(chain, from, upTo - 1, b);
      }
    }
  }

  /** No block is attributed to two masters. */
  lemma DiffsDisjoint(chain: Chain, m: nat, n: nat, b: Block)
    requires ProperChain(chain) && 0 < m < n
    requires forall k :: m <= k <= n ==> Advances(chain, k)
    ensures !(b in DiffOf(chain, m) && b in DiffOf(chain, n))
  {
    if b in DiffOf(chain, m) {
      OneDiff(chain, m, b);
      OneDiff(chain, n, b);
      SeenFrom(chain, m, n - 1, b);
    }
  }
}
