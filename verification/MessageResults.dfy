/** Which messages the transactions of a batch give, and what these hold. */
module MessageResults {
  import opened MessageLaws
  import opened Messages
  import opened Wrappers

  /** Some transaction has the message coming in or going out. */
  ghost predicate Brought(txs: seq<Transaction>, m: Message) {
    exists tx :: tx in txs && (tx.inMsg == Some(m) || m in tx.outMsg)
  }

  lemma {:induction false} AllMessagesExactly(txs: seq<Transaction>, m: Message)
    ensures m in AllMessages(txs) <==> Brought(txs, m)
  {
    if txs != [] {
      var init, last := txs[..|txs| - 1], txs[|txs| - 1];
      assert txs == init + [last];
      AllMessagesExactly(init, m);
      assert m in MessagesOf(last) <==> last.inMsg == Some(m) || m in last.outMsg;
      if m in MessagesOf(last) { assert last in txs; }
    }
  }

  /** Of the hash of `m` no source was seen. */
  ghost predicate SourceUnseen(txs: seq<Transaction>, heap: Heap, hash: nat)
    requires Among(AllMessages(txs), heap.Keys)
  {
    forall x :: x in heap && Brought(txs, x) && x.hash == hash ==> heap[x].src.txLT == 0
  }

  ghost predicate DestinationUnseen(txs: seq<Transaction>, heap: Heap, hash: nat)
    requires Among(AllMessages(txs), heap.Keys)
  {
    forall x :: x in heap && Brought(txs, x) && x.hash == hash ==> heap[x].dst.txLT == 0
  }

  /** An internal message of which only the destination was seen: its source is looked for in the database. */
  ghost predicate LookedUp(txs: seq<Transaction>, heap: Heap, m: Message)
    requires Among(AllMessages(txs), heap.Keys) && m in heap
  {
    heap[m].kind == Internal && SourceUnseen(txs, heap, m.hash) && !DestinationUnseen(txs, heap, m.hash)
  }

  /** It is dropped if it is not found there, and both its addresses are outside the masterchain. */
  ghost predicate IsDropped(txs: seq<Transaction>, heap: Heap, db: nat -> Found, m: Message)
    requires Among(AllMessages(txs), heap.Keys) && m in heap
  {
    LookedUp(txs, heap, m) && db(m.hash) == NotFound && heap[m].srcAddressWorkchain != -1 && heap[m].dstAddressWorkchain != -1
  }

  /** `v` is what the result for the message `m` has to hold. */
  ghost predicate Fulfils(v: Value, txs: seq<Transaction>, heap: Heap, db: nat -> Found, m: Message)
    requires Among(AllMessages(txs), heap.Keys) && m in heap
  {
    && v.hash == m.hash && v.kind == heap[m].kind
    && v.srcAddressWorkchain == heap[m].srcAddressWorkchain && v.dstAddressWorkchain == heap[m].dstAddressWorkchain
    && (heap[m].src.txLT != 0 ==> v.src == heap[m].src)
    && (heap[m].dst.txLT != 0 ==> v.dst == heap[m].dst)
    && (DestinationUnseen(txs, heap, m.hash) ==> v.dst == NoHalf(heap[m].dstAddressWorkchain))
    && (SourceUnseen(txs, heap, m.hash) ==>
          if LookedUp(txs, heap, m) && db(m.hash).Found? then
            var s := db(m.hash).source;
            v.src == Half(s.txLT, 0, heap[m].srcAddressWorkchain, s.shard, s.blockSeqNo, s.state)
          else v.src == NoHalf(heap[m].srcAddressWorkchain))
  }

  /**
   For every message of the transactions there is one result of its hash, unless it is dropped, and that
   holds what it has to; no result is of any other hash.
   */
  ghost predicate Delivered(txs: seq<Transaction>, heap: Heap, db: nat -> Found, settled: Heap, ret: seq<Message>)
    requires Among(AllMessages(txs), heap.Keys) && heap.Keys == settled.Keys
  {
    && (forall i, j :: 0 <= i < j < |ret| ==> ret[i].hash != ret[j].hash)
    && (forall r :: r in ret ==> r in heap && Brought(txs, r))
    && (forall m :: m in heap && Brought(txs, m) ==> ((forall r :: r in ret ==> r.hash != m.hash) <==> IsDropped(txs, heap, db, m)))
    && (forall m, r :: m in heap && Brought(txs, m) && r in ret && r.hash == m.hash && r in heap ==> Fulfils(settled[r], txs, heap, db, m))
  }

  // ------------------------------------------------------------------------- from the laws of merging

  lemma UnseenExactly(txs: seq<Transaction>, heap: Heap, hash: nat)
    requires Among(AllMessages(txs), heap.Keys)
    ensures SourceUnseen(txs, heap, hash) <==> forall x :: x in AllMessages(txs) && x.hash == hash ==> heap[x].src.txLT == 0
    ensures DestinationUnseen(txs, heap, hash) <==> forall x :: x in AllMessages(txs) && x.hash == hash ==> heap[x].dst.txLT == 0
  {
    forall x | x in heap
      ensures x in AllMessages(txs) <==> Brought(txs, x)
    {
      AllMessagesExactly(txs, x);
    }
  }

  lemma DroppedIsDropped(txs: seq<Transaction>, heap: Heap, db: nat -> Found, m: Message)
    requires Clean(AllMessages(txs), heap) && m in AllMessages(txs)
    ensures var w := AddAll(Work(map[], heap), AllMessages(txs));
            m.hash in w.uniq && (!Kept(w, db, w.uniq[m.hash]) <==> IsDropped(txs, heap, db, m))
  {
    DroppedExactly(AllMessages(txs), heap, db, m);
    UnseenExactly(txs, heap, m.hash);
  }

  /** A message that joins all halves seen is sourced as it has to be. */
  lemma JoinedFulfils(v: Value, txs: seq<Transaction>, heap: Heap, db: nat -> Found, m: Message)
    requires Clean(AllMessages(txs), heap) && m in AllMessages(txs)
    requires Joins(v, AllMessages(txs), heap) && v.hash == m.hash
    ensures Fulfils(Sourced(v, db(m.hash)), txs, heap, db, m)
  {
    var ms := AllMessages(txs);
    UnseenExactly(txs, heap, m.hash);
    assert heap[m].hash == m.hash && Agree(v, heap[m]);
    if v.src.txLT != 0 {
      var x :| x in ms && x.hash == v.hash && heap[x].src == v.src;
    }
    if v.dst.txLT != 0 {
      var x :| x in ms && x.hash == v.hash && heap[x].dst == v.dst;
    }
  }

  lemma ResultFulfils(txs: seq<Transaction>, heap: Heap, db: nat -> Found, m: Message, r: Message)
    requires Clean(AllMessages(txs), heap) && m in AllMessages(txs)
    requires Owns(AddAll(Work(map[], heap), AllMessages(txs)), r) && r.hash == m.hash
    ensures r in heap && Fulfils(Settle(AddAll(Work(map[], heap), AllMessages(txs)), db)[r], txs, heap, db, m)
  {
    var w := AddAll(Work(map[], heap), AllMessages(txs));
    MergedJoins(AllMessages(txs), heap, r);
    JoinedFulfils(w.heap[r], txs, heap, db, m);
  }

  lemma ResultsDeliver(txs: seq<Transaction>, heap: Heap, db: nat -> Found, ret: seq<Message>)
    requires Clean(AllMessages(txs), heap)
    requires Results(ret, AddAll(Work(map[], heap), AllMessages(txs)), db, {})
    ensures Delivered(txs, heap, db, Settle(AddAll(Work(map[], heap), AllMessages(txs)), db), ret)
  {
    var ms := AllMessages(txs);
    var w := AddAll(Work(map[], heap), ms);
    OwnersAreAdded(Work(map[], heap), ms);
    forall r | r in ret
      ensures r in heap && Brought(txs, r)
    {
      assert Kept(w, db, r);
      AllMessagesExactly(txs, r);
    }
    forall m | m in heap && Brought(txs, m)
      ensures (forall r :: r in ret ==> r.hash != m.hash) <==> IsDropped(txs, heap, db, m)
      ensures forall r :: r in ret && r.hash == m.hash && r in heap ==> Fulfils(Settle(w, db)[r], txs, heap, db, m)
    {
      AllMessagesExactly(txs, m);
      DroppedIsDropped(txs, heap, db, m);
      var o := w.uniq[m.hash];
      assert forall r :: r in ret && r.hash == m.hash ==> Kept(w, db, r) && r == o;
      assert Kept(w, db, o) ==> o in ret;
      ResultFulfils(txs, heap, db, m, o);
    }
  }

  // ------------------------------------------------------------------------- the operation

  /** The messages of the transactions, each once, in any order; `db` is what the database answers. */
  method UniqMessages(transactions: seq<Transaction>, db: nat -> Found, ghost all: set<Message>) returns (ret: seq<Message>)
    requires Among(AllMessages(transactions), all)
    modifies all
    ensures WellFormed(Work(map[], old(Snapshot(all))), all)
    ensures var w := AddAll(Work(map[], old(Snapshot(all))), AllMessages(transactions));
            Snapshot(all) == Settle(w, db) && Results(ret, w, db, {})
    ensures Clean(AllMessages(transactions), old(Snapshot(all))) ==>
              Delivered(transactions, old(Snapshot(all)), db, Snapshot(all), ret)
  {
    ghost var heap := Snapshot(all);
    var uniqMsg := AddMessages(transactions, all);
    ret := LookThrough(uniqMsg, db, all, Work(uniqMsg, Snapshot(all)));
    if Clean(AllMessages(transactions), heap) {
      ResultsDeliver(transactions, heap, db, ret);
    }
  }
}
