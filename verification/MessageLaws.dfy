/** Merging messages again changes nothing, and their order does not matter. */
module MessageLaws {
  import opened Messages
  import opened Wrappers

  /** The last source seen for the message `o` in another object. */
  ghost function LastSrc(ms: seq<Message>, heap: Heap, o: Message): (r: Option<Half>)
    requires Among(ms, heap.Keys)
    ensures r.Some? ==> r.value.txLT != 0
  {
    if ms == [] then None
    else
      var m := ms[|ms| - 1];
      if m != o && m.hash == o.hash && heap[m].src.txLT != 0 then Some(heap[m].src) else LastSrc(ms[..|ms| - 1], heap, o)
  }

  /** The last destination seen for the message `o` in another object that has no source. */
  ghost function LastDst(ms: seq<Message>, heap: Heap, o: Message): Option<Half>
    requires Among(ms, heap.Keys)
  {
    if ms == [] then None
    else
      var m := ms[|ms| - 1];
      if m != o && m.hash == o.hash && heap[m].src.txLT == 0 && heap[m].dst.txLT != 0 then Some(heap[m].dst)
      else LastDst(ms[..|ms| - 1], heap, o)
  }

  function Or(h: Option<Half>, default: Half): Half {
    if h.Some? then h.value else default
  }

  ghost predicate Start(heap: Heap, ms: seq<Message>) {
    WellFormed(Work(map[], heap), heap.Keys) && Among(ms, heap.Keys)
  }

  /** What the merging leaves in an object: an owner has the last halves seen, any other object is as it was. */
  ghost function MergedValue(ms: seq<Message>, heap: Heap, uniq: map<nat, Message>, m: Message): Value
    requires Among(ms, heap.Keys) && m in heap
  {
    if m.hash in uniq && uniq[m.hash] == m then
      heap[m].(src := Or(LastSrc(ms, heap, m), heap[m].src), dst := Or(LastDst(ms, heap, m), heap[m].dst))
    else heap[m]
  }

  lemma {:induction false} NoOtherOfHash(ms: seq<Message>, heap: Heap, o: Message)
    requires Among(ms, heap.Keys) && forall m :: m in ms ==> m.hash != o.hash
    ensures LastSrc(ms, heap, o) == None && LastDst(ms, heap, o) == None
  {
    if ms != [] {
      NoOtherOfHash(ms[..|ms| - 1], heap, o);
    }
  }

  /** The hashes with an owner are those of the messages added. */
  lemma {:induction false} OwnersAreAdded(w: Work, ms: seq<Message>)
    requires Start(w.heap, ms) && w.uniq == map[]
    ensures forall h :: h in AddAll(w, ms).uniq ==> AddAll(w, ms).uniq[h] in ms
    ensures forall m :: m in ms ==> m.hash in AddAll(w, ms).uniq
  {
    if ms != [] {
      var init, last := ms[..|ms| - 1], ms[|ms| - 1];
      assert ms == init + [last];
      OwnersAreAdded(w, init);
    }
  }

  lemma {:induction false} MergedExactly(w: Work, ms: seq<Message>)
    requires Start(w.heap, ms) && w.uniq == map[]
    ensures forall m :: m in w.heap ==> AddAll(w, ms).heap[m] == MergedValue(ms, w.heap, AddAll(w, ms).uniq, m)
  {
    if ms != [] {
      var init, last := ms[..|ms| - 1], ms[|ms| - 1];
      assert ms == init + [last];
      MergedExactly(w, init);
      OwnersAreAdded(w, init);
      forall m | m in w.heap
        ensures AddAll(w, ms).heap[m] == MergedValue(ms, w.heap, AddAll(w, ms).uniq, m)
      {
        MergedNext(w, init, last, m);
      }
    }
  }

  lemma LastOfMore(init: seq<Message>, last: Message, heap: Heap, o: Message)
    requires Among(init, heap.Keys) && last in heap
    ensures Among(init + [last], heap.Keys)
    ensures var other := last != o && last.hash == o.hash;
            && LastSrc(init + [last], heap, o)
               == (if other && heap[last].src.txLT != 0 then Some(heap[last].src) else LastSrc(init, heap, o))
            && LastDst(init + [last], heap, o)
               == (if other && heap[last].src.txLT == 0 && heap[last].dst.txLT != 0 then Some(heap[last].dst) else LastDst(init, heap, o))
  {
    assert (init + [last])[..|init|] == init;
  }

  lemma MergedNext(w: Work, init: seq<Message>, last: Message, m: Message)
    requires Start(w.heap, init) && w.uniq == map[] && last in w.heap && m in w.heap
    requires AddAll(w, init).heap[m] == MergedValue(init, w.heap, AddAll(w, init).uniq, m)
    requires AddAll(w, init).heap[last] == MergedValue(init, w.heap, AddAll(w, init).uniq, last)
    requires forall x :: x in init ==> x.hash in AddAll(w, init).uniq
    ensures Among(init + [last], w.heap.Keys)
    ensures Add(AddAll(w, init), last).heap[m] == MergedValue(init + [last], w.heap, Add(AddAll(w, init), last).uniq, m)
  {
    var before := AddAll(w, init);
    LastOfMore(init, last, w.heap, m);
    if last.hash !in before.uniq {
      NoOtherOfHash(init, w.heap, last);
    } else {
      MergedIntoOwner(before, w.heap, init, last, m);
    }
  }

  lemma MergedIntoOwner(before: Work, heap: Heap, init: seq<Message>, last: Message, m: Message)
    requires WellFormed(before, before.heap.Keys) && before.heap.Keys == heap.Keys && Among(init, heap.Keys)
    requires last in heap && m in heap && last.hash in before.uniq
    requires before.heap[m] == MergedValue(init, heap, before.uniq, m)
    requires before.heap[last] == MergedValue(init, heap, before.uniq, last)
    ensures Among(init + [last], heap.Keys)
    ensures Add(before, last).heap[m] == MergedValue(init + [last], heap, before.uniq, m)
  {
    LastOfMore(init, last, heap, m);
  }

  // ------------------------------------------------------------------------- running again

  lemma {:induction false} SameOwners(v: Work, w: Work, ms: seq<Message>)
    requires Start(v.heap, ms) && Start(w.heap, ms) && v.uniq == map[] && w.uniq == map[] && v.heap.Keys == w.heap.Keys
    ensures AddAll(v, ms).uniq == AddAll(w, ms).uniq
  {
    if ms != [] {
      SameOwners(v, w, ms[..|ms| - 1]);
    }
  }

  lemma {:induction false} SameOthers(ms: seq<Message>, h: Heap, h': Heap, o: Message)
    requires Among(ms, h.Keys) && h.Keys == h'.Keys
    requires forall m :: m in ms && m != o && m.hash == o.hash ==> h[m] == h'[m]
    ensures LastSrc(ms, h, o) == LastSrc(ms, h', o) && LastDst(ms, h, o) == LastDst(ms, h', o)
  {
    if ms != [] {
      SameOthers(ms[..|ms| - 1], h, h', o);
    }
  }

  /** A settled object stays as it is when the same messages are merged again. */
  lemma MergedAgain(ms: seq<Message>, heap: Heap, uniq: map<nat, Message>, m: Message, settled: Heap, answer: Found)
    requires Among(ms, heap.Keys) && heap.Keys == settled.Keys && m in heap
    requires settled[m] == var v := MergedValue(ms, heap, uniq, m);
                           if m.hash in uniq && uniq[m.hash] == m then Sourced(v, answer) else v
    requires LastSrc(ms, heap, m) == LastSrc(ms, settled, m) && LastDst(ms, heap, m) == LastDst(ms, settled, m)
    ensures MergedValue(ms, settled, uniq, m) == settled[m]
    ensures Sourced(settled[m], answer) == Sourced(MergedValue(ms, heap, uniq, m), answer)
         || !(m.hash in uniq && uniq[m.hash] == m)
    ensures Skipped(settled[m], answer) == Skipped(MergedValue(ms, heap, uniq, m), answer)
         || !(m.hash in uniq && uniq[m.hash] == m)
  {
  }

  /** The first run, and where it leaves the objects. */
  ghost predicate FirstRun(heap: Heap, ms: seq<Message>, db: nat -> Found, w: Work, settled: Heap) {
    Start(heap, ms) && w == AddAll(Work(map[], heap), ms) && settled == Settle(w, db)
  }

  lemma SettledStarts(heap: Heap, ms: seq<Message>, db: nat -> Found, w: Work, settled: Heap)
    requires FirstRun(heap, ms, db, w, settled)
    ensures Start(settled, ms) && settled.Keys == heap.Keys == w.heap.Keys
    ensures AddAll(Work(map[], settled), ms).uniq == w.uniq
  {
    assert WellFormed(Work(map[], settled), heap.Keys);
    SameOwners(Work(map[], heap), Work(map[], settled), ms);
  }

  lemma SettledAgain(heap: Heap, ms: seq<Message>, db: nat -> Found, w: Work, settled: Heap, again: Work, m: Message)
    requires FirstRun(heap, ms, db, w, settled) && Start(settled, ms) && m in heap && settled.Keys == heap.Keys
    requires again == AddAll(Work(map[], settled), ms) && again.uniq == w.uniq
    ensures again.heap[m] == settled[m] && (Owns(w, m) ==> Sourced(settled[m], db(m.hash)) == settled[m])
    ensures Kept(again, db, m) <==> Kept(w, db, m)
  {
    MergedExactly(Work(map[], heap), ms);
    MergedExactly(Work(map[], settled), ms);
    if Owns(w, m) {
      assert forall x :: x in ms && x != m && x.hash == m.hash ==> !Owns(w, x) && settled[x] == heap[x];
      SameOthers(ms, heap, settled, m);
      MergedAgain(ms, heap, w.uniq, m, settled, db(m.hash));
    }
  }

  lemma SettledForAll(heap: Heap, ms: seq<Message>, db: nat -> Found, w: Work, settled: Heap, again: Work)
    requires FirstRun(heap, ms, db, w, settled) && Start(settled, ms) && settled.Keys == heap.Keys == w.heap.Keys
    requires again == AddAll(Work(map[], settled), ms) && again.uniq == w.uniq
    ensures again.heap == settled
    ensures forall m :: m in heap && Owns(w, m) ==> Sourced(settled[m], db(m.hash)) == settled[m]
    ensures forall m :: m in heap ==> (Kept(again, db, m) <==> Kept(w, db, m))
  {
    forall m | m in heap
      ensures again.heap[m] == settled[m] && (Owns(w, m) ==> Sourced(settled[m], db(m.hash)) == settled[m])
      ensures Kept(again, db, m) <==> Kept(w, db, m)
    {
      SettledAgain(heap, ms, db, w, settled, again, m);
    }
  }

  /**
   Merging again, with the objects as the first run left them and the database unchanged, keeps the same
   objects, changes nothing in any of them, and gives the same result.
   */
  lemma RerunChangesNothing(heap: Heap, ms: seq<Message>, db: nat -> Found, w: Work, settled: Heap)
    requires FirstRun(heap, ms, db, w, settled)
    ensures Start(settled, ms)
    ensures AddAll(Work(map[], settled), ms) == Work(w.uniq, settled)
    ensures Settle(Work(w.uniq, settled), db) == settled
    ensures forall m :: m in heap ==> (Kept(Work(w.uniq, settled), db, m) <==> Kept(w, db, m))
  {
    SettledStarts(heap, ms, db, w, settled);
    SettledForAll(heap, ms, db, w, settled, AddAll(Work(map[], settled), ms));
  }

  // ------------------------------------------------------------------------- any order

  /** A half that was not seen; its workchain is known from the address all the same. */
  function NoHalf(workchain: int): Half {
    Half(0, 0, workchain, 0, 0, None)
  }

  /** A message as it was fetched: one half seen at most, and of the other one only the workchain known. */
  predicate Fetched(v: Value) {
    && (v.src.txLT != 0 || v.src == NoHalf(v.srcAddressWorkchain))
    && (v.dst.txLT != 0 || v.dst == NoHalf(v.dstAddressWorkchain))
    && (v.src.txLT == 0 || v.dst.txLT == 0)
  }

  /** Two messages of one hash: the same message, with no two different sources and no two different destinations. */
  predicate Agree(v: Value, v': Value) {
    && v.hash == v'.hash && v.kind == v'.kind
    && v.srcAddressWorkchain == v'.srcAddressWorkchain && v.dstAddressWorkchain == v'.dstAddressWorkchain
    && (v.src.txLT != 0 && v'.src.txLT != 0 ==> v.src == v'.src)
    && (v.dst.txLT != 0 && v'.dst.txLT != 0 ==> v.dst == v'.dst)
  }

  ghost predicate Clean(ms: seq<Message>, heap: Heap) {
    && Start(heap, ms)
    && (forall m :: m in ms ==> Fetched(heap[m]))
    && (forall m, m' :: m in ms && m' in ms && m.hash == m'.hash ==> Agree(heap[m], heap[m']))
  }

  ghost predicate SrcSeen(ms: seq<Message>, heap: Heap, hash: nat, half: Half)
    requires Among(ms, heap.Keys)
  {
    half.txLT != 0 && exists m :: m in ms && m.hash == hash && heap[m].src == half
  }

  ghost predicate DstSeen(ms: seq<Message>, heap: Heap, hash: nat, half: Half)
    requires Among(ms, heap.Keys)
  {
    half.txLT != 0 && exists m :: m in ms && m.hash == hash && heap[m].dst == half
  }

  /** `v` has the source seen, and none if none was seen; and likewise the destination. */
  ghost predicate Joins(v: Value, ms: seq<Message>, heap: Heap)
    requires Among(ms, heap.Keys)
  {
    && (SrcSeen(ms, heap, v.hash, v.src)
        || (v.src == NoHalf(v.srcAddressWorkchain) && forall m :: m in ms && m.hash == v.hash ==> heap[m].src.txLT == 0))
    && (DstSeen(ms, heap, v.hash, v.dst)
        || (v.dst == NoHalf(v.dstAddressWorkchain) && forall m :: m in ms && m.hash == v.hash ==> heap[m].dst.txLT == 0))
    && (forall m :: m in ms && m.hash == v.hash ==> Agree(v, heap[m]))
  }

  lemma {:induction false} LastSeen(ms: seq<Message>, heap: Heap, o: Message)
    requires Among(ms, heap.Keys) && forall m :: m in ms ==> Fetched(heap[m])
    ensures LastSrc(ms, heap, o).Some? ==> SrcSeen(ms, heap, o.hash, LastSrc(ms, heap, o).value)
    ensures LastDst(ms, heap, o).Some? ==> DstSeen(ms, heap, o.hash, LastDst(ms, heap, o).value)
    ensures LastSrc(ms, heap, o).None? ==> forall m :: m in ms && m != o && m.hash == o.hash ==> heap[m].src.txLT == 0
    ensures LastDst(ms, heap, o).None? ==> forall m :: m in ms && m != o && m.hash == o.hash ==> heap[m].dst.txLT == 0
  {
    if ms != [] {
      var init, last := ms[..|ms| - 1], ms[|ms| - 1];
      assert ms == init + [last];
      LastSeen(init, heap, o);
    }
  }

  /** The merged message has both halves, wherever in the list they were. */
  lemma MergedJoins(ms: seq<Message>, heap: Heap, o: Message)
    requires Clean(ms, heap) && Owns(AddAll(Work(map[], heap), ms), o)
    ensures Joins(AddAll(Work(map[], heap), ms).heap[o], ms, heap)
  {
    MergedExactly(Work(map[], heap), ms);
    OwnersAreAdded(Work(map[], heap), ms);
    LastSeen(ms, heap, o);
  }

  /** What the messages hold, each value once. */
  ghost function Values(ms: seq<Message>, heap: Heap): set<Value>
    requires Among(ms, heap.Keys)
  {
    set m | m in ms :: heap[m]
  }

  lemma Holder(ms: seq<Message>, heap: Heap, v: Value) returns (m: Message)
    requires Start(heap, ms) && v in Values(ms, heap)
    ensures m in ms && heap[m] == v && m.hash == v.hash
  {
    m :| m in ms && heap[m] == v;
  }

  lemma JoinsIsUnique(v: Value, ms: seq<Message>, heap: Heap, v': Value, ms': seq<Message>, heap': Heap, m: Message)
    requires Start(heap, ms) && Start(heap', ms') && Values(ms, heap) == Values(ms', heap')
    requires Joins(v, ms, heap) && Joins(v', ms', heap') && v.hash == v'.hash
    requires m in ms && m.hash == v.hash
    ensures v == v'
  {
    assert heap[m] in Values(ms, heap);
    var m' := Holder(ms', heap', heap[m]);
    assert Agree(v, heap[m]) && Agree(v', heap'[m']);
    SameSource(v, ms, heap, v', ms', heap');
    SameSource(v', ms', heap', v, ms, heap);
    SameDestination(v, ms, heap, v', ms', heap');
    SameDestination(v', ms', heap', v, ms, heap);
  }

  lemma SameSource(v: Value, ms: seq<Message>, heap: Heap, v': Value, ms': seq<Message>, heap': Heap)
    requires Start(heap, ms) && Start(heap', ms') && Values(ms, heap) == Values(ms', heap')
    requires Joins(v, ms, heap) && Joins(v', ms', heap') && v.hash == v'.hash
    ensures v.src.txLT != 0 ==> v'.src == v.src
    ensures v.src.txLT == 0 ==> v.src == NoHalf(v.srcAddressWorkchain)
  {
    if v.src.txLT != 0 {
      var m :| m in ms && m.hash == v.hash && heap[m].src == v.src;
      assert heap[m] in Values(ms, heap);
      var m' := Holder(ms', heap', heap[m]);
      assert Agree(v', heap'[m']);
    }
  }

  lemma SameDestination(v: Value, ms: seq<Message>, heap: Heap, v': Value, ms': seq<Message>, heap': Heap)
    requires Start(heap, ms) && Start(heap', ms') && Values(ms, heap) == Values(ms', heap')
    requires Joins(v, ms, heap) && Joins(v', ms', heap') && v.hash == v'.hash
    ensures v.dst.txLT != 0 ==> v'.dst == v.dst
    ensures v.dst.txLT == 0 ==> v.dst == NoHalf(v.dstAddressWorkchain)
  {
    if v.dst.txLT != 0 {
      var m :| m in ms && m.hash == v.hash && heap[m].dst == v.dst;
      assert heap[m] in Values(ms, heap);
      var m' := Holder(ms', heap', heap[m]);
      assert Agree(v', heap'[m']);
    }
  }

  lemma SameOwner(ms: seq<Message>, heap: Heap, ms': seq<Message>, heap': Heap, hash: nat)
    requires Start(heap, ms) && Start(heap', ms') && Values(ms, heap) == Values(ms', heap')
    ensures hash in AddAll(Work(map[], heap), ms).uniq ==> hash in AddAll(Work(map[], heap'), ms').uniq
  {
    OwnersAreAdded(Work(map[], heap), ms);
    OwnersAreAdded(Work(map[], heap'), ms');
    var uniq := AddAll(Work(map[], heap), ms).uniq;
    if hash in uniq {
      assert heap[uniq[hash]] in Values(ms, heap);
      var m' := Holder(ms', heap', heap[uniq[hash]]);
    }
  }

  /** The outcome for one hash: what its message holds in the end, and whether it is kept. */
  ghost function Outcome(ms: seq<Message>, heap: Heap, db: nat -> Found, hash: nat): Option<(Value, bool)>
    requires Start(heap, ms)
  {
    var w := AddAll(Work(map[], heap), ms);
    if hash in w.uniq then Some((Settle(w, db)[w.uniq[hash]], Kept(w, db, w.uniq[hash]))) else None
  }

  lemma OutcomeOfMerged(ms: seq<Message>, heap: Heap, db: nat -> Found, hash: nat) returns (o: Message)
    requires Clean(ms, heap) && hash in AddAll(Work(map[], heap), ms).uniq
    ensures o in ms && o.hash == hash && o in AddAll(Work(map[], heap), ms).heap
    ensures var v := AddAll(Work(map[], heap), ms).heap[o];
            v.hash == hash && Joins(v, ms, heap) && Outcome(ms, heap, db, hash) == Some((Sourced(v, db(hash)), !Skipped(v, db(hash))))
  {
    OwnersAreAdded(Work(map[], heap), ms);
    o := AddAll(Work(map[], heap), ms).uniq[hash];
    MergedJoins(ms, heap, o);
  }

  /** In whatever order and number the same messages come, each hash is kept or dropped alike, with the same contents. */
  lemma OrderDoesNotMatter(ms: seq<Message>, heap: Heap, ms': seq<Message>, heap': Heap, db: nat -> Found, hash: nat)
    requires Clean(ms, heap) && Clean(ms', heap') && Values(ms, heap) == Values(ms', heap')
    ensures Outcome(ms, heap, db, hash) == Outcome(ms', heap', db, hash)
  {
    SameOwner(ms, heap, ms', heap', hash);
    SameOwner(ms', heap', ms, heap, hash);
    if hash in AddAll(Work(map[], heap), ms).uniq {
      var o := OutcomeOfMerged(ms, heap, db, hash);
      var o' := OutcomeOfMerged(ms', heap', db, hash);
      JoinsIsUnique(AddAll(Work(map[], heap), ms).heap[o], ms, heap, AddAll(Work(map[], heap'), ms').heap[o'], ms', heap', o);
    }
  }

  /**
   Dropped are exactly the internal messages of which only the destination was seen, with no known source,
   and between addresses outside the masterchain.
   */
  lemma DroppedExactly(ms: seq<Message>, heap: Heap, db: nat -> Found, m: Message)
    requires Clean(ms, heap) && m in ms
    ensures var w := AddAll(Work(map[], heap), ms);
            && m.hash in w.uniq
            && (!Kept(w, db, w.uniq[m.hash]) <==>
                  && heap[m].kind == Internal && heap[m].srcAddressWorkchain != -1 && heap[m].dstAddressWorkchain != -1
                  && (forall x :: x in ms && x.hash == m.hash ==> heap[x].src.txLT == 0)
                  && (exists x :: x in ms && x.hash == m.hash && heap[x].dst.txLT != 0)
                  && db(m.hash) == NotFound)
  {
    var w := AddAll(Work(map[], heap), ms);
    OwnersAreAdded(Work(map[], heap), ms);
    var o := w.uniq[m.hash];
    MergedJoins(ms, heap, o);
    assert Agree(w.heap[o], heap[m]);
  }
}
