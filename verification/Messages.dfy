/** Merging the two halves of each message in place. */
module Messages {
  import opened Wrappers

  datatype Kind = Internal | ExternalIn | ExternalOut

  /** One end of a message: the transaction it was seen in, and where that is. A time of 0 means not seen. */
  datatype Half = Half(txLT: nat, txHash: nat, workchain: int, shard: int, blockSeqNo: nat, state: Option<nat>)

  /** What a message object holds. */
  datatype Value = Value(hash: nat, kind: Kind, srcAddressWorkchain: int, dstAddressWorkchain: int, src: Half, dst: Half)

  /** What the database knows of a message; other failures of the query stop the program. */
  datatype Found = Found(source: Half) | NotFound

  class Message {
    const hash: nat
    const kind: Kind
    const srcAddressWorkchain: int
    const dstAddressWorkchain: int
    var src: Half
    var dst: Half

    constructor (v: Value)
      ensures Get() == v
    {
      hash, kind, srcAddressWorkchain, dstAddressWorkchain := v.hash, v.kind, v.srcAddressWorkchain, v.dstAddressWorkchain;
      src, dst := v.src, v.dst;
    }

    ghost function Get(): Value
      reads this
    {
      Value(hash, kind, srcAddressWorkchain, dstAddressWorkchain, src, dst)
    }
  }

  datatype Transaction = Transaction(inMsg: Option<Message>, outMsg: seq<Message>)

  /** The messages of a transaction, in the order in which they are added. */
  function MessagesOf(tx: Transaction): seq<Message> {
    (if tx.inMsg.Some? then [tx.inMsg.value] else []) + tx.outMsg
  }

  function AllMessages(txs: seq<Transaction>): seq<Message> {
    if txs == [] then [] else AllMessages(txs[..|txs| - 1]) + MessagesOf(txs[|txs| - 1])
  }

  // ------------------------------------------------------------------------- specification

  /** What message objects hold, at some moment. */
  type Heap = map<Message, Value>

  ghost function Snapshot(all: set<Message>): Heap
    reads all
  {
    map m | m in all :: m.Get()
  }

  function Merge(owner: Value, v: Value): Value {
    if v.src.txLT != 0 then owner.(src := v.src)
    else if v.dst.txLT != 0 then owner.(dst := v.dst)
    else owner
  }

  /** The object kept for each hash, and what all objects hold. */
  datatype Work = Work(uniq: map<nat, Message>, heap: Heap)

  ghost predicate WellFormed(w: Work, all: set<Message>) {
    && w.heap.Keys == all
    && (forall m :: m in w.heap ==> w.heap[m].hash == m.hash)
    && (forall h :: h in w.uniq ==> w.uniq[h] in all && w.uniq[h].hash == h)
  }

  ghost function Add(w: Work, m: Message): Work
    requires WellFormed(w, w.heap.Keys) && m in w.heap
    ensures WellFormed(Add(w, m), w.heap.Keys)
  {
    if m.hash !in w.uniq then w.(uniq := w.uniq[m.hash := m])
    else
      var owner := w.uniq[m.hash];
      w.(heap := w.heap[owner := Merge(w.heap[owner], w.heap[m])])
  }

  ghost function AddAll(w: Work, ms: seq<Message>): Work
    requires WellFormed(w, w.heap.Keys) && forall m :: m in ms ==> m in w.heap
    ensures WellFormed(AddAll(w, ms), w.heap.Keys)
  {
    if ms == [] then w else Add(AddAll(w, ms[..|ms| - 1]), ms[|ms| - 1])
  }

  predicate NeedsSource(v: Value) {
    v.kind == Internal && v.src.txLT == 0 && v.dst.txLT != 0
  }

  /** The source as the database has it; the transaction's hash and the workchain are not copied. */
  function Sourced(v: Value, answer: Found): Value {
    if NeedsSource(v) && answer.Found? then
      var s := answer.source;
      v.(src := v.src.(txLT := s.txLT, shard := s.shard, blockSeqNo := s.blockSeqNo, state := s.state))
    else v
  }

  predicate Skipped(v: Value, answer: Found) {
    NeedsSource(v) && answer.NotFound? && v.srcAddressWorkchain != -1 && v.dstAddressWorkchain != -1
  }

  ghost predicate Owns(w: Work, m: Message) {
    m.hash in w.uniq && w.uniq[m.hash] == m
  }

  /** What the objects hold once the messages are looked through, except those of the hashes `rest`. */
  ghost function SettleExcept(w: Work, db: nat -> Found, rest: set<nat>): Heap
    requires WellFormed(w, w.heap.Keys)
  {
    map m | m in w.heap :: if Owns(w, m) && m.hash !in rest then Sourced(w.heap[m], db(m.hash)) else w.heap[m]
  }

  /** What the objects hold in the end. */
  ghost function Settle(w: Work, db: nat -> Found): Heap
    requires WellFormed(w, w.heap.Keys)
  {
    SettleExcept(w, db, {})
  }

  /** Whether the message is among the results. */
  ghost predicate Kept(w: Work, db: nat -> Found, m: Message)
    requires WellFormed(w, w.heap.Keys)
  {
    Owns(w, m) && !Skipped(w.heap[m], db(m.hash))
  }

  // ------------------------------------------------------------------------- the operations

  method AddMessage(msg: Message, uniqMsg: map<nat, Message>, ghost all: set<Message>) returns (uniq: map<nat, Message>)
    requires msg in all && WellFormed(Work(uniqMsg, Snapshot(all)), all)
    modifies all
    ensures Work(uniq, Snapshot(all)) == Add(Work(uniqMsg, old(Snapshot(all))), msg)
  {
    if msg.hash !in uniqMsg {
      return uniqMsg[msg.hash := msg];
    }
    var owner := uniqMsg[msg.hash];
    ghost var v := msg.Get();
    if msg.src.txLT != 0 {
      owner.src := msg.src;
    } else if msg.dst.txLT != 0 {
      owner.dst := msg.dst;
    }
    uniq := uniqMsg;
    assert forall m :: m in all && m != owner ==> m.Get() == old(m.Get());
  }

  /** Looks up the source of a message whose source transaction was not seen. */
  method GetMessageSource(msg: Message, answer: Found) returns (skip: bool)
    requires NeedsSource(msg.Get())
    modifies msg
    ensures msg.Get() == Sourced(old(msg.Get()), answer)
    ensures answer.Found? ==>
              && msg.src.txLT == answer.source.txLT && msg.src.shard == answer.source.shard
              && msg.src.blockSeqNo == answer.source.blockSeqNo && msg.src.state == answer.source.state
              && msg.src.txHash == old(msg.src.txHash) && msg.src.workchain == old(msg.src.workchain)
    ensures msg.dst == old(msg.dst) && (answer.NotFound? ==> msg.src == old(msg.src))
    ensures skip == Skipped(old(msg.Get()), answer)
    ensures skip <==> answer.NotFound? && msg.srcAddressWorkchain != -1 && msg.dstAddressWorkchain != -1
  {
    match answer
    case Found(source) =>
      msg.src := msg.src.(txLT := source.txLT, shard := source.shard, blockSeqNo := source.blockSeqNo, state := source.state);
      skip := false;
    case NotFound =>
      skip := !(msg.srcAddressWorkchain == -1 || msg.dstAddressWorkchain == -1);
  }

  /** The first loop: every message of every transaction is added. */
  method AddMessages(transactions: seq<Transaction>, ghost all: set<Message>) returns (uniqMsg: map<nat, Message>)
    requires Among(AllMessages(transactions), all)
    modifies all
    ensures WellFormed(Work(map[], old(Snapshot(all))), all)
    ensures Work(uniqMsg, Snapshot(all)) == AddAll(Work(map[], old(Snapshot(all))), AllMessages(transactions))
  {
    uniqMsg := map[];
    ghost var w := Work(map[], Snapshot(all));
    var j := 0;
    assert transactions[..0] == [];
    while j < |transactions|
      invariant j <= |transactions|
      invariant Among(AllMessages(transactions[..j]), all)
      invariant Work(uniqMsg, Snapshot(all)) == AddAll(w, AllMessages(transactions[..j]))
    {
      var tx := transactions[j];
      ghost var before := AllMessages(transactions[..j]);
      assert transactions[..j + 1][..j] == transactions[..j];
      assert AllMessages(transactions[..j + 1]) == before + MessagesOf(tx);
      Within(transactions, j + 1);
      uniqMsg := AddOfTransaction(tx, uniqMsg, all, w, before);
      j := j + 1;
    }
    assert transactions[..|transactions|] == transactions;
  }

  lemma {:induction false} Within(transactions: seq<Transaction>, j: nat)
    requires j <= |transactions|
    ensures forall m :: m in AllMessages(transactions[..j]) ==> m in AllMessages(transactions)
    decreases |transactions| - j
  {
    if j < |transactions| {
      Within(transactions, j + 1);
      assert transactions[..j + 1][..j] == transactions[..j];
    } else {
      assert transactions[..j] == transactions;
    }
  }

  method AddOfTransaction(tx: Transaction, uniqMsg: map<nat, Message>, ghost all: set<Message>, ghost w: Work, ghost before: seq<Message>)
    returns (uniq: map<nat, Message>)
    requires WellFormed(w, all) && Among(before + MessagesOf(tx), all) && Among(before, all)
    requires Work(uniqMsg, Snapshot(all)) == AddAll(w, before)
    modifies all
    ensures Work(uniq, Snapshot(all)) == AddAll(w, before + MessagesOf(tx))
  {
    uniq := uniqMsg;
    ghost var added := before + if tx.inMsg.Some? then [tx.inMsg.value] else [];
    assert before + MessagesOf(tx) == added + tx.outMsg;
    assert Among(added + tx.outMsg, all) && forall m :: m in added ==> m in added + tx.outMsg;
    if tx.inMsg.Some? {
      uniq := AddNext(tx.inMsg.value, uniq, all, w, before);
    } else {
      assert added == before;
    }
    uniq := AddOutgoing(tx.outMsg, uniq, all, w, added);
  }

  lemma AddOneMore(w: Work, before: seq<Message>, m: Message)
    requires WellFormed(w, w.heap.Keys) && m in w.heap && forall x :: x in before ==> x in w.heap
    ensures AddAll(w, before + [m]) == Add(AddAll(w, before), m)
  {
    assert (before + [m])[..|before|] == before;
  }

  ghost predicate Among(ms: seq<Message>, all: set<Message>) {
    forall m :: m in ms ==> m in all
  }

  lemma AmongPrefix(before: seq<Message>, ms: seq<Message>, i: nat, all: set<Message>)
    requires Among(before + ms, all) && i < |ms|
    ensures Among(before + ms[..i], all) && ms[i] in all
    ensures before + ms[..i + 1] == before + ms[..i] + [ms[i]]
  {
    forall m | m in before + ms[..i]
      ensures m in before + ms
    {
    }
    assert ms[i] in before + ms;
  }

  method AddOutgoing(outMsg: seq<Message>, uniqMsg: map<nat, Message>, ghost all: set<Message>, ghost w: Work, ghost before: seq<Message>)
    returns (uniq: map<nat, Message>)
    requires WellFormed(w, all) && Among(before + outMsg, all) && Among(before, all)
    requires Work(uniqMsg, Snapshot(all)) == AddAll(w, before)
    modifies all
    ensures Work(uniq, Snapshot(all)) == AddAll(w, before + outMsg)
  {
    uniq := uniqMsg;
    var i := 0;
    ghost var added := before;
    while i < |outMsg|
      invariant i <= |outMsg| && added == before + outMsg[..i] && Among(added, all)
      invariant Work(uniq, Snapshot(all)) == AddAll(w, added)
    {
      var out := outMsg[i];
      AmongPrefix(before, outMsg, i, all);
      uniq := AddNext(out, uniq, all, w, added);
      added := added + [out];
      i := i + 1;
    }
    assert outMsg[..|outMsg|] == outMsg;
  }

  method AddNext(msg: Message, uniqMsg: map<nat, Message>, ghost all: set<Message>, ghost w: Work, ghost before: seq<Message>)
    returns (uniq: map<nat, Message>)
    requires WellFormed(w, all) && Among(before, all) && msg in all
    requires Work(uniqMsg, Snapshot(all)) == AddAll(w, before)
    modifies all
    ensures Work(uniq, Snapshot(all)) == AddAll(w, before + [msg])
  {
    AddOneMore(w, before, msg);
    uniq := AddMessage(msg, uniqMsg, all);
  }

  /** The body of the second loop. */
  method SettleOne(msg: Message, db: nat -> Found, ghost all: set<Message>, ghost w: Work, ghost rest: set<nat>) returns (skip: bool)
    requires WellFormed(w, all) && Owns(w, msg) && msg.hash in rest && Snapshot(all) == SettleExcept(w, db, rest)
    modifies all
    ensures Snapshot(all) == SettleExcept(w, db, rest - {msg.hash})
    ensures skip == Skipped(w.heap[msg], db(msg.hash))
  {
    assert msg.Get() == Snapshot(all)[msg] == w.heap[msg];
    skip := false;
    if msg.kind == Internal && msg.src.txLT == 0 && msg.dst.txLT != 0 {
      skip := GetMessageSource(msg, db(msg.hash));
    }
    assert msg.Get() == Sourced(w.heap[msg], db(msg.hash));
    forall m | m in all
      ensures m.Get() == SettleExcept(w, db, rest - {msg.hash})[m]
    {
      assert m != msg ==> m.Get() == old(Snapshot(all)[m]);
      assert Owns(w, m) && m.hash == msg.hash ==> m == msg;
    }
  }

  /** `ret` lists the messages kept so far, each once. */
  ghost predicate Results(ret: seq<Message>, w: Work, db: nat -> Found, rest: set<nat>)
    requires WellFormed(w, w.heap.Keys)
  {
    && (forall m :: m in ret ==> Kept(w, db, m) && m.hash !in rest)
    && (forall m :: m in w.heap && Kept(w, db, m) && m.hash !in rest ==> m in ret)
    && (forall i, j :: 0 <= i < j < |ret| ==> ret[i].hash != ret[j].hash)
  }

  lemma OneMoreResult(ret: seq<Message>, w: Work, db: nat -> Found, rest: set<nat>, msg: Message)
    requires WellFormed(w, w.heap.Keys) && Results(ret, w, db, rest) && Owns(w, msg) && msg.hash in rest
    ensures Results(if Kept(w, db, msg) then ret + [msg] else ret, w, db, rest - {msg.hash})
  {
    assert forall m :: m in w.heap && Owns(w, m) && m.hash == msg.hash ==> m == msg;
    assert forall i :: 0 <= i < |ret| ==> ret[i] in ret && ret[i].hash != msg.hash;
  }

  /** The second loop. */
  method LookThrough(uniqMsg: map<nat, Message>, db: nat -> Found, ghost all: set<Message>, ghost w: Work) returns (ret: seq<Message>)
    requires WellFormed(w, all) && w.uniq == uniqMsg && Snapshot(all) == w.heap
    modifies all
    ensures Snapshot(all) == Settle(w, db) && Results(ret, w, db, {})
  {
    ret := [];
    var rest := uniqMsg.Keys;
    while rest != {}
      invariant rest <= uniqMsg.Keys && Snapshot(all) == SettleExcept(w, db, rest)
      invariant Results(ret, w, db, rest)
      decreases |rest|
    {
      var id :| id in rest;
      var msg := uniqMsg[id];
      var skip := SettleOne(msg, db, all, w, rest);
      OneMoreResult(ret, w, db, rest, msg);
      rest := rest - {id};
      if skip {
        continue;
      }
      ret := ret + [msg];
    }
  }
}
