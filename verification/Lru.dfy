/** The least-recently-used cache: a queue of keys and a map into it, changed in place. */
module Lru {
  import opened Counting
  import opened LruSpec
  import opened Wrappers

  /** An element of a linked list; its identity is what the list moves around. */
  class Element<K> {
    const value: K

    constructor (value: K)
      ensures this.value == value
    {
      this.value := value;
    }
  }

  function IndexOf<T(==)>(s: seq<T>, x: T): (i: nat)
    requires x in s
    ensures i < |s| && s[i] == x
  {
    if s[0] == x then 0 else 1 + IndexOf(s[1..], x)
  }

  /** The linked list, as the sequence of its elements from front to back. */
  class List<K> {
    var elements: seq<Element<K>>

    constructor ()
      ensures elements == []
    {
      elements := [];
    }

    method PushFront(value: K) returns (e: Element<K>)
      modifies this
      ensures fresh(e) && e.value == value
      ensures elements == [e] + old(elements)
    {
      e := new Element(value);
      elements := [e] + elements;
    }

    method Remove(e: Element<K>)
      requires e in elements
      modifies this
      ensures elements == old(Drop(elements, IndexOf(elements, e)))
    {
      elements := Drop(elements, IndexOf(elements, e));
    }

    method MoveToFront(e: Element<K>)
      requires e in elements
      modifies this
      ensures elements == [e] + old(Drop(elements, IndexOf(elements, e)))
    {
      Remove(e);
      elements := [e] + elements;
    }

    /** The last element, if there is one. */
    method Back() returns (e: Element?<K>)
      ensures e == if elements == [] then null else elements[|elements| - 1]
    {
      e := if elements == [] then null else elements[|elements| - 1];
    }
  }

  class Item<K, V> {
    var data: V
    const keyPtr: Element<K>

    constructor (data: V, keyPtr: Element<K>)
      ensures this.data == data && this.keyPtr == keyPtr
    {
      this.data, this.keyPtr := data, keyPtr;
    }
  }

  /** The queue and the map hold the same keys, and each item points at its own key's element. */
  ghost predicate Linked<K, V>(es: seq<Element<K>>, items: map<K, Item<K, V>>) {
    && |items| == |es|
    && (forall i :: 0 <= i < |es| ==> es[i].value in items && items[es[i].value].keyPtr == es[i])
    && (forall i, j :: 0 <= i < j < |es| ==> es[i].value != es[j].value)
  }

  lemma {:induction false} DistinctFit<K>(es: seq<Element<K>>, keys: set<K>)
    requires forall i :: 0 <= i < |es| ==> es[i].value in keys
    requires forall i, j :: 0 <= i < j < |es| ==> es[i].value != es[j].value
    ensures |es| <= |keys|
  {
    if es != [] {
      DistinctFit(es[1..], keys - {es[0].value});
    }
  }

  /** Every key of the map is in the queue, where its item points. */
  lemma Onto<K, V>(es: seq<Element<K>>, items: map<K, Item<K, V>>, k: K)
    requires Linked(es, items) && k in items
    ensures items[k].keyPtr in es && items[k].keyPtr.value == k
    ensures es[IndexOf(es, items[k].keyPtr)].value == k
  {
    if forall i :: 0 <= i < |es| ==> es[i].value != k {
      DistinctFit(es, items.Keys - {k});
    }
  }

  /** The entries of a queue, given the data under each key. */
  ghost function Entries<K, V>(es: seq<Element<K>>, data: map<K, V>): (c: seq<Entry<K, V>>)
    requires forall i :: 0 <= i < |es| ==> es[i].value in data
    ensures |c| == |es| && forall i :: 0 <= i < |c| ==> c[i] == Entry(es[i].value, data[es[i].value])
  {
    seq(|es|, i requires 0 <= i < |es| => Entry(es[i].value, data[es[i].value]))
  }

  /** A listed key stands where its item points. */
  lemma Listed<K, V>(es: seq<Element<K>>, items: map<K, Item<K, V>>, data: map<K, V>, k: K)
    requires Linked(es, items) && data.Keys == items.Keys
    ensures DistinctKeys(Entries(es, data)) && (Has(Entries(es, data), k) <==> k in items)
    ensures k in items ==> items[k].keyPtr in es && Position(Entries(es, data), k) == IndexOf(es, items[k].keyPtr)
  {
    var c := Entries(es, data);
    if k in items {
      Onto(es, items, k);
      assert c[IndexOf(es, items[k].keyPtr)].key == k;
      assert c[Position(c, k)].key == k;
    }
  }

  /** Moving the element at `i` to the front keeps the queue in step with the map. */
  lemma MovedToFront<K, V>(es: seq<Element<K>>, items: map<K, Item<K, V>>, i: nat)
    requires Linked(es, items) && i < |es|
    ensures Linked([es[i]] + Drop(es, i), items)
  {
    var es' := [es[i]] + Drop(es, i);
    assert forall j :: 0 <= j < |es| ==> es'[j] == es[if j == 0 then i else if j <= i then j - 1 else j];
  }

  lemma EntriesMoved<K, V>(es: seq<Element<K>>, data: map<K, V>, i: nat, v: V)
    requires i < |es| && forall j :: 0 <= j < |es| ==> es[j].value in data
    requires forall j, j' :: 0 <= j < j' < |es| ==> es[j].value != es[j'].value
    requires forall j :: 0 <= j < |es| ==> ([es[i]] + Drop(es, i))[j].value in data
    ensures Entries([es[i]] + Drop(es, i), data[es[i].value := v]) == [Entry(es[i].value, v)] + Drop(Entries(es, data), i)
  {
    var es' := [es[i]] + Drop(es, i);
    assert forall j :: 0 < j < |es| ==> es'[j] == es[if j <= i then j - 1 else j];
  }

  /** Moving the element of `k` to the front, with new data under it. */
  lemma Refreshed<K, V>(es: seq<Element<K>>, items: map<K, Item<K, V>>, data: map<K, V>, k: K, v: V)
    requires Linked(es, items) && data.Keys == items.Keys && k in items && items[k].keyPtr in es
    requires Has(Entries(es, data), k) && Position(Entries(es, data), k) == IndexOf(es, items[k].keyPtr)
    ensures var es' := [items[k].keyPtr] + Drop(es, IndexOf(es, items[k].keyPtr));
            && Linked(es', items)
            && Entries(es', data[k := v]) == [Entry(k, v)] + Drop(Entries(es, data), Position(Entries(es, data), k))
  {
    var i := IndexOf(es, items[k].keyPtr);
    MovedToFront(es, items, i);
    EntriesMoved(es, data, i, v);
  }

  lemma LastRemoved<K, V>(es: seq<Element<K>>, items: map<K, Item<K, V>>, data: map<K, V>)
    requires Linked(es, items) && data.Keys == items.Keys && es != []
    ensures var e := es[|es| - 1];
            && Drop(es, IndexOf(es, e)) == es[..|es| - 1]
            && Linked(es[..|es| - 1], items - {e.value})
            && Entries(es[..|es| - 1], data - {e.value}) == Entries(es, data)[..|es| - 1]
  {
    var n := |es| - 1;
    var e := es[n];
    assert IndexOf(es, e) == n by { assert es[IndexOf(es, e)].value == e.value; }
    assert (items - {e.value}).Keys == items.Keys - {e.value};
    assert forall i :: 0 <= i < n ==> es[..n][i] == es[i] && es[i].value != e.value;
  }

  /** Any new element of a new key may be pushed to the front. */
  lemma Pushed<K, V>(es: seq<Element<K>>, items: map<K, Item<K, V>>, data: map<K, V>, k: K, v: V, e: Element<K>, item: Item<K, V>)
    requires Linked(es, items) && data.Keys == items.Keys && k !in items && e.value == k && item.keyPtr == e
    ensures Linked([e] + es, items[k := item])
    ensures Entries([e] + es, data[k := v]) == [Entry(k, v)] + Entries(es, data)
  {
    var es' := [e] + es;
    assert forall j :: 0 < j < |es'| ==> es'[j] == es[j - 1];
  }

  class Cache<K(!new, ==), V> {
    const queue: List<K>
    var items: map<K, Item<K, V>>
    const capacity: int
    ghost var data: map<K, V>
    ghost var Repr: set<object>

    ghost predicate Valid()
      reads this, Repr
    {
      && this in Repr && queue in Repr && (forall k :: k in items ==> items[k] in Repr)
      && Linked(queue.elements, items) && data.Keys == items.Keys
      && forall k :: k in items ==> items[k].data == data[k]
    }

    /** What the cache holds, from most to least recently touched. */
    ghost function Contents(): seq<Entry<K, V>>
      requires Valid()
      reads this, Repr
    {
      Entries(queue.elements, data)
    }

    constructor (capacity: int)
      ensures Valid() && fresh(Repr) && this.capacity == capacity && Contents() == [] && data == map[]
    {
      queue := new List();
      items := map[];
      data := map[];
      this.capacity := capacity;
      new;
      Repr := {this, queue};
    }

    /** Drops the least recently touched key; on an empty queue the program stops. */
    method RemoveItem() returns (panics: bool)
      requires Valid()
      modifies this, queue
      ensures Valid() && Repr == old(Repr)
      ensures panics <==> old(Contents()) == []
      ensures panics ==> Contents() == old(Contents()) && items == old(items) && data == old(data)
      ensures !panics ==> |items| < old(|items|) && forall x :: x in data ==> x in old(data) && data[x] == old(data)[x]
      ensures !panics ==> Contents() == old(Contents()[..|Contents()| - 1])
    {
      var back := queue.Back();
      if back == null {
        return true;
      }
      LastRemoved(queue.elements, items, data);
      queue.Remove(back);
      items := items - {back.value};
      data := data - {back.value};
      panics := false;
    }

    /** The insertion at the end of `Put`, when there is room for it. */
    method AddItem(k: K, v: V)
      requires Valid() && k !in items
      modifies this, queue
      ensures Valid() && fresh(Repr - old(Repr)) && data == old(data)[k := v]
      ensures Contents() == [Entry(k, v)] + old(Contents())
    {
      ghost var es := queue.elements;
      var e := queue.PushFront(k);
      var item := new Item(v, e);
      assert queue.elements == [e] + es;
      Pushed(es, items, data, k, v, e, item);
      items := items[k := item];
      data := data[k := v];
      Repr := Repr + {item};
    }

    /** The branch of `Put` for a key that is not there. */
    method PutNew(k: K, v: V) returns (panics: bool)
      requires Valid() && k !in items
      modifies this, queue
      ensures Valid() && fresh(Repr - old(Repr))
      ensures panics <==> capacity == 0 && old(Contents()) == []
      ensures panics ==> Contents() == old(Contents()) && data == old(data)
      ensures !panics ==> k in data && data[k] == v
      ensures forall x :: x in data && x != k ==> x in old(data) && data[x] == old(data)[x]
      ensures !panics ==> var c := old(Contents());
                          Contents() == [Entry(k, v)] + if capacity == |c| then c[..|c| - 1] else c
    {
      if capacity == |items| {
        panics := RemoveItem();
        if panics {
          return;
        }
      }
      AddItem(k, v);
      panics := false;
    }

    method UpdateItem(item: Item<K, V>, k: K, v: V)
      requires Valid() && k in items && items[k] == item
      modifies this, queue, item
      ensures Valid() && Repr == old(Repr) && data == old(data)[k := v]
      ensures Has(old(Contents()), k)
      ensures Contents() == [Entry(k, v)] + old(Drop(Contents(), Position(Contents(), k)))
    {
      Listed(queue.elements, items, data, k);
      Refreshed(queue.elements, items, data, k, v);
      forall x | x in items
        ensures items[x].keyPtr.value == x
      {
        Onto(queue.elements, items, x);
      }
      item.data := v;
      data := data[k := v];
      items := items[k := item];
      assert items == old(items);
      queue.MoveToFront(item.keyPtr);
    }

    /** The program stops on an insertion into an empty cache of capacity 0. */
    method Put(k: K, v: V) returns (panics: bool)
      requires Valid()
      modifies Repr
      ensures Valid() && fresh(Repr - old(Repr))
      ensures panics <==> capacity == 0 && old(Contents()) == []
      ensures panics ==> Contents() == old(Contents()) && data == old(data)
      ensures !panics ==> Contents() == old(LruSpec.Put(capacity, Contents(), k, v))
      ensures !panics ==> k in data && data[k] == v
      ensures forall x :: x in data && x != k ==> x in old(data) && data[x] == old(data)[x]
    {
      Listed(queue.elements, items, data, k);
      if k !in items {
        panics := PutNew(k, v);
      } else {
        UpdateItem(items[k], k, v);
        panics := false;
      }
    }

    method Get(k: K) returns (r: Option<V>)
      requires Valid()
      modifies Repr
      ensures Valid() && Repr == old(Repr) && items == old(items) && data == old(data)
      ensures r == old(Lookup(Contents(), k))
      ensures r == if k in data then Some(data[k]) else None
      ensures Contents() == old(LruSpec.Get(Contents(), k))
    {
      Listed(queue.elements, items, data, k);
      if k in items {
        Refreshed(queue.elements, items, data, k, data[k]);
        assert data[k := data[k]] == data;
        queue.MoveToFront(items[k].keyPtr);
        r := Some(items[k].data);
      } else {
        r := None;
      }
    }

    /** The keys, in whatever order the map yields them. */
    method Keys() returns (keys: seq<K>)
      requires Valid()
      ensures |keys| == |Contents()| && Distinct(keys)
      ensures forall k :: k in keys <==> Has(Contents(), k)
    {
      keys := [];
      var rest := items.Keys;
      while rest != {}
        invariant rest <= items.Keys && |keys| + |rest| == |items|
        invariant Distinct(keys) && forall k :: k in keys <==> k in items && k !in rest
        decreases |rest|
      {
        var k :| k in rest;
        assert (keys + [k])[..|keys|] == keys;
        keys, rest := keys + [k], rest - {k};
      }
      forall k
        ensures k in keys <==> Has(Contents(), k)
      {
        Listed(queue.elements, items, data, k);
      }
    }
  }
}
