/** list.h over afl-prealloc.h: a circular doubly linked list whose elements come
    from a pool of 64 inside the list, and from `malloc` once that is used up. */
module PoolList {
  import opened Finite

  const POOL_SIZE: nat := 64

  datatype Status = UNUSED | USED | MALLOC

  /** A `void *`; 0 is NULL. */
  type Data = nat

  class Element {
    var status: Status
    var prev: Element?
    var next: Element?
    var data: Data

    constructor ()
      ensures status == UNUSED && prev == null && next == null && data == 0
    {
      status, prev, next, data := UNUSED, null, null, 0;
    }
  }

  /** The position after `i` in a ring of `n`. */
  function After(i: nat, n: nat): nat {
    if i + 1 < n then i + 1 else 0
  }

  /** Neighbours point at each other all the way round. */
  ghost predicate Linked(ring: seq<Element>)
    reads ring`next, ring`prev
  {
    && (forall i :: 0 <= i < |ring| ==> ring[i].next == ring[After(i, |ring|)])
    && (forall i :: 0 <= i < |ring| ==> ring[After(i, |ring|)].prev == ring[i])
  }

  ghost predicate Holds(ring: seq<Element>, items: seq<Data>)
    reads ring`data
  {
    |items| == |ring| && forall i :: 0 <= i < |ring| ==> ring[i].data == items[i]
  }

  /** The ring without the element at position `k`. */
  ghost function Drop(ring: seq<Element>, k: nat): seq<Element>
    requires k < |ring|
  {
    ring[..k] + ring[k + 1..]
  }

  /** Put `el` between the last element and the head. */
  method LinkIn(ghost ring: seq<Element>, head: Element, el: Element)
    requires |ring| > 0 && ring[0] == head && Distinct(ring) && Linked(ring) && el !in ring
    modifies ring`next, ring`prev, el`next, el`prev
    ensures Linked(ring + [el])
  {
    ghost var n := |ring|;
    assert ring[After(n - 1, n)].prev == ring[n - 1];
    el.next := head;
    el.prev := head.prev;
    head.prev.next := el;
    head.prev := el;
    ghost var r := ring + [el];
    forall i | 0 <= i < n + 1 ensures r[i].next == r[After(i, n + 1)] && r[After(i, n + 1)].prev == r[i] {
      if i < n - 1 { assert r[i] == ring[i] && ring[After(i, n)] == ring[i + 1]; }
    }
  }

  /** Take the element at position `k` out of the ring. */
  method LinkOut(ghost ring: seq<Element>, ghost k: nat, el: Element)
    requires 0 < k < |ring| && ring[k] == el && Distinct(ring) && Linked(ring)
    modifies ring`next, ring`prev
    ensures Linked(Drop(ring, k))
    ensures el.next == old(el.next)
  {
    ghost var n := |ring|;
    assert ring[After(k - 1, n)] == el;
    el.prev.next := el.next;
    el.next.prev := el.prev;
    ghost var r := Drop(ring, k);
    forall i | 0 <= i < n - 1 ensures r[i].next == r[After(i, n - 1)] && r[After(i, n - 1)].prev == r[i] {
      if i < k - 1 {
        assert r[i] == ring[i] && r[i + 1] == ring[After(i, n)];
      } else if i == k - 1 {
        assert r[i] == ring[k - 1] && r[After(i, n - 1)] == ring[After(k, n)];
      } else {
        assert r[i] == ring[i + 1] && r[After(i, n - 1)] == ring[After(i + 1, n)];
      }
    }
  }

  method Wipe(el: Element, ghost others: seq<Element>, ghost items: seq<Data>)
    requires el !in others && Holds(others, items)
    modifies el`data
    ensures el.data == 0 && Holds(others, items)
  {
    el.data := 0;
  }

  // ----- the pool's books

  /** The pool elements among `taken`. */
  ghost function Pooled(taken: set<Element>, pool: set<Element>): set<Element> {
    taken * pool
  }

  lemma PooledWith(taken: set<Element>, pool: set<Element>, el: Element)
    requires el !in taken
    ensures |Pooled(taken + {el}, pool)| == |Pooled(taken, pool)| + if el in pool then 1 else 0
  {
    if el in pool {
      assert Pooled(taken + {el}, pool) == Pooled(taken, pool) + {el};
    } else {
      assert Pooled(taken + {el}, pool) == Pooled(taken, pool);
    }
  }

  /** `USED` are exactly the taken pool elements, and `count` counts them. */
  ghost predicate Accounted(pool: set<Element>, taken: set<Element>, count: int)
    reads pool`status, taken`status
  {
    && count == |Pooled(taken, pool)|
    && (forall e :: e in pool ==> e.status == if e in taken then USED else UNUSED)
    && (forall e :: e in taken && e !in pool ==> e.status == MALLOC)
  }

  /** `PRE_ALLOC`: a free pool element while there is one, else a new one; `granted` is
      whether there is memory for that, and without it the program ends. */
  method PreAlloc(pool: seq<Element>, ghost taken: set<Element>, count: int, granted: bool)
    returns (el: Element?, after: int)
    requires Distinct(pool) && Accounted(Elems(pool), taken, count)
    modifies pool`status
    ensures el == null <==> count >= |pool| && !granted
    ensures el == null ==> Accounted(Elems(pool), taken, after) && after == count
    ensures el != null ==> el !in taken && Accounted(Elems(pool), taken + {el}, after)
    ensures el != null ==> if count < |pool| then el in pool else fresh(el)
    ensures count < |pool| ==>
              exists k :: && 0 <= k < |pool| && el == pool[k] && old(pool[k].status) == UNUSED
                          && forall j :: 0 <= j < k ==> old(pool[j].status) != UNUSED
  {
    hide Pooled, Distinct;
    if count >= |pool| {
      if !granted { return null, count; }
      var box := new Element();
      box.status := MALLOC;
      PooledWith(taken, Elems(pool), box);
      return box, count;
    }
    SomeUnused(pool, taken, count);
    el, after := pool[0], count;
    var i := 0;
    while i < |pool|
      invariant 0 <= i <= |pool|
      invariant forall k :: 0 <= k < i ==> pool[k].status != UNUSED
      invariant after == count && forall e :: e in pool ==> e.status == old(e.status)
    {
      el := pool[i];
      if el.status == UNUSED {
        PooledWith(taken, Elems(pool), el);
        after := after + 1;
        el.status := USED;
        return;
      }
      i := i + 1;
    }
    assert false;
  }

  /** Below the pool size the scan always meets a free element. */
  lemma SomeUnused(pool: seq<Element>, taken: set<Element>, count: int)
    requires Distinct(pool) && Accounted(Elems(pool), taken, count) && count < |pool|
    ensures exists k :: 0 <= k < |pool| && pool[k].status == UNUSED
  {
    if forall k :: 0 <= k < |pool| ==> pool[k].status != UNUSED {
      assert Elems(pool) <= Pooled(taken, Elems(pool));
      SubsetSize(Elems(pool), Pooled(taken, Elems(pool)));
      DistinctCount(pool);
      assert false;
    }
  }

  /** `PRE_FREE`: its fatal errors, a double free and a negative count, meet exactly
      the elements that are not taken. */
  method PreFree(ghost pool: set<Element>, ghost taken: set<Element>, el: Element, count: int)
    returns (ok: bool, after: int)
    requires el in taken + pool && Accounted(pool, taken, count)
    modifies el`status
    ensures ok <==> el in taken
    ensures Accounted(pool, taken - {el}, after) && el.status == UNUSED
  {
    hide Pooled;
    if el in taken {
      PooledWith(taken - {el}, pool, el);
      assert taken - {el} + {el} == taken;
    } else {
      assert taken - {el} == taken;
    }
    if el.status == USED {
      el.status := UNUSED;
      after := count - 1;
      ok := after >= 0;
    } else if el.status == MALLOC {
      el.status := UNUSED;
      ok, after := true, count;
    } else {
      ok, after := false, count;
    }
  }

  // ----- the list

  class List {
    const pool: seq<Element>
    var count: int
    /** The ring, head first; empty before the first append. */
    ghost var ring: seq<Element>
    /** The data on the ring. */
    ghost var items: seq<Data>

    ghost predicate PoolOk() {
      |pool| == POOL_SIZE && Distinct(pool)
    }

    ghost predicate RingOk()
      reads this, ring, pool
    {
      && |ring| == |items| > 0 && |pool| > 0 && ring[0] == pool[0]
      && Distinct(ring) && Linked(ring) && Holds(ring, items)
      && Accounted(Elems(pool), Elems(ring), count)
    }

    ghost predicate Valid()
      reads this, ring, pool
    {
      && PoolOk()
      && if pool[0].next == null then ring == [] && items == [] else RingOk()
    }

    /** What the list holds, first appended first. */
    ghost function Contents(): (s: seq<Data>)
      reads this
    {
      if items == [] then [] else items[1..]
    }

    /** An all-zero `list_t`. */
    constructor (elements: seq<Element>)
      requires |elements| == POOL_SIZE && Distinct(elements) && elements[0].next == null
      ensures Valid() && pool == elements && Contents() == [] && ring == []
    {
      pool, count, ring, items := elements, 0, [], [];
    }

    /** The first use: clear everything and take the first element as head. */
    method Initialize()
      requires PoolOk() && pool[0].next == null
      modifies this, pool
      ensures PoolOk() && RingOk() && items == [0] && count == 1
    {
      forall i | 0 <= i < POOL_SIZE {
        pool[i].status := UNUSED;
      }
      forall i | 0 <= i < POOL_SIZE {
        pool[i].next := null;
      }
      forall i | 0 <= i < POOL_SIZE {
        pool[i].prev := null;
      }
      forall i | 0 <= i < POOL_SIZE {
        pool[i].data := 0;
      }
      var head := pool[0];
      head.status := USED;
      count := 1;
      head.next := head;
      head.prev := head;
      ring, items := [head], [0];
      assert Elems(ring) == {head} && Pooled(Elems(ring), Elems(pool)) == {head};
    }

    /** Fails only for want of memory once the pool is used up. */
    method Append(data: Data, granted: bool) returns (ok: bool)
      requires Valid()
      modifies this, pool, ring
      ensures Valid() && ring != []
      ensures ok <==> granted || old(ring) == [] || old(count) < POOL_SIZE
      ensures Contents() == if ok then old(Contents()) + [data] else old(Contents())
    {
      if pool[0].next == null { Initialize(); }
      ok := AppendBox(data, granted);
    }

    method AppendBox(data: Data, granted: bool) returns (ok: bool)
      requires PoolOk() && RingOk()
      modifies this, pool, ring
      ensures PoolOk() && RingOk()
      ensures ok <==> granted || old(count) < POOL_SIZE
      ensures Contents() == if ok then old(Contents()) + [data] else old(Contents())
    {
      hide Linked, Accounted, Holds, Distinct;
      var el, n := PreAlloc(pool, Elems(ring), count, granted);
      if el == null { return false; }
      ok := true;
      AddElems(ring, el);
      el.data := data;
      AddHolds(ring, items, el);
      LinkIn(ring, pool[0], el);
      count, ring, items := n, ring + [el], items + [data];
    }

    // ----- walking

    /** `list_contains`; walking a list never appended to is fatal. */
    method Contains(data: Data) returns (ok: bool, found: bool)
      requires Valid()
      ensures ok <==> ring != []
      ensures found <==> data in Contents()
    {
      var head := pool[0];
      var el := head.next;
      if el == null { return false, false; }
      ghost var k: nat := 1;
      assert el == ring[After(0, |ring|)];
      while el != head
        invariant 1 <= k <= |ring| && el == ring[if k < |ring| then k else 0]
        invariant data !in items[1..k]
        decreases |ring| - k
      {
        assert items[k] == el.data;
        if el.data == data { return true, true; }
        assert el.next == ring[After(k, |ring|)];
        assert items[1..k + 1] == items[1..k] + [el.data];
        el, k := el.next, k + 1;
      }
      return true, false;
    }

    /** `list_remove` takes out the first element that holds `data`, and is fatal when
        there is none. */
    method Remove(data: Data) returns (ok: bool)
      requires Valid()
      modifies this, pool, ring
      ensures Valid()
      ensures ok <==> data in old(Contents())
      ensures ok ==> exists k: nat :: RemovedFirst(old(Contents()), k, data, Contents())
      ensures !ok ==> Contents() == old(Contents()) && ring == old(ring)
    {
      hide Accounted, Distinct, Linked, Holds, RemovedFirst, Drop;
      var head := pool[0];
      var el := head.next;
      if el == null { return false; }
      ghost var k: nat := 1;
      Cursor(0);
      while el != head
        invariant PoolOk() && RingOk() && items == old(items) && ring == old(ring) && head.next != null
        invariant 1 <= k <= |ring| && el == ring[if k < |ring| then k else 0]
        invariant data !in items[1..k]
        decreases |ring| - k
      {
        Cursor(k);
        if el.data == data {
          ShiftRemoved(items, k, data);
          Unlink(k, el, true);
          Cursor(0);
          assert RemovedFirst(old(Contents()), k - 1, data, Contents());
          return true;
        }
        assert items[1..k + 1] == items[1..k] + [el.data];
        el, k := el.next, k + 1;
      }
      if k < |ring| { Cursor(k); }
      assert old(Contents()) == items[1..];
      return false;
    }

    /** `LIST_FOREACH_CLEAR` visits everything once, in order, and leaves the list empty. */
    method Clear() returns (ok: bool, visited: seq<Data>)
      requires Valid()
      modifies this, pool, ring
      ensures Valid() && Contents() == []
      ensures ok <==> old(ring) != []
      ensures visited == old(Contents())
    {
      hide Accounted, Distinct, Linked, Holds, Drop;
      var head := pool[0];
      var el := head.next;
      visited := [];
      if el == null { return false, []; }
      Cursor(0);
      while el != head
        invariant PoolOk() && RingOk() && el == ring[After(0, |ring|)] && head.next == el
        invariant forall i :: 0 <= i < |ring| ==> ring[i] in old(ring)
        invariant visited + items[1..] == old(Contents())
        decreases |ring|
      {
        Cursor(1);
        assert items[1..] == [el.data] + items[2..];
        visited := visited + [el.data];
        var next := el.next;
        DropSecond(ring);
        Unlink(1, el, false);
        el := next;
        Cursor(0);
      }
      if 1 < |ring| { Cursor(1); }
      ok := true;
    }

    /** What a walk reads at position `k`, and that only position 0 is the head. */
    lemma Cursor(k: nat)
      requires PoolOk() && RingOk() && k < |ring|
      ensures ring[k].next == ring[After(k, |ring|)] && ring[k].data == items[k]
      ensures k > 0 ==> ring[k] != pool[0]
    {
    }

    /** Take the element at position `k` off the ring and give it back. */
    method Unlink(ghost k: nat, el: Element, wipe: bool)
      requires PoolOk() && RingOk() && 0 < k < |ring| && el == ring[k]
      modifies this, pool, ring
      ensures PoolOk() && RingOk() && ring == Drop(old(ring), k)
      ensures items == old(items[..k] + items[k + 1..])
    {
      hide Linked, Accounted, Holds, Distinct, Drop;
      ghost var left := items[..k] + items[k + 1..];
      DropElems(ring, k);
      DropHolds(ring, items, k);
      ghost var rest := Drop(ring, k);
      LinkOut(ring, k, el);
      if wipe { Wipe(el, rest, left); }
      var ok, n := PreFree(Elems(pool), Elems(ring), el, count);
      count, ring, items := n, rest, left;
    }
  }

  /** `after` is `before` without its first `data`, which stood at `k`. */
  ghost predicate RemovedFirst(before: seq<Data>, k: nat, data: Data, after: seq<Data>) {
    && k < |before| && before[k] == data && data !in before[..k]
    && after == before[..k] + before[k + 1..]
  }

  lemma ShiftRemoved(items: seq<Data>, k: nat, data: Data)
    requires 0 < k < |items| && items[k] == data && data !in items[1..k]
    ensures RemovedFirst(items[1..], k - 1, data, (items[..k] + items[k + 1..])[1..])
  {
    assert items[1..][..k - 1] == items[1..k];
    assert (items[..k] + items[k + 1..])[1..] == items[1..k] + items[k + 1..];
  }

  lemma DropElems(ring: seq<Element>, k: nat)
    requires k < |ring| && Distinct(ring)
    ensures Distinct(Drop(ring, k)) && Elems(Drop(ring, k)) == Elems(ring) - {ring[k]}
    ensures |Drop(ring, k)| == |ring| - 1 && (k > 0 ==> Drop(ring, k)[0] == ring[0])
    ensures ring[k] in Elems(ring)
    ensures forall e :: e in Drop(ring, k) <==> e in ring && e != ring[k]
    ensures forall i :: 0 <= i < |Drop(ring, k)| ==> Drop(ring, k)[i] in ring
  {
    var r := Drop(ring, k);
    forall e ensures e in r <==> e in ring && e != ring[k] {
      if e in ring && e != ring[k] {
        var i :| 0 <= i < |ring| && ring[i] == e;
        assert e == r[if i < k then i else i - 1];
      }
    }
  }

  lemma DropSecond(ring: seq<Element>)
    requires |ring| > 1
    ensures |Drop(ring, 1)| == |ring| - 1
    ensures Drop(ring, 1)[After(0, |ring| - 1)] == ring[After(1, |ring|)]
    ensures forall i :: 0 <= i < |ring| - 1 ==> Drop(ring, 1)[i] in ring
  {
  }

  lemma DropHolds(ring: seq<Element>, items: seq<Data>, k: nat)
    requires k < |ring| && Holds(ring, items)
    ensures Holds(Drop(ring, k), items[..k] + items[k + 1..])
  {
  }

  lemma AddElems(ring: seq<Element>, el: Element)
    requires Distinct(ring) && el !in ring
    ensures Distinct(ring + [el]) && Elems(ring + [el]) == Elems(ring) + {el}
  {
  }

  lemma AddHolds(ring: seq<Element>, items: seq<Data>, el: Element)
    requires Holds(ring, items)
    ensures Holds(ring + [el], items + [el.data])
  {
  }
}
