/** The intrusive circular doubly linked list of include/list.h, with its payload in the node.
    The list head is a node whose payload is never read; a poisoned link is null. */
module CircularList {

  class Node<T> {
    var next: Node?<T>
    var prev: Node?<T>
    var item: T

    /** An entry after INIT_LIST_HEAD. */
    constructor (x: T)
      ensures item == x && next == this && prev == this
    {
      next := this;
      prev := this;
      item := x;
    }
  }

  ghost predicate Distinct<T>(s: seq<T>) {
    forall i, j :: 0 <= i < j < |s| ==> s[i] != s[j]
  }

  class List<T> {
    const head: Node<T>
    /** The head and then the entries, in list order. */
    ghost var ring: seq<Node<T>>

    ghost predicate Valid()
      reads this, ring
      ensures Valid() ==> ring != [] && ring[0] == head && Distinct(ring)
    {
      && ring != [] && ring[0] == head && Distinct(ring)
      && (forall i {:trigger ring[i].next} :: 0 <= i < |ring| - 1 ==> ring[i].next == ring[i + 1])
      && (forall i {:trigger ring[i].prev} :: 0 < i < |ring| ==> ring[i].prev == ring[i - 1])
      && ring[|ring| - 1].next == head && head.prev == ring[|ring| - 1]
    }

    /** The payloads, in list order. */
    ghost function Items(): (s: seq<T>)
      requires ring != []
      reads this, ring
      ensures |s| == |ring| - 1 && forall i :: 0 <= i < |s| ==> s[i] == ring[i + 1].item
    {
      seq(|ring| - 1, i requires 0 <= i < |ring| - 1 reads this, ring => ring[i + 1].item)
    }

    /** The node at a place of the circle; one past the last entry is the head again. */
    ghost function At(i: nat): Node<T>
      requires i <= |ring|
      reads this
    {
      if i < |ring| then ring[i] else head
    }

    /** INIT_LIST_HEAD on a fresh head. */
    constructor (x: T)
      ensures Valid() && ring == [head] && fresh(head)
    {
      var h := new Node(x);
      head := h;
      ring := [h];
    }

    /** list_for_each_entry: the first entry, or the head of an empty list. */
    method First() returns (n: Node<T>)
      requires Valid()
      ensures n == At(1) && (n == head <==> |ring| == 1)
    {
      n := head.next;
    }

    /** list_for_each_entry: from the entry at place k to the next, or to the head. */
    method Next(pos: Node<T>, ghost k: nat) returns (n: Node<T>)
      requires Valid() && 0 < k < |ring| && pos == ring[k]
      ensures n == At(k + 1) && (n == head <==> k + 1 == |ring|)
    {
      n := pos.next;
    }

    /** list_add_tail(entry, at): put an entry just before the node at place k (include/list.h:34-68). */
    method AddTail(entry: Node<T>, at: Node<T>, ghost k: nat)
      requires Valid() && 0 < k <= |ring| && at == At(k) && entry !in ring
      modifies this, ring, entry
      ensures Valid() && ring == old(ring[..k] + [entry] + ring[k..])
      ensures Items() == old(Items()[..k - 1] + [entry.item] + Items()[k - 1..])
      ensures forall x: Node<T> :: x in ring ==> x.item == old(x.item)
    {
      assert at.prev == ring[k - 1];
      var prev := at.prev;
      at.prev := entry;
      entry.next := at;
      entry.prev := prev;
      prev.next := entry;
      ring := ring[..k] + [entry] + ring[k..];
    }

    /** list_del (include/list.h:77-94): unlink the entry at place k and poison its links. */
    method Del(entry: Node<T>, ghost k: nat)
      requires Valid() && 0 < k < |ring| && entry == ring[k]
      modifies this, ring
      ensures Valid() && ring == old(ring[..k] + ring[k + 1..])
      ensures Items() == old(Items()[..k - 1] + Items()[k..])
      ensures forall x: Node<T> :: x in old(ring) ==> x.item == old(x.item)
      ensures entry.next == null && entry.prev == null
    {
      hide Items;
      assert entry.next == At(k + 1) && entry.prev == ring[k - 1];
      entry.next.prev := entry.prev;
      entry.prev.next := entry.next;
      entry.next := null;
      entry.prev := null;
      ring := ring[..k] + ring[k + 1..];
    }

    /** Overwrite the payload of the entry at place k. */
    method SetItem(pos: Node<T>, x: T, ghost k: nat)
      requires Valid() && 0 < k < |ring| && pos == ring[k]
      modifies pos
      ensures Valid() && ring == old(ring) && pos.item == x
      ensures Items() == old(Items()[..k - 1] + [x] + Items()[k..])
    {
      pos.item := x;
    }
  }
}
