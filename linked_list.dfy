/** The kernel's singly linked list of opaque elements (`infos::util::LinkedList`),
    used by the buddy allocator for its per-order free lists. The list is a
    chain of heap nodes; its meaning is the ghost sequence `Contents`, and the
    ghost sequence `Spine` names the node that holds each element. */
module LinkedLists {
  import opened Wrappers

  /** Position of the first occurrence of `x` in `s`. */
  function FirstIndex<T(==)>(s: seq<T>, x: T): (i: nat)
    requires x in s
    ensures i < |s| && s[i] == x
    ensures forall j :: 0 <= j < i ==> s[j] != x
  {
    if s[0] == x then 0 else 1 + FirstIndex(s[1..], x)
  }

  /** What `next(x)` answers on a list holding `s`: the element right after the
      first occurrence of `x`, or nothing when `x` is last or absent. */
  function After<T(==)>(s: seq<T>, x: T): (r: Option<T>)
    ensures r.Some? <==> exists i :: 0 <= i < |s| - 1 && s[i] == x
    ensures r.Some? ==> exists i :: 0 <= i < |s| - 1 && s[i] == x && x !in s[..i] && r.value == s[i + 1]
  {
    if x !in s then None
    else
      var i := FirstIndex(s, x);
      if i + 1 < |s| then Some(s[i + 1]) else None
  }

  /** What `remove(_, x)` leaves of a list holding `s`: `s` without the first
      occurrence of `x`, the others in their order; `s` when `x` is absent. */
  function WithoutFirst<T(==)>(s: seq<T>, x: T): (r: seq<T>)
    ensures x !in s ==> r == s
    ensures x in s ==> |r| == |s| - 1 && multiset(r) + multiset{x} == multiset(s)
    ensures forall y :: y in r ==> y in s
  {
    if x !in s then s
    else
      var i := FirstIndex(s, x);
      assert s == s[..i] + [x] + s[i + 1..];
      s[..i] + s[i + 1..]
  }

  lemma WithoutOnly<T>(x: T)
    ensures WithoutFirst([x], x) == []
  {
  }

  /** No element occurs twice. */
  predicate NoDuplicates<T(==)>(s: seq<T>)
  {
    forall i, j :: 0 <= i < j < |s| ==> s[i] != s[j]
  }

  class Node<T> {
    var data: T
    var next: Node?<T>

    constructor (data: T)
      ensures this.data == data && next == null
    {
      this.data := data;
      next := null;
    }
  }

  class LinkedList<T(==)> {
    var head: Node?<T>

    ghost var Contents: seq<T>
    ghost var Spine: seq<Node<T>>
    ghost var Repr: set<object>

    /** The nodes of `Spine` are distinct, chained by `next` from `head`, the last
        one ends the chain, and node i holds element i of `Contents`. */
    ghost predicate Valid()
      reads this, Repr
    {
      && this in Repr
      && |Spine| == |Contents|
      && (forall i :: 0 <= i < |Spine| ==> Spine[i] in Repr)
      && (forall i, j :: 0 <= i < j < |Spine| ==> Spine[i] != Spine[j])
      && head == (if Spine == [] then null else Spine[0])
      && (forall i :: 0 <= i < |Spine| ==> Spine[i].data == Contents[i])
      && (forall i {:trigger Spine[i].next} :: 0 <= i < |Spine| ==> Spine[i].next == if i + 1 < |Spine| then Spine[i + 1] else null)
    }

    constructor ()
      ensures Valid() && fresh(Repr)
      ensures Contents == []
    {
      head := null;
      Contents, Spine, Repr := [], [], {this};
    }

    /** Unlinks every node, front to back. */
    method Clear()
      requires Valid()
      modifies this
      ensures Valid() && Repr == old(Repr)
      ensures Contents == []
    {
      ghost var k := 0;
      while head != null
        modifies this`head
        invariant 0 <= k <= |Spine|
        invariant head == if k < |Spine| then Spine[k] else null
        decreases |Spine| - k
      {
        head := head.next;
        k := k + 1;
      }
      Contents, Spine := [], [];
    }

    /** Walks to the last node and links a new node holding `x` after it. */
    method Append(x: T)
      requires Valid()
      modifies Repr
      ensures Valid() && fresh(Repr - old(Repr))
      ensures Contents == old(Contents) + [x]
    {
      var node := new Node(x);
      if head == null {
        head := node;
      } else {
        var current := head;
        ghost var k := 0;
        while current.next != null
          invariant 0 <= k < |Spine| && current == Spine[k]
          decreases |Spine| - k
        {
          current := current.next;
          k := k + 1;
        }
        current.next := node;
      }
      Contents, Spine, Repr := Contents + [x], Spine + [node], Repr + {node};
    }

    method RemoveFirst() returns (r: Option<T>)
      requires Valid()
      modifies this
      ensures Valid() && Repr == old(Repr)
      ensures old(Contents) == [] ==> r == None && Contents == []
      ensures old(Contents) != [] ==> r == Some(old(Contents)[0]) && Contents == old(Contents)[1..]
    {
      if head == null {
        return None;
      }
      var first := head;
      head := head.next;
      r := Some(first.data);
      Contents, Spine := Contents[1..], Spine[1..];
    }

    function First(): (r: Option<T>)
      reads this, Repr
      requires Valid()
      ensures r == if Contents == [] then None else Some(Contents[0])
    {
      if head == null then None else Some(head.data)
    }

    method Next(d: T) returns (r: Option<T>)
      requires Valid()
      ensures d !in Contents ==> r == None
      ensures d in Contents ==>
                var i := FirstIndex(Contents, d);
                r == if i + 1 < |Contents| then Some(Contents[i + 1]) else None
    {
      var current := head;
      ghost var k := 0;
      while current != null
        invariant 0 <= k <= |Spine|
        invariant current == if k < |Spine| then Spine[k] else null
        invariant forall j :: 0 <= j < k ==> Contents[j] != d
        decreases |Spine| - k
      {
        if current.data == d {
          assert FirstIndex(Contents, d) == k;
          return if current.next == null then None else Some(current.next.data);
        }
        current := current.next;
        k := k + 1;
      }
      return None;
    }

    /** Unlinks the first node holding `target`; a list without one is left
        as it is. */
    method Remove(target: T)
      requires Valid()
      modifies Repr
      ensures Valid() && Repr == old(Repr)
      ensures Contents == WithoutFirst(old(Contents), target)
    {
      if head == null {
        return;
      }
      if head.next == null && head.data == target {
        head := null;
        Contents, Spine := [], [];
        return;
      }
      var prev: Node?<T> := null;
      var current := head;
      ghost var k := 0;
      while current != null && current.data != target
        invariant 0 <= k <= |Spine|
        invariant current == if k < |Spine| then Spine[k] else null
        invariant prev == if k == 0 then null else Spine[k - 1]
        invariant forall j :: 0 <= j < k ==> Contents[j] != target
        decreases |Spine| - k
      {
        prev := current;
        current := current.next;
        k := k + 1;
      }
      if current != null {
        assert FirstIndex(Contents, target) == k;
        Unlink(prev, current, k);
      }
    }

    /** Unlinks `current`, the k-th node, by pointing its predecessor (or the
        head when k is 0) at its successor. */
    method Unlink(prev: Node?<T>, current: Node<T>, ghost k: nat)
      requires Valid() && k < |Spine| && current == Spine[k]
      requires prev == if k == 0 then null else Spine[k - 1]
      modifies Repr
      ensures Valid() && Repr == old(Repr)
      ensures Contents == old(Contents[..k] + Contents[k + 1..])
    {
      ghost var spine := Spine;
      if prev != null {
        prev.next := current.next;
      } else {
        head := current.next;
      }
      Contents, Spine := Contents[..k] + Contents[k + 1..], spine[..k] + spine[k + 1..];
      forall i | 0 <= i < |Spine|
        ensures Spine[i].next == if i + 1 < |Spine| then Spine[i + 1] else null
      {
        if i + 1 == k {
          assert Spine[i] == prev;
        } else {
          assert Spine[i] == spine[if i < k then i else i + 1] != prev;
        }
      }
    }

    function Empty(): (r: bool)
      reads this, Repr
      requires Valid()
      ensures r <==> Contents == []
    {
      head == null
    }
  }
}
