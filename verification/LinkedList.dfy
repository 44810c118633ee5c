/** The doubly linked list of containers/list.c. */
module LinkedList {
  import opened Checks
  import opened Words
  import opened Sequences

  class Node<T> {
    var data: T
    var prev: Node?<T>
    var next: Node?<T>

    constructor (data: T)
      ensures this.data == data && prev == null && next == null
    {
      this.data, prev, next := data, null, null;
    }
  }

  /** The node at position `i` of the chain; null off both ends. */
  function At<T>(q: seq<Node<T>>, i: int): Node?<T> {
    if 0 <= i < |q| then q[i] else null
  }

  ghost predicate Chained<T>(q: seq<Node<T>>)
    reads Elems(q)`prev, Elems(q)`next
  {
    forall i {:trigger q[i].prev} {:trigger q[i].next} ::
      0 <= i < |q| ==> q[i].prev == At(q, i - 1) && q[i].next == At(q, i + 1)
  }

  ghost function Elems<T>(q: seq<Node<T>>): set<Node<T>> {
    set n | n in q
  }

  function Data<T>(q: seq<Node<T>>): (d: seq<T>)
    reads Elems(q)
    ensures |d| == |q| && forall i :: 0 <= i < |q| ==> d[i] == q[i].data
  {
    seq(|q|, i requires 0 <= i < |q| reads Elems(q) => q[i].data)
  }

  lemma DataRemoved<T>(q: seq<Node<T>>, i: nat)
    requires i < |q|
    ensures Data(Removed(q, i)) == Removed(Data(q), i)
  {}

  function Swapped<T>(s: seq<T>, i: nat, j: nat): seq<T>
    requires i < |s| && j < |s|
  {
    s[i := s[j]][j := s[i]]
  }

  /** Distinct nodes, `head` and `tail` the ends, and `size` their 32-bit number. */
  ghost function Ends<T>(q: seq<Node<T>>, head: Node?<T>, tail: Node?<T>, size: nat): Health {
    if NoDuplicates(q) && head == At(q, 0) && tail == At(q, |q| - 1) && size == Wrap(|q|) then Sound else Unsound
  }

  lemma EndsPushed<T>(q: seq<Node<T>>, head: Node?<T>, tail: Node?<T>, size: nat, n: Node<T>)
    requires Ends(q, head, tail, size).Sound? && n !in q
    ensures Ends([n] + q, n, if tail == null then n else tail, Wrap(size + 1)).Sound?
    ensures Ends(q + [n], if tail == null then n else head, n, Wrap(size + 1)).Sound?
  {
    WrapUp(|q|);
  }

  lemma EndsRemoved<T>(q: seq<Node<T>>, head: Node?<T>, tail: Node?<T>, size: nat, i: int,
                       head': Node?<T>, tail': Node?<T>)
    requires Ends(q, head, tail, size).Sound? && 0 <= i < |q|
    requires head' == if head == q[i] then At(q, i + 1) else head
    requires tail' == if tail == q[i] then At(q, i - 1) else tail
    ensures Ends(Removed(q, i), head', tail', Wrap(size - 1)).Sound?
  {
    RemovedElements(q, i);
    WrapDown(|q|);
  }

  /** Closes the gap that node `a` leaves. */
  method Unlink<T>(a: Node<T>, ghost q: seq<Node<T>>, ghost i: nat)
    requires Chained(q) && NoDuplicates(q) && i < |q| && q[i] == a
    modifies Elems(q)`prev, Elems(q)`next
    ensures Chained(Removed(q, i)) && a.prev == old(a.prev) && a.next == old(a.next)
  {
    assert q[i].prev == At(q, i - 1) && q[i].next == At(q, i + 1);
    assert i > 0 ==> q[i - 1] in Elems(q);
    assert i + 1 < |q| ==> q[i + 1] in Elems(q);
    if a.prev != null {
      a.prev.next := a.next;
    }
    if a.next != null {
      a.next.prev := a.prev;
    }
    ghost var t := Removed(q, i);
    assert forall k :: 0 <= k < |t| ==> t[k] == if k < i then q[k] else q[k + 1];
  }

  /** The same with the data: what is left of them. */
  method UnlinkData<T>(a: Node<T>, ghost q: seq<Node<T>>, ghost i: nat)
    requires Chained(q) && NoDuplicates(q) && i < |q| && q[i] == a
    modifies Elems(q)`prev, Elems(q)`next
    ensures Chained(Removed(q, i)) && a.prev == At(q, i as int - 1) && a.next == At(q, i + 1)
    ensures Data(Removed(q, i)) == Removed(old(Data(q)), i)
  {
    Unlink(a, q, i);
    assert Data(q) == old(Data(q)) by { assert forall k :: 0 <= k < |q| ==> q[k].data == old(q[k].data); }
    DataRemoved(q, i);
  }

  /** Links the new node `b` behind the last node `a`. */
  method Follow<T>(a: Node<T>, b: Node<T>, ghost q: seq<Node<T>>)
    requires Chained(q) && NoDuplicates(q) && q != [] && a == q[|q| - 1] && b !in q && b.prev == b.next == null
    modifies a`next, b`prev
    ensures Chained(q + [b])
  {
    a.next := b;
    b.prev := a;
  }

  class List<T> {
    var head: Node?<T>
    var tail: Node?<T>
    var size: nat
    ghost var nodes: seq<Node<T>>

    /** `prev` and `next` are mirror images, `head` and `tail` are the ends, and `size` is the
        32-bit number of nodes. */
    ghost predicate Valid()
      reads this, Elems(nodes)
    {
      Ends(nodes, head, tail, size).Sound? && Chained(nodes)
    }

    ghost function Contents(): (s: seq<T>)
      reads this, Elems(nodes)
      ensures |s| == |nodes|
    {
      Data(nodes)
    }

    constructor ()
      ensures Valid() && nodes == [] && Contents() == []
    {
      head, tail, size, nodes := null, null, 0, [];
    }

    /** containers/list.c:31-65 */
    method PushBack(x: T) returns (status: int)
      requires Valid()
      modifies this, Elems(nodes)
      ensures Valid() && status == 0 && Contents() == old(Contents()) + [x]
      ensures tail != null && fresh(tail) && nodes == old(nodes) + [tail]
    {
      var n := new Node(x);
      EndsPushed(nodes, head, tail, size, n);
      if tail == null {
        head := n;
        tail := n;
      } else {
        Follow(tail, n, nodes);
        tail := n;
      }
      size := Wrap(size + 1);
      nodes := nodes + [n];
      status := 0;
    }

    /** containers/list.c:67-101 */
    method PushFront(x: T) returns (status: int)
      requires Valid()
      modifies this, Elems(nodes)
      ensures Valid() && status == 0 && Contents() == [x] + old(Contents())
      ensures head != null && fresh(head) && nodes == [head] + old(nodes)
    {
      var n := new Node(x);
      EndsPushed(nodes, head, tail, size, n);
      if tail == null {
        head := n;
        tail := n;
      } else {
        head.prev := n;
        n.next := head;
        head := n;
      }
      size := Wrap(size + 1);
      assert Chained([n] + nodes);
      nodes := [n] + nodes;
      status := 0;
    }

    /** containers/list.c:103-125 */
    method PopBack() returns (status: int)
      requires Valid()
      modifies this, Elems(nodes)
      ensures Valid()
      ensures if old(nodes) == [] then status == -1 && nodes == []
              else
                && status == 0 && nodes == old(nodes)[..|old(nodes)| - 1]
                && Contents() == old(Contents())[..|old(nodes)| - 1]
    {
      if tail == null {
        return -1;
      }
      WrapDown(|nodes|);
      if tail == head {
        tail := null;
        head := null;
      } else {
        tail := tail.prev;
        tail.next := null;
      }
      size := Wrap(size - 1);
      nodes := nodes[..|nodes| - 1];
      status := 0;
    }

    /** containers/list.c:127-149 */
    method PopFront() returns (status: int)
      requires Valid()
      modifies this, Elems(nodes)
      ensures Valid()
      ensures if old(nodes) == [] then status == -1 && nodes == []
              else status == 0 && nodes == old(nodes)[1..] && Contents() == old(Contents())[1..]
    {
      if head == null {
        return -1;
      }
      WrapDown(|nodes|);
      if tail == head {
        tail := null;
        head := null;
      } else {
        head := head.next;
        head.prev := null;
      }
      size := Wrap(size - 1);
      nodes := nodes[1..];
      status := 0;
    }

    /** Exchanges the data of two nodes (containers/list.c:151-159). */
    method SwapElem(a: Node<T>, b: Node<T>)
      requires Valid() && a in nodes && b in nodes
      modifies a`data, b`data
      ensures Valid()
      ensures Contents() == Swapped(old(Contents()), IndexOf(nodes, a), IndexOf(nodes, b))
    {
      var tmp := a.data;
      a.data := b.data;
      b.data := tmp;
    }

    /** Takes a node out of the chain (containers/list.c:161-170). */
    method EraseElem(a: Node<T>)
      requires Valid() && a in nodes
      modifies this, Elems(nodes)
      ensures Valid() && nodes == Removed(old(nodes), IndexOf(old(nodes), a))
      ensures Contents() == Removed(old(Contents()), IndexOf(old(nodes), a))
    {
      ghost var q := nodes;
      ghost var i: int := IndexOf(nodes, a);
      UnlinkData(a, q, i);
      EndsRemoved(q, head, tail, size, i, if head == a then a.next else head, if tail == a then a.prev else tail);
      TakeOut(a, Removed(q, i));
    }

    /** The descriptor's part of it. */
    method TakeOut(a: Node<T>, ghost t: seq<Node<T>>)
      requires Chained(t)
      modifies this
      ensures head == (if old(head) == a then a.next else old(head))
      ensures tail == (if old(tail) == a then a.prev else old(tail))
      ensures size == Wrap(old(size) - 1) && nodes == t
      ensures Chained(t) && Data(t) == old(Data(t))
    {
      if head == a {
        head := a.next;
      }
      if tail == a {
        tail := a.prev;
      }
      size := Wrap(size - 1);
      nodes := t;
    }

    /** A new list with the same data (containers/list.c:196-202). */
    method Copy() returns (copy: List<T>)
      requires Valid()
      ensures fresh(copy) && copy.Valid() && copy.Contents() == Contents()
      ensures forall n :: n in copy.nodes ==> fresh(n)
      ensures Valid() && Contents() == old(Contents())
    {
      assert allocated(Elems(nodes));
      copy := new List<T>();
      var iter := head;
      ghost var q, d, i := nodes, Contents(), 0;
      while iter != null
        invariant this.Valid() && nodes == q && Data(q) == d && Chained(q)
        invariant i <= |q| && iter == At(q, i)
        invariant fresh(copy) && copy.Valid() && (forall n :: n in copy.nodes ==> fresh(n))
        invariant copy.Contents() == d[..i]
        decreases |q| - i
      {
        label L:
        var status := copy.PushBack(iter.data);
        assert Data(q) == old@L(Data(q)) && Chained(q) == old@L(Chained(q));
        iter := iter.next;
        i := i + 1;
      }
    }

    /** Walks along `next` and leaves the list empty (containers/list.c:172-184). */
    method Destructor() returns (freed: seq<Node<T>>)
      requires Valid()
      modifies this
      ensures freed == old(nodes) && Valid() && nodes == []
    {
      var iter := head;
      freed := [];
      while iter != null
        invariant |freed| <= |nodes| && freed == nodes[..|freed|] && iter == At(nodes, |freed|)
        decreases |nodes| - |freed|
      {
        var tmp := iter.next;
        freed := freed + [iter];
        iter := tmp;
      }
      head, tail, size, nodes := null, null, 0, [];
    }
  }
}
