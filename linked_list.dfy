/** The doubly linked list, its consuming iterator and its borrowing iterator.

    The list owns an arena of nodes (`nodes`); `head` and `tail` are optional
    arena indices standing for the owning head link and the raw tail pointer.
    Allocating a box takes the next unused index (`nextFree`); dropping a box
    removes its index from the arena. The ghost `Spine` lists the indices of
    the chain front to back and `Contents` the elements they hold. */
module LinkedLists {
  import opened Arena

  /** The representation invariant of a list, stated over the values of its
      fields: the arena is exactly one well-linked chain holding `contents`,
      `head` and `tail` are its ends (both absent exactly when it is empty),
      `length` counts it, and every index in use lies below `nextFree`. */
  ghost predicate ListState<T>(nodes: map<nat, Node<T>>, head: Option<nat>, tail: Option<nat>, length: nat,
                               nextFree: nat, spine: seq<nat>, contents: seq<T>)
  {
    Chain(nodes, spine, contents) && length == |spine| &&
    head == First(spine) && tail == Last(spine) &&
    (forall i :: i in nodes ==> i < nextFree)
  }

  /** What the invariant guarantees about the fields themselves: `length` is
      zero exactly when the head is absent, exactly when the tail is absent;
      the head has no back-pointer and the tail no forward link; and walking
      `length` forward links from the head, or `length` back-pointers from
      the tail, visits the chain in order, or in reverse. */
  lemma Representation<T>(nodes: map<nat, Node<T>>, head: Option<nat>, tail: Option<nat>, length: nat,
                          nextFree: nat, spine: seq<nat>, contents: seq<T>)
    requires ListState(nodes, head, tail, length, nextFree, spine, contents)
    ensures (length == 0 <==> head.None?) && (head.None? <==> tail.None?)
    ensures head.Some? ==> head.value in nodes && nodes[head.value].prev.None?
    ensures tail.Some? ==> tail.value in nodes && nodes[tail.value].next.None?
    ensures Forward(nodes, head, length) == spine && Backward(nodes, tail, length) == Reverse(spine)
  {
    Boundaries(nodes, spine, contents);
    ForwardWalk(nodes, spine, contents);
    BackwardWalk(nodes, spine, contents);
  }

  /** `push_back_node` keeps the invariant: the fresh index `nextFree` is
      appended, and on an empty list it also becomes the head. */
  lemma PushBackKeeps<T>(nodes: map<nat, Node<T>>, head: Option<nat>, tail: Option<nat>, length: nat, nextFree: nat,
                         spine: seq<nat>, contents: seq<T>, x: T,
                         nodes': map<nat, Node<T>>, head': Option<nat>, tail': Option<nat>, length': nat, nextFree': nat,
                         spine': seq<nat>, contents': seq<T>)
    requires ListState(nodes, head, tail, length, nextFree, spine, contents)
    requires tail' == Some(nextFree) && length' == length + 1 && nextFree' == nextFree + 1
    requires spine' == spine + [nextFree] && contents' == contents + [x]
    requires tail.None? ==> nodes' == nodes[nextFree := Detached(x)] && head' == Some(nextFree)
    requires tail.Some? ==> tail.value in nodes && head' == head &&
                            nodes' == nodes[nextFree := Node(None, tail, x)][tail.value := nodes[tail.value].(next := Some(nextFree))]
    ensures ListState(nodes', head', tail', length', nextFree', spine', contents')
  {
    Boundaries(nodes, spine, contents);
    if tail.Some? {
      AppendLinks(nodes, spine, contents, nextFree, x);
    } else {
      assert forall k {:trigger nodes'[[nextFree][k]]} :: 0 <= k < 1 ==> [nextFree][k] == nextFree;
    }
  }

  /** `push_front_node` keeps the invariant: the fresh index `nextFree` is
      prepended, and on an empty list it also becomes the tail. */
  lemma PushFrontKeeps<T>(nodes: map<nat, Node<T>>, head: Option<nat>, tail: Option<nat>, length: nat, nextFree: nat,
                          spine: seq<nat>, contents: seq<T>, x: T,
                          nodes': map<nat, Node<T>>, head': Option<nat>, tail': Option<nat>, length': nat, nextFree': nat,
                          spine': seq<nat>, contents': seq<T>)
    requires ListState(nodes, head, tail, length, nextFree, spine, contents)
    requires head' == Some(nextFree) && length' == length + 1 && nextFree' == nextFree + 1
    requires spine' == [nextFree] + spine && contents' == [x] + contents
    requires head.None? ==> nodes' == nodes[nextFree := Detached(x)] && tail' == Some(nextFree)
    requires head.Some? ==> head.value in nodes && tail' == tail &&
                            nodes' == nodes[nextFree := Node(head, None, x)][head.value := nodes[head.value].(prev := Some(nextFree))]
    ensures ListState(nodes', head', tail', length', nextFree', spine', contents')
  {
    Boundaries(nodes, spine, contents);
    if head.Some? {
      PrependLinks(nodes, spine, contents, nextFree, x);
    } else {
      assert forall k {:trigger nodes'[[nextFree][k]]} :: 0 <= k < 1 ==> [nextFree][k] == nextFree;
    }
  }

  /** What `pop_back_node` reads off a non-empty list: the tail is the last
      node of the chain and holds the last element; without a back-pointer it
      is also the head, and otherwise its predecessor is a distinct node
      whose forward link is the tail. */
  lemma BackView<T>(nodes: map<nat, Node<T>>, head: Option<nat>, tail: Option<nat>, length: nat, nextFree: nat,
                    spine: seq<nat>, contents: seq<T>)
    requires ListState(nodes, head, tail, length, nextFree, spine, contents) && tail.Some?
    ensures spine != [] && tail.value == spine[|spine| - 1] && tail.value in nodes
    ensures nodes[tail.value].element == contents[|contents| - 1]
    ensures nodes[tail.value].prev.None? ==> |spine| == 1 && head == tail
    ensures nodes[tail.value].prev.Some? ==>
              |spine| > 1 && nodes[tail.value].prev.value == spine[|spine| - 2] &&
              spine[|spine| - 2] in nodes && spine[|spine| - 2] != tail.value &&
              nodes[spine[|spine| - 2]].next == tail
  {
    At(nodes, spine, contents, |spine| - 1);
    if |spine| > 1 {
      At(nodes, spine, contents, |spine| - 2);
    }
  }

  /** `pop_back_node` keeps the invariant. Its updates, in the order it
      makes them: the tail's back-pointer is cleared; then either the only
      node is dropped and the head cleared, or the predecessor becomes the
      tail, its forward link is cleared and the old tail dropped. */
  lemma PopBackKeeps<T>(nodes: map<nat, Node<T>>, head: Option<nat>, tail: Option<nat>, length: nat, nextFree: nat,
                        spine: seq<nat>, contents: seq<T>, nodes': map<nat, Node<T>>, head': Option<nat>, tail': Option<nat>,
                        length': nat, spine': seq<nat>, contents': seq<T>)
    requires ListState(nodes, head, tail, length, nextFree, spine, contents) && spine != []
    requires var t := spine[|spine| - 1];
             var cleared := nodes[t := nodes[t].(prev := None)];
             if |spine| == 1 then
               nodes' == cleared - {t} && head' == None && tail' == None
             else
               var p := spine[|spine| - 2];
               head' == head && tail' == Some(p) && nodes' == cleared[p := cleared[p].(next := None)] - {t}
    requires length' == length - 1 && spine' == spine[..|spine| - 1] && contents' == contents[..|contents| - 1]
    ensures ListState(nodes', head', tail', length', nextFree, spine', contents')
  {
    var t := spine[|spine| - 1];
    if |spine| > 1 {
      var p := spine[|spine| - 2];
      At(nodes, spine, contents, |spine| - 2);
      assert nodes' == (nodes - {t})[p := nodes[p].(next := None)];
      DropLastLinks(nodes, spine, contents);
      forall i | i in nodes' ensures i < nextFree {
        assert i in nodes;
      }
    } else {
      assert nodes' == nodes - {t};
      DropOnlyLinks(nodes, spine, contents);
      assert spine[..0] == [] && contents[..0] == [];
    }
  }

  /** What `pop_front_node` reads off a non-empty list: the head is the first
      node of the chain and holds the first element; without a forward link
      it is also the tail, and otherwise its successor is a distinct node
      whose back-pointer is the head. */
  lemma FrontView<T>(nodes: map<nat, Node<T>>, head: Option<nat>, tail: Option<nat>, length: nat, nextFree: nat,
                     spine: seq<nat>, contents: seq<T>)
    requires ListState(nodes, head, tail, length, nextFree, spine, contents) && head.Some?
    ensures spine != [] && head.value == spine[0] && head.value in nodes
    ensures nodes[head.value].element == contents[0]
    ensures nodes[head.value].next.None? ==> |spine| == 1 && head == tail
    ensures nodes[head.value].next.Some? ==>
              |spine| > 1 && nodes[head.value].next.value == spine[1] &&
              spine[1] in nodes && spine[1] != head.value && nodes[spine[1]].prev == head
  {
    At(nodes, spine, contents, 0);
    if |spine| > 1 {
      At(nodes, spine, contents, 1);
    }
  }

  /** `pop_front_node` keeps the invariant. Its updates, in the order it
      makes them: `take_next` clears the head's forward link and the
      successor's back-pointer; then the successor becomes the head, or the
      tail is cleared when there is none; and the old head is dropped. */
  lemma PopFrontKeeps<T>(nodes: map<nat, Node<T>>, head: Option<nat>, tail: Option<nat>, length: nat, nextFree: nat,
                         spine: seq<nat>, contents: seq<T>, nodes': map<nat, Node<T>>, head': Option<nat>, tail': Option<nat>,
                         length': nat, spine': seq<nat>, contents': seq<T>)
    requires ListState(nodes, head, tail, length, nextFree, spine, contents) && spine != []
    requires var h := spine[0];
             var cut := nodes[h := nodes[h].(next := None)];
             if |spine| == 1 then
               nodes' == cut - {h} && head' == None && tail' == None
             else
               var n := spine[1];
               head' == Some(n) && tail' == tail && nodes' == cut[n := cut[n].(prev := None)] - {h}
    requires length' == length - 1 && spine' == spine[1..] && contents' == contents[1..]
    ensures ListState(nodes', head', tail', length', nextFree, spine', contents')
  {
    var h := spine[0];
    if |spine| > 1 {
      var n := spine[1];
      At(nodes, spine, contents, 1);
      assert nodes' == (nodes - {h})[n := nodes[n].(prev := None)];
      DropFirstLinks(nodes, spine, contents);
      forall i | i in nodes' ensures i < nextFree {
        assert i in nodes;
      }
    } else {
      assert nodes' == nodes - {h};
      DropOnlyLinks(nodes, spine, contents);
    }
  }

  /** Writing through `front_mut` or `back_mut` keeps the invariant and
      changes the one element written. */
  lemma SetElementKeeps<T>(nodes: map<nat, Node<T>>, head: Option<nat>, tail: Option<nat>, length: nat, nextFree: nat,
                           spine: seq<nat>, contents: seq<T>, k: nat, x: T, nodes': map<nat, Node<T>>, contents': seq<T>)
    requires ListState(nodes, head, tail, length, nextFree, spine, contents) && k < |spine| && spine[k] in nodes
    requires nodes' == nodes[spine[k] := nodes[spine[k]].(element := x)] && contents' == contents[k := x]
    ensures ListState(nodes', head, tail, length, nextFree, spine, contents')
  {
    SetElementLinks(nodes, spine, contents, k, x);
  }

  class LinkedList<T> {
    var nodes: map<nat, Node<T>>
    var head: Option<nat>
    var tail: Option<nat>
    var length: nat
    var nextFree: nat

    ghost var Spine: seq<nat>
    ghost var Contents: seq<T>

    /** The representation invariant: the arena is exactly one well-linked
        chain from `head` to `tail`, `length` counts it, and its nodes hold
        `Contents` in order. */
    ghost predicate Valid()
      reads this
    {
      ListState(nodes, head, tail, length, nextFree, Spine, Contents)
    }

    /** `LinkedList::new`: no head, no tail, length zero. */
    constructor ()
      ensures Valid() && Contents == []
      ensures head == None && tail == None && length == 0 && nodes == map[]
    {
      nodes, head, tail, length, nextFree := map[], None, None, 0, 0;
      Spine, Contents := [], [];
    }

    /** `Node::link`: node `j` points back to node `i`, and `i` owns `j` as
        its successor. Nothing else changes. */
    method Link(i: nat, j: nat)
      requires i in nodes && j in nodes && i != j
      modifies this`nodes
      ensures nodes == old(nodes)[j := old(nodes)[j].(prev := Some(i))][i := old(nodes)[i].(next := Some(j))]
    {
      nodes := nodes[j := nodes[j].(prev := Some(i))];
      nodes := nodes[i := nodes[i].(next := Some(j))];
    }

    /** `Node::take_next`: detaches the successor of node `i` and returns it;
        the detached node's back-pointer is cleared. */
    method TakeNext(i: nat) returns (next: Option<nat>)
      requires i in nodes
      requires nodes[i].next.Some? ==> nodes[i].next.value in nodes
      modifies this`nodes
      ensures next == old(nodes)[i].next
      ensures next.None? ==> nodes == old(nodes)[i := old(nodes)[i].(next := None)]
      ensures next.Some? ==> nodes == old(nodes)[i := old(nodes)[i].(next := None)]
                                                [next.value := old(nodes)[i := old(nodes)[i].(next := None)][next.value].(prev := None)]
    {
      next := nodes[i].next;
      nodes := nodes[i := nodes[i].(next := None)];
      if next.Some? {
        nodes := nodes[next.value := nodes[next.value].(prev := None)];
      }
    }

    /** Appends a detached node at the end. On an empty list the new node is
        also the head. */
    method PushBackNode(node: Node<T>)
      requires Valid() && node.next.None? && node.prev.None?
      modifies this
      ensures Valid()
      ensures Contents == old(Contents) + [node.element] && length == old(length) + 1
      ensures old(Contents) == [] ==> head == tail
    {
      ghost var nodes0, head0, tail0, length0, nextFree0 := nodes, head, tail, length, nextFree;
      var newTail := nextFree;
      nextFree := nextFree + 1;
      nodes := nodes[newTail := node];
      var oldTail := tail;
      tail := Some(newTail);
      match oldTail {
        case None =>
          head := Some(newTail);
        case Some(t) =>
          assert t in nodes0 by {
            At(nodes0, Spine, Contents, |Spine| - 1);
          }
          Link(t, newTail);
      }
      length := length + 1;
      ghost var spine0, contents0 := Spine, Contents;
      Spine := Spine + [newTail];
      Contents := Contents + [node.element];
      PushBackKeeps(nodes0, head0, tail0, length0, nextFree0, spine0, contents0, node.element,
                    nodes, head, tail, length, nextFree, Spine, Contents);
    }

    /** Prepends a detached node at the front. On an empty list the new node
        is also the tail. */
    method PushFrontNode(node: Node<T>)
      requires Valid() && node.next.None? && node.prev.None?
      modifies this
      ensures Valid()
      ensures Contents == [node.element] + old(Contents) && length == old(length) + 1
      ensures old(Contents) == [] ==> head == tail
    {
      ghost var nodes0, head0, tail0, length0, nextFree0 := nodes, head, tail, length, nextFree;
      var newHead := nextFree;
      nextFree := nextFree + 1;
      nodes := nodes[newHead := node];
      var oldHead := head;
      head := None;
      match oldHead {
        case None =>
          tail := Some(newHead);
        case Some(h) =>
          assert h in nodes0 by {
            At(nodes0, Spine, Contents, 0);
          }
          Link(newHead, h);
      }
      head := Some(newHead);
      length := length + 1;
      ghost var spine0, contents0 := Spine, Contents;
      Spine := [newHead] + Spine;
      Contents := [node.element] + Contents;
      PushFrontKeeps(nodes0, head0, tail0, length0, nextFree0, spine0, contents0, node.element,
                     nodes, head, tail, length, nextFree, Spine, Contents);
    }

    /** Unlinks the last node and returns its element, or `None` on an empty
        list, which is left unchanged. */
    method PopBackNode() returns (r: Option<T>)
      requires Valid()
      modifies this
      ensures Valid()
      ensures old(Contents) == [] ==> r == None && Contents == [] && length == 0
      ensures old(Contents) != [] ==>
                r == Some(old(Contents)[|old(Contents)| - 1]) &&
                Contents == old(Contents)[..|old(Contents)| - 1] &&
                length == old(length) - 1
    {
      ghost var nodes0, head0, tail0, length0, spine0, contents0 := nodes, head, tail, length, Spine, Contents;
      var oldTail := tail;
      tail := None;
      match oldTail {
        case None =>
          r := None;
        case Some(t) =>
          BackView(nodes0, head0, tail0, length0, nextFree, spine0, contents0);
          var element := UnlinkTail(t);
          r := Some(element);
          Spine := Spine[..|Spine| - 1];
          Contents := Contents[..|Contents| - 1];
          PopBackKeeps(nodes0, head0, tail0, length0, nextFree, spine0, contents0, nodes, head, tail, length, Spine, Contents);
      }
    }

    /** The body of the closure `pop_back_node` runs on the tail `t` it has
        taken: decrements `length`, takes the tail's back-pointer, and then
        either drops the only node and clears the head, or makes the
        predecessor the tail and drops the node its forward link owned. */
    method UnlinkTail(t: nat) returns (element: T)
      requires t in nodes && length > 0
      requires nodes[t].prev.None? ==> head == Some(t)
      requires nodes[t].prev.Some? ==>
                 nodes[t].prev.value in nodes && nodes[t].prev.value != t &&
                 nodes[nodes[t].prev.value].next == Some(t)
      modifies this`nodes, this`head, this`tail, this`length
      ensures element == old(nodes)[t].element && length == old(length) - 1
      ensures var cleared := old(nodes)[t := old(nodes)[t].(prev := None)];
              match old(nodes)[t].prev
              case None => nodes == cleared - {t} && head == None && tail == old(tail)
              case Some(p) => nodes == cleared[p := cleared[p].(next := None)] - {t} &&
                              head == old(head) && tail == Some(p)
    {
      length := length - 1;
      var prev := nodes[t].prev;
      nodes := nodes[t := nodes[t].(prev := None)];
      match prev {
        case None =>
          var h := head.value;
          head := None;
          element := nodes[h].element;
          nodes := nodes - {h};
        case Some(p) =>
          tail := Some(p);
          var n := nodes[p].next.value;
          nodes := nodes[p := nodes[p].(next := None)];
          element := nodes[n].element;
          nodes := nodes - {n};
      }
    }

    /** Unlinks the first node and returns its element, or `None` on an empty
        list, which is left unchanged. */
    method PopFrontNode() returns (r: Option<T>)
      requires Valid()
      modifies this
      ensures Valid()
      ensures old(Contents) == [] ==> r == None && Contents == [] && length == 0
      ensures old(Contents) != [] ==>
                r == Some(old(Contents)[0]) && Contents == old(Contents)[1..] &&
                length == old(length) - 1
    {
      ghost var nodes0, head0, tail0, length0, spine0, contents0 := nodes, head, tail, length, Spine, Contents;
      var oldHead := head;
      head := None;
      match oldHead {
        case None =>
          r := None;
        case Some(h) =>
          FrontView(nodes0, head0, tail0, length0, nextFree, spine0, contents0);
          length := length - 1;
          var next := TakeNext(h);
          match next {
            case None =>
              tail := None;
            case Some(n) =>
              head := Some(n);
          }
          r := Some(nodes[h].element);
          nodes := nodes - {h};
          Spine := Spine[1..];
          Contents := Contents[1..];
          PopFrontKeeps(nodes0, head0, tail0, length0, nextFree, spine0, contents0, nodes, head, tail, length, Spine, Contents);
      }
    }

    /** `push`, an alias of `push_back`. */
    method Push(element: T)
      requires Valid()
      modifies this
      ensures Valid()
      ensures Contents == old(Contents) + [element] && length == old(length) + 1
      ensures Back() == Some(element)
    {
      PushBack(element);
    }

    /** `pop`, an alias of `pop_back`. */
    method Pop() returns (r: Option<T>)
      requires Valid()
      modifies this
      ensures Valid()
      ensures old(Contents) == [] ==> r == None && Contents == [] && length == 0
      ensures old(Contents) != [] ==>
                r == Some(old(Contents)[|old(Contents)| - 1]) &&
                Contents == old(Contents)[..|old(Contents)| - 1] &&
                length == old(length) - 1
    {
      r := PopBack();
    }

    /** Inserts `element` at the end: the contents grow by one at the back and
        `back()` then returns it. */
    method PushBack(element: T)
      requires Valid()
      modifies this
      ensures Valid()
      ensures Contents == old(Contents) + [element] && length == old(length) + 1
      ensures Back() == Some(element)
      ensures old(Contents) == [] ==> head == tail
    {
      PushBackNode(Detached(element));
    }

    /** Removes the last element and returns it, or `None` when the list is
        empty. */
    method PopBack() returns (r: Option<T>)
      requires Valid()
      modifies this
      ensures Valid()
      ensures old(Contents) == [] ==> r == None && Contents == [] && length == 0
      ensures old(Contents) != [] ==>
                r == Some(old(Contents)[|old(Contents)| - 1]) &&
                Contents == old(Contents)[..|old(Contents)| - 1] &&
                length == old(length) - 1
    {
      r := PopBackNode();
    }

    /** Inserts `element` at the front: the contents grow by one at the front
        and `front()` then returns it. */
    method PushFront(element: T)
      requires Valid()
      modifies this
      ensures Valid()
      ensures Contents == [element] + old(Contents) && length == old(length) + 1
      ensures Front() == Some(element)
      ensures old(Contents) == [] ==> head == tail
    {
      PushFrontNode(Detached(element));
    }

    /** Removes the first element and returns it, or `None` when the list is
        empty. */
    method PopFront() returns (r: Option<T>)
      requires Valid()
      modifies this
      ensures Valid()
      ensures old(Contents) == [] ==> r == None && Contents == [] && length == 0
      ensures old(Contents) != [] ==>
                r == Some(old(Contents)[0]) && Contents == old(Contents)[1..] &&
                length == old(length) - 1
    {
      r := PopFrontNode();
    }

    /** The number of elements held. */
    function Length(): (n: nat)
      reads this
      requires Valid()
      ensures n == |Contents|
    {
      length
    }

    /** Whether the list holds no element. */
    function IsEmpty(): (b: bool)
      reads this
      requires Valid()
      ensures b <==> Contents == []
      ensures b <==> Length() == 0
    {
      length == 0
    }

    /** Pops from the back until the list is empty: afterwards it is in the
        state `new()` builds, with no node left in the arena. */
    method Clear()
      requires Valid()
      modifies this
      ensures Valid() && Contents == []
      ensures head == None && tail == None && length == 0 && nodes == map[]
    {
      while !IsEmpty()
        invariant Valid()
        decreases length
      {
        var _ := Pop();
      }
      Boundaries(nodes, Spine, Contents);
    }

    /** The first element, or `None` exactly when the list is empty. */
    function Front(): (r: Option<T>)
      reads this
      requires Valid()
      ensures r.None? <==> Contents == []
      ensures r.Some? ==> r.value == Contents[0]
    {
      match head
      case None => None
      case Some(h) => Some(nodes[h].element)
    }

    /** The last element, or `None` exactly when the list is empty. */
    function Back(): (r: Option<T>)
      reads this
      requires Valid()
      ensures r.None? <==> Contents == []
      ensures r.Some? ==> r.value == Contents[|Contents| - 1]
    {
      match tail
      case None => None
      case Some(t) => Some(nodes[t].element)
    }

    /** `front_mut` followed by a write through the returned reference: when
        the list is not empty its first element becomes `element`; nothing
        else changes. */
    method FrontMut(element: T) returns (present: bool)
      requires Valid()
      modifies this`nodes, this`Contents
      ensures Valid()
      ensures present <==> old(Contents) != []
      ensures Contents == if present then old(Contents)[0 := element] else old(Contents)
    {
      match head {
        case None =>
          present := false;
        case Some(h) =>
          present := true;
          ghost var nodes0, contents0 := nodes, Contents;
          At(nodes0, Spine, Contents, 0);
          nodes := nodes[h := nodes[h].(element := element)];
          Contents := Contents[0 := element];
          SetElementKeeps(nodes0, head, tail, length, nextFree, Spine, contents0, 0, element, nodes, Contents);
      }
    }

    /** `back_mut` followed by a write through the returned reference: when
        the list is not empty its last element becomes `element`; nothing
        else changes. */
    method BackMut(element: T) returns (present: bool)
      requires Valid()
      modifies this`nodes, this`Contents
      ensures Valid()
      ensures present <==> old(Contents) != []
      ensures Contents == if present then old(Contents)[|old(Contents)| - 1 := element] else old(Contents)
    {
      match tail {
        case None =>
          present := false;
        case Some(t) =>
          present := true;
          ghost var nodes0, contents0 := nodes, Contents;
          At(nodes0, Spine, Contents, |Spine| - 1);
          nodes := nodes[t := nodes[t].(element := element)];
          Contents := Contents[|Contents| - 1 := element];
          SetElementKeeps(nodes0, head, tail, length, nextFree, Spine, contents0, |Spine| - 1, element, nodes, Contents);
      }
    }

    /** A fresh borrowing iterator positioned at both ends of the list. */
    method Iter() returns (it: Iter<T>)
      requires Valid()
      ensures fresh(it) && it.list == this && it.Valid()
      ensures it.front == 0 && it.back == 0 && it.len == |Contents|
    {
      it := new Iter(this);
    }
  }

  /** The consuming iterator: it owns the list and drains it with
      `pop_front` (`next`) and `pop_back` (`next_back`). */
  class IntoIter<T> {
    const list: LinkedList<T>

    ghost predicate Valid()
      reads this, list
    {
      list.Valid()
    }

    /** `into_iter`: takes the list over. */
    constructor (list: LinkedList<T>)
      requires list.Valid()
      ensures this.list == list && Valid()
    {
      this.list := list;
    }

    /** Yields the first remaining element, or `None` once the list is
        drained. */
    method Next() returns (r: Option<T>)
      requires Valid()
      modifies list
      ensures Valid()
      ensures old(list.Contents) == [] ==> r == None && list.Contents == []
      ensures old(list.Contents) != [] ==>
                r == Some(old(list.Contents)[0]) && list.Contents == old(list.Contents)[1..]
    {
      r := list.PopFront();
    }

    /** Yields the last remaining element, or `None` once the list is
        drained. */
    method NextBack() returns (r: Option<T>)
      requires Valid()
      modifies list
      ensures Valid()
      ensures old(list.Contents) == [] ==> r == None && list.Contents == []
      ensures old(list.Contents) != [] ==>
                r == Some(old(list.Contents)[|old(list.Contents)| - 1]) &&
                list.Contents == old(list.Contents)[..|old(list.Contents)| - 1]
    {
      r := list.PopBack();
    }

    /** Both bounds of the size hint are the number of elements left. */
    function SizeHint(): (r: (nat, Option<nat>))
      reads this, list
      requires Valid()
      ensures r.0 == |list.Contents| && r.1 == Some(|list.Contents|)
    {
      (list.Length(), Some(list.Length()))
    }
  }

  /** The borrowing iterator. `head` is the front cursor (the link it will
      follow next), `tail` the back cursor and `len` the count it reports.
      The ghost `front` and `back` count the elements yielded from each end. */
  class Iter<T> {
    const list: LinkedList<T>
    var head: Option<nat>
    var tail: Option<nat>
    var len: nat

    ghost var front: nat
    ghost var back: nat

    /** The cursors sit `front` nodes after the head and `back` nodes before
        the tail of the borrowed list, and `len` counts what lies between. */
    ghost predicate Valid()
      reads this, list
    {
      list.Valid() &&
      front + back <= |list.Spine| && len == |list.Spine| - front - back &&
      head == Cursor(list.Spine, front) && tail == BackCursor(list.Spine, back)
    }

    /** `iter`: both cursors at the ends, `len` the list's length. */
    constructor (list: LinkedList<T>)
      requires list.Valid()
      ensures this.list == list && Valid() && front == 0 && back == 0 && len == |list.Contents|
    {
      this.list := list;
      head := list.head;
      tail := list.tail;
      len := list.length;
      front, back := 0, 0;
    }

    /** Yields the element under the front cursor and follows its forward
        link, or yields `None` once the cursor has run off the end. The
        precondition is that `len -= 1` does not underflow. */
    method Next() returns (r: Option<T>)
      requires Valid() && (head.Some? ==> len > 0)
      modifies this
      ensures Valid() && back == old(back)
      ensures old(front) < |list.Contents| ==>
                r == Some(list.Contents[old(front)]) && front == old(front) + 1
      ensures old(front) >= |list.Contents| ==> r == None && front == old(front)
      ensures r.Some? ==> old(front) < |list.Contents| - back
    {
      match head {
        case None =>
          r := None;
        case Some(h) =>
          len := len - 1;
          head := list.nodes[h].next;
          r := Some(list.nodes[h].element);
          front := front + 1;
      }
    }

    /** Yields the element under the back cursor and follows its
        back-pointer, or yields `None` once the cursor has run off the front.
        The precondition is that `len -= 1` does not underflow. */
    method NextBack() returns (r: Option<T>)
      requires Valid() && (tail.Some? ==> len > 0)
      modifies this
      ensures Valid() && front == old(front)
      ensures old(back) < |list.Contents| ==>
                r == Some(list.Contents[|list.Contents| - 1 - old(back)]) && back == old(back) + 1
      ensures old(back) >= |list.Contents| ==> r == None && back == old(back)
      ensures r.Some? ==> front < |list.Contents| - old(back)
    {
      match tail {
        case None =>
          r := None;
        case Some(t) =>
          len := len - 1;
          tail := list.nodes[t].prev;
          r := Some(list.nodes[t].element);
          back := back + 1;
      }
    }

    /** Both bounds of the size hint are the count `len`: the elements not
        yet yielded from either end. */
    function SizeHint(): (r: (nat, Option<nat>))
      reads this, list
      requires Valid()
      ensures r.0 == |list.Contents| - front - back && r.1 == Some(r.0)
    {
      (len, Some(len))
    }
  }
}
