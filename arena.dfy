/** The node store of the doubly linked list.

    Each heap node of the list lives in an arena, a map from stable indices to
    node records. An owning `next` link and a non-owning `prev` back-pointer are
    both optional indices into that arena, so the null pointer becomes `None`.
    A list is well linked when its chain of indices (the spine) visits every
    node of the arena exactly once, each node pointing forward to its successor
    and back to its predecessor. */
module Arena {

  datatype Option<T> = None | Some(value: T)

  /** A node: the owning link to the successor, the back-pointer to the
      predecessor, and the element it holds. */
  datatype Node<T> = Node(next: Option<nat>, prev: Option<nat>, element: T)

  /** A node with neither neighbour (`Node::new`). */
  function Detached<T>(element: T): Node<T>
  {
    Node(None, None, element)
  }

  /** The first index of a chain, or `None` when it is empty. */
  function First(spine: seq<nat>): Option<nat>
  {
    if spine == [] then None else Some(spine[0])
  }

  /** The last index of a chain, or `None` when it is empty. */
  function Last(spine: seq<nat>): Option<nat>
  {
    if spine == [] then None else Some(spine[|spine| - 1])
  }

  /** The successor that node `k` of a chain must point to. */
  function SuccessorAt(spine: seq<nat>, k: nat): Option<nat>
    requires k < |spine|
  {
    if k + 1 < |spine| then Some(spine[k + 1]) else None
  }

  /** The predecessor that node `k` of a chain must point back to. */
  function PredecessorAt(spine: seq<nat>, k: nat): Option<nat>
    requires k < |spine|
  {
    if k > 0 then Some(spine[k - 1]) else None
  }

  /** `spine` lists distinct nodes of `nodes`, front to back, holding
      `elements` in order, and their forward links and back-pointers agree
      with that order: the first node has no predecessor, the last has no
      successor, and nothing branches or cycles. */
  ghost predicate Linked<T>(nodes: map<nat, Node<T>>, spine: seq<nat>, elements: seq<T>)
  {
    |elements| == |spine| &&
    (forall k, l :: 0 <= k < l < |spine| ==> spine[k] != spine[l]) &&
    (forall k {:trigger nodes[spine[k]]} {:trigger spine[k] in nodes} :: 0 <= k < |spine| ==>
       spine[k] in nodes &&
       nodes[spine[k]] == Node(SuccessorAt(spine, k), PredecessorAt(spine, k), elements[k]))
  }

  /** A well-linked chain that holds every node of the arena: no node is
      leaked and no link can dangle. */
  ghost predicate Chain<T>(nodes: map<nat, Node<T>>, spine: seq<nat>, elements: seq<T>)
  {
    Linked(nodes, spine, elements) && forall i :: i in nodes ==> i in spine
  }

  /** The indices visited by following forward links from `cur`, at most
      `steps` times, stopping at a missing link. */
  ghost function Forward<T>(nodes: map<nat, Node<T>>, cur: Option<nat>, steps: nat): seq<nat>
    decreases steps
  {
    if steps == 0 || cur.None? || cur.value !in nodes then []
    else [cur.value] + Forward(nodes, nodes[cur.value].next, steps - 1)
  }

  /** The indices visited by following back-pointers from `cur`, at most
      `steps` times, stopping at a missing pointer. */
  ghost function Backward<T>(nodes: map<nat, Node<T>>, cur: Option<nat>, steps: nat): seq<nat>
    decreases steps
  {
    if steps == 0 || cur.None? || cur.value !in nodes then []
    else [cur.value] + Backward(nodes, nodes[cur.value].prev, steps - 1)
  }

  function Reverse<T>(s: seq<T>): seq<T>
  {
    if s == [] then [] else Reverse(s[1..]) + [s[0]]
  }

  lemma {:induction false} ReverseAt<T>(s: seq<T>, k: nat)
    requires k < |s|
    ensures |Reverse(s)| == |s| && Reverse(s)[k] == s[|s| - 1 - k]
  {
    ReverseLength(s);
    if k < |s| - 1 {
      ReverseAt(s[1..], k);
    }
  }

  lemma {:induction false} ReverseLength<T>(s: seq<T>)
    ensures |Reverse(s)| == |s|
  {
    if s != [] {
      ReverseLength(s[1..]);
    }
  }

  lemma {:induction false} ReverseAppend<T>(s: seq<T>, x: T)
    ensures Reverse(s + [x]) == [x] + Reverse(s)
  {
    if s != [] {
      assert (s + [x])[1..] == s[1..] + [x];
      ReverseAppend(s[1..], x);
    } else {
      assert Reverse([x]) == Reverse([x][1..]) + [x];
    }
  }

  lemma {:induction false} ReverseReverse<T>(s: seq<T>)
    ensures Reverse(Reverse(s)) == s
  {
    if s != [] {
      ReverseAppend(Reverse(s[1..]), s[0]);
      ReverseReverse(s[1..]);
    }
  }

  /** The node at position `k` of a chain, or `None` one past its end. */
  function Cursor(spine: seq<nat>, k: nat): Option<nat>
    requires k <= |spine|
  {
    if k < |spine| then Some(spine[k]) else None
  }

  /** The node `b` positions before the end of a chain, or `None` once `b`
      reaches its length. */
  function BackCursor(spine: seq<nat>, b: nat): Option<nat>
  {
    if b < |spine| then Some(spine[|spine| - 1 - b]) else None
  }

  /** Walking forward from node `k` of a well-linked chain, for at least as
      many steps as there are nodes left, visits exactly the rest of the
      chain: the last node's link is missing, so the walk stops there. */
  lemma {:induction false} ForwardFrom<T>(nodes: map<nat, Node<T>>, spine: seq<nat>, elements: seq<T>, k: nat, steps: nat)
    requires Linked(nodes, spine, elements) && k <= |spine| && |spine| - k <= steps
    ensures Forward(nodes, Cursor(spine, k), steps) == spine[k..]
    decreases |spine| - k
  {
    if k < |spine| {
      var x := spine[k];
      assert nodes[x].next == SuccessorAt(spine, k) == Cursor(spine, k + 1);
      assert Forward(nodes, Some(x), steps) == [x] + Forward(nodes, nodes[x].next, steps - 1);
      ForwardFrom(nodes, spine, elements, k + 1, steps - 1);
      assert spine[k..] == [x] + spine[k + 1..];
    }
  }

  /** Following the owning links from the head `length` times visits every
      node of the chain in order, ending at the tail; a further step finds
      no link. */
  lemma ForwardWalk<T>(nodes: map<nat, Node<T>>, spine: seq<nat>, elements: seq<T>)
    requires Chain(nodes, spine, elements)
    ensures Forward(nodes, First(spine), |spine|) == spine
    ensures Forward(nodes, First(spine), |spine| + 1) == spine
  {
    assert First(spine) == Cursor(spine, 0);
    assert spine[0..] == spine;
    ForwardFrom(nodes, spine, elements, 0, |spine|);
    ForwardFrom(nodes, spine, elements, 0, |spine| + 1);
  }

  /** Walking back from node `k` of a well-linked chain, for at least `k + 1`
      steps, visits nodes `k`, `k - 1`, ..., `0` and stops at the first
      node, whose back-pointer is missing. */
  lemma {:induction false} BackwardFrom<T>(nodes: map<nat, Node<T>>, spine: seq<nat>, elements: seq<T>, k: nat, steps: nat)
    requires Linked(nodes, spine, elements) && k < |spine| && k < steps
    ensures Backward(nodes, Some(spine[k]), steps) == Reverse(spine[..k + 1])
  {
    var x, pre := spine[k], spine[..k];
    assert spine[..k + 1] == pre + [x];
    ReverseAppend(pre, x);
    assert x in nodes && nodes[x].prev == PredecessorAt(spine, k);
    if k > 0 {
      BackwardFrom(nodes, spine, elements, k - 1, steps - 1);
      assert spine[..k - 1 + 1] == pre;
    } else {
      assert pre == [];
    }
  }

  /** Following the back-pointers from the tail `length` times visits every
      node of the chain in reverse order, ending at the head; a further step
      finds no pointer. */
  lemma BackwardWalk<T>(nodes: map<nat, Node<T>>, spine: seq<nat>, elements: seq<T>)
    requires Chain(nodes, spine, elements)
    ensures Backward(nodes, Last(spine), |spine|) == Reverse(spine)
    ensures Backward(nodes, Last(spine), |spine| + 1) == Reverse(spine)
  {
    if spine != [] {
      assert spine[..|spine|] == spine;
      BackwardFrom(nodes, spine, elements, |spine| - 1, |spine|);
      BackwardFrom(nodes, spine, elements, |spine| - 1, |spine| + 1);
    }
  }

  /** The boundary facts of a well-linked chain: it is empty exactly when it
      has no first node and exactly when it has no last node, the first node
      has no predecessor and the last node has no successor. */
  lemma Boundaries<T>(nodes: map<nat, Node<T>>, spine: seq<nat>, elements: seq<T>)
    requires Chain(nodes, spine, elements)
    ensures (|spine| == 0 <==> First(spine).None?) && (First(spine).None? <==> Last(spine).None?)
    ensures |spine| == 0 <==> nodes == map[]
    ensures First(spine).Some? ==> nodes[First(spine).value].prev.None?
    ensures Last(spine).Some? ==> nodes[Last(spine).value].next.None?
  {
    if spine != [] {
      assert nodes[spine[0]].prev == PredecessorAt(spine, 0);
      assert nodes[spine[|spine| - 1]].next == SuccessorAt(spine, |spine| - 1);
      assert spine[0] in nodes;
    } else {
      assert nodes.Keys == {};
    }
  }

  /** Node `k` of a well-linked chain is in the arena, with exactly the
      links and element its position calls for. */
  lemma At<T>(nodes: map<nat, Node<T>>, spine: seq<nat>, elements: seq<T>, k: nat)
    requires Linked(nodes, spine, elements) && k < |spine|
    ensures spine[k] in nodes
    ensures nodes[spine[k]] == Node(SuccessorAt(spine, k), PredecessorAt(spine, k), elements[k])
  {
  }

  /** `push_back` on a non-empty chain: the new node `i`, pointing back to
      the old tail, becomes the tail, and the old tail now owns it. */
  lemma {:induction false} AppendLinks<T>(nodes: map<nat, Node<T>>, spine: seq<nat>, elements: seq<T>, i: nat, x: T)
    requires Chain(nodes, spine, elements) && spine != [] && i !in nodes
    ensures var t := spine[|spine| - 1];
            Chain(nodes[i := Node(None, Some(t), x)][t := nodes[t].(next := Some(i))], spine + [i], elements + [x])
  {
    var t := spine[|spine| - 1];
    var nodes', spine', elements' := nodes[i := Node(None, Some(t), x)][t := nodes[t].(next := Some(i))], spine + [i], elements + [x];
    At(nodes, spine, elements, |spine| - 1);
    forall k {:trigger nodes'[spine'[k]]} {:trigger spine'[k] in nodes'} | 0 <= k < |spine'|
      ensures spine'[k] in nodes'
      ensures nodes'[spine'[k]] == Node(SuccessorAt(spine', k), PredecessorAt(spine', k), elements'[k])
    {
      if k < |spine| {
        At(nodes, spine, elements, k);
      }
    }
    forall j | j in nodes' ensures j in spine' {
      if j != i {
        assert j in nodes;
      }
    }
  }

  /** `push_front` on a non-empty chain: the new node `i`, owning the old
      head, becomes the head, and the old head now points back to it. */
  lemma {:induction false} PrependLinks<T>(nodes: map<nat, Node<T>>, spine: seq<nat>, elements: seq<T>, i: nat, x: T)
    requires Chain(nodes, spine, elements) && spine != [] && i !in nodes
    ensures var h := spine[0];
            Chain(nodes[i := Node(Some(h), None, x)][h := nodes[h].(prev := Some(i))], [i] + spine, [x] + elements)
  {
    var h := spine[0];
    var nodes', spine', elements' := nodes[i := Node(Some(h), None, x)][h := nodes[h].(prev := Some(i))], [i] + spine, [x] + elements;
    At(nodes, spine, elements, 0);
    forall k {:trigger nodes'[spine'[k]]} {:trigger spine'[k] in nodes'} | 0 <= k < |spine'|
      ensures spine'[k] in nodes'
      ensures nodes'[spine'[k]] == Node(SuccessorAt(spine', k), PredecessorAt(spine', k), elements'[k])
    {
      if k > 0 {
        At(nodes, spine, elements, k - 1);
        assert spine'[k] == spine[k - 1] && elements'[k] == elements[k - 1];
        assert SuccessorAt(spine', k) == SuccessorAt(spine, k - 1);
        assert PredecessorAt(spine', k) == if k == 1 then Some(i) else PredecessorAt(spine, k - 1);
      }
    }
    forall k, l | 0 <= k < l < |spine'| ensures spine'[k] != spine'[l] {
      if k > 0 {
        assert spine'[k] == spine[k - 1];
      }
      assert spine'[l] == spine[l - 1];
      At(nodes, spine, elements, l - 1);
    }
    forall j | j in nodes' ensures j in spine' {
      if j != i {
        assert j in nodes;
        var k :| 0 <= k < |spine| && spine[k] == j;
        assert spine'[k + 1] == j;
      }
    }
  }

  /** `pop_back` on a chain of two or more: the old tail leaves the arena and
      its predecessor, whose link is cleared, becomes the tail. */
  lemma {:induction false} DropLastLinks<T>(nodes: map<nat, Node<T>>, spine: seq<nat>, elements: seq<T>)
    requires Chain(nodes, spine, elements) && |spine| >= 2
    ensures var t, p := spine[|spine| - 1], spine[|spine| - 2];
            Chain((nodes - {t})[p := nodes[p].(next := None)], spine[..|spine| - 1], elements[..|elements| - 1])
  {
    var t, p := spine[|spine| - 1], spine[|spine| - 2];
    var nodes', spine', elements' := (nodes - {t})[p := nodes[p].(next := None)], spine[..|spine| - 1], elements[..|elements| - 1];
    At(nodes, spine, elements, |spine| - 2);
    forall k {:trigger nodes'[spine'[k]]} {:trigger spine'[k] in nodes'} | 0 <= k < |spine'|
      ensures spine'[k] in nodes'
      ensures nodes'[spine'[k]] == Node(SuccessorAt(spine', k), PredecessorAt(spine', k), elements'[k])
    {
      At(nodes, spine, elements, k);
    }
    forall j | j in nodes' ensures j in spine' {
      assert j in nodes && j != t;
      var k :| 0 <= k < |spine| && spine[k] == j;
      assert spine'[k] == j;
    }
  }

  /** `pop_front` on a chain of two or more: the old head leaves the arena
      and its successor, whose back-pointer is cleared, becomes the head. */
  lemma {:induction false} DropFirstLinks<T>(nodes: map<nat, Node<T>>, spine: seq<nat>, elements: seq<T>)
    requires Chain(nodes, spine, elements) && |spine| >= 2
    ensures var h, n := spine[0], spine[1];
            Chain((nodes - {h})[n := nodes[n].(prev := None)], spine[1..], elements[1..])
  {
    var h, n := spine[0], spine[1];
    var nodes', spine', elements' := (nodes - {h})[n := nodes[n].(prev := None)], spine[1..], elements[1..];
    At(nodes, spine, elements, 1);
    forall k {:trigger nodes'[spine'[k]]} {:trigger spine'[k] in nodes'} | 0 <= k < |spine'|
      ensures spine'[k] in nodes'
      ensures nodes'[spine'[k]] == Node(SuccessorAt(spine', k), PredecessorAt(spine', k), elements'[k])
    {
      At(nodes, spine, elements, k + 1);
      assert spine'[k] == spine[k + 1] && elements'[k] == elements[k + 1];
      assert SuccessorAt(spine', k) == SuccessorAt(spine, k + 1);
      assert PredecessorAt(spine', k) == if k == 0 then None else PredecessorAt(spine, k + 1);
      assert spine'[k] != h;
    }
    forall k, l | 0 <= k < l < |spine'| ensures spine'[k] != spine'[l] {
      assert spine'[k] == spine[k + 1] && spine'[l] == spine[l + 1];
    }
    forall j | j in nodes' ensures j in spine' {
      assert j in nodes && j != h;
      var k :| 0 <= k < |spine| && spine[k] == j;
      assert spine'[k - 1] == j;
    }
  }

  /** Removing the only node of a one-node chain leaves an empty arena. */
  lemma DropOnlyLinks<T>(nodes: map<nat, Node<T>>, spine: seq<nat>, elements: seq<T>)
    requires Chain(nodes, spine, elements) && |spine| == 1
    ensures Chain(nodes - {spine[0]}, [], [])
    ensures nodes - {spine[0]} == map[]
  {
    forall j | j in nodes ensures j == spine[0] {
      assert j in spine;
    }
  }

  /** Overwriting the element of node `k` changes that one element of the
      chain and keeps every link. */
  lemma {:induction false} SetElementLinks<T>(nodes: map<nat, Node<T>>, spine: seq<nat>, elements: seq<T>, k: nat, x: T)
    requires Chain(nodes, spine, elements) && k < |spine|
    ensures Chain(nodes[spine[k] := nodes[spine[k]].(element := x)], spine, elements[k := x])
  {
    var nodes' := nodes[spine[k] := nodes[spine[k]].(element := x)];
    At(nodes, spine, elements, k);
    forall m {:trigger nodes'[spine[m]]} {:trigger spine[m] in nodes'} | 0 <= m < |spine|
      ensures spine[m] in nodes'
      ensures nodes'[spine[m]] == Node(SuccessorAt(spine, m), PredecessorAt(spine, m), elements[k := x][m])
    {
      At(nodes, spine, elements, m);
    }
  }
}
