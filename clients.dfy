/** Clients of the linked list: the scenarios its tests exercise, and the
    all-inputs laws they are instances of (a queue when pushed at the back
    and popped at the front, a stack when popped at the back, and both
    iterators walking the contents in order and in reverse). */
module Clients {
  import opened Arena
  import opened LinkedLists

  /** A fresh list holding `xs`, built by `push_back` in order. */
  method FromSeq<T>(xs: seq<T>) returns (list: LinkedList<T>)
    ensures fresh(list) && list.Valid() && list.Contents == xs
  {
    list := new LinkedList();
    for i := 0 to |xs|
      invariant list.Valid() && list.Contents == xs[..i]
    {
      list.PushBack(xs[i]);
      assert xs[..i + 1] == xs[..i] + [xs[i]];
    }
    assert xs[..|xs|] == xs;
  }

  /** A fresh list holding `xs` reversed, built by `push_front` in order. */
  method FromSeqFront<T>(xs: seq<T>) returns (list: LinkedList<T>)
    ensures fresh(list) && list.Valid() && list.Contents == Reverse(xs)
  {
    list := new LinkedList();
    for i := 0 to |xs|
      invariant list.Valid() && list.Contents == Reverse(xs[..i])
    {
      list.PushFront(xs[i]);
      assert xs[..i + 1] == xs[..i] + [xs[i]];
      ReverseAppend(xs[..i], xs[i]);
    }
    assert xs[..|xs|] == xs;
  }

  /** Pops from the front until `None`, collecting what comes out. */
  method DrainFront<T>(list: LinkedList<T>) returns (ys: seq<T>)
    requires list.Valid()
    modifies list
    ensures list.Valid() && list.Contents == [] && ys == old(list.Contents)
  {
    ys := [];
    var r := list.PopFront();
    while r.Some?
      invariant list.Valid() && (r.None? ==> list.Contents == [])
      invariant ys + (if r.Some? then [r.value] else []) + list.Contents == old(list.Contents)
      decreases |list.Contents| + (if r.Some? then 1 else 0)
    {
      ys := ys + [r.value];
      r := list.PopFront();
    }
  }

  /** Pops from the back until `None`, collecting what comes out. */
  method DrainBack<T>(list: LinkedList<T>) returns (ys: seq<T>)
    requires list.Valid()
    modifies list
    ensures list.Valid() && list.Contents == [] && ys == Reverse(old(list.Contents))
  {
    ys := [];
    var r := list.PopBack();
    while r.Some?
      invariant list.Valid() && (r.None? ==> list.Contents == [])
      invariant list.Contents + (if r.Some? then [r.value] else []) + Reverse(ys) == old(list.Contents)
      decreases |list.Contents| + (if r.Some? then 1 else 0)
    {
      ReverseAppend(ys, r.value);
      ys := ys + [r.value];
      r := list.PopBack();
    }
    assert Reverse(ys) == old(list.Contents);
    ReverseReverse(ys);
  }

  /** Pushing at the back and popping at the front is first in, first out. */
  method PushBackPopFront<T>(xs: seq<T>) returns (ys: seq<T>)
    ensures ys == xs
  {
    var list := FromSeq(xs);
    ys := DrainFront(list);
  }

  /** Pushing at the back and popping at the back is last in, first out. */
  method PushBackPopBack<T>(xs: seq<T>) returns (ys: seq<T>)
    ensures ys == Reverse(xs)
  {
    var list := FromSeq(xs);
    ys := DrainBack(list);
  }

  /** Pushing at the front and popping at the front is last in, first out. */
  method PushFrontPopFront<T>(xs: seq<T>) returns (ys: seq<T>)
    ensures ys == Reverse(xs)
  {
    var list := FromSeqFront(xs);
    ys := DrainFront(list);
  }

  /** Consuming a list with `IntoIter::next` yields its contents in order. */
  method IntoIterForward<T>(xs: seq<T>) returns (ys: seq<T>)
    ensures ys == xs
  {
    var list := FromSeq(xs);
    var it := new IntoIter(list);
    ys := [];
    var r := it.Next();
    while r.Some?
      invariant it.Valid() && it.list == list && (r.None? ==> list.Contents == [])
      invariant ys + (if r.Some? then [r.value] else []) + list.Contents == xs
      decreases |list.Contents| + (if r.Some? then 1 else 0)
    {
      ys := ys + [r.value];
      r := it.Next();
    }
  }

  /** Consuming a list with `IntoIter::next_back` yields its contents in
      reverse. */
  method IntoIterBackward<T>(xs: seq<T>) returns (ys: seq<T>)
    ensures ys == Reverse(xs)
  {
    var list := FromSeq(xs);
    var it := new IntoIter(list);
    ys := [];
    var r := it.NextBack();
    while r.Some?
      invariant it.Valid() && it.list == list && (r.None? ==> list.Contents == [])
      invariant list.Contents + (if r.Some? then [r.value] else []) + Reverse(ys) == xs
      decreases |list.Contents| + (if r.Some? then 1 else 0)
    {
      ReverseAppend(ys, r.value);
      ys := ys + [r.value];
      r := it.NextBack();
    }
    assert Reverse(ys) == xs;
    ReverseReverse(ys);
  }

  /** Borrowing iteration with `Iter::next` visits every element in order
      and leaves the list as it was. */
  method IterForward<T>(list: LinkedList<T>) returns (ys: seq<T>)
    requires list.Valid()
    ensures ys == list.Contents
  {
    var it := list.Iter();
    ys := [];
    var r := it.Next();
    while r.Some?
      invariant it.Valid() && it.list == list && it.back == 0
      invariant r.Some? ==> 0 < it.front && ys + [r.value] == list.Contents[..it.front]
      invariant r.None? ==> ys == list.Contents[..it.front] && it.front == |list.Contents|
      decreases |list.Contents| - it.front + (if r.Some? then 1 else 0)
    {
      ys := ys + [r.value];
      r := it.Next();
      if r.Some? {
        assert list.Contents[..it.front] == list.Contents[..it.front - 1] + [r.value];
      }
    }
    assert list.Contents[..|list.Contents|] == list.Contents;
  }

  /** Borrowing iteration with `Iter::next_back` visits every element in
      reverse and leaves the list as it was. */
  method IterBackward<T>(list: LinkedList<T>) returns (ys: seq<T>)
    requires list.Valid()
    ensures ys == Reverse(list.Contents)
  {
    var it := list.Iter();
    ys := [];
    var r := it.NextBack();
    while r.Some?
      invariant it.Valid() && it.list == list && it.front == 0
      invariant |ys| + (if r.Some? then 1 else 0) == it.back
      invariant forall k :: 0 <= k < |ys| ==> ys[k] == list.Contents[|list.Contents| - 1 - k]
      invariant r.Some? ==> r.value == list.Contents[|list.Contents| - it.back]
      invariant r.None? ==> it.back == |list.Contents|
      decreases |list.Contents| - it.back + (if r.Some? then 1 else 0)
    {
      ys := ys + [r.value];
      r := it.NextBack();
    }
    ReverseLength(list.Contents);
    forall k | 0 <= k < |ys|
      ensures ys[k] == Reverse(list.Contents)[k]
    {
      ReverseAt(list.Contents, k);
    }
  }

  /** `linked_list_insertion`: emptiness and length through a push, a pop
      and a clear. */
  method InsertionScenario() returns (emptyAtStart: bool, emptyAfterPush: bool, lengths: seq<nat>, popped: Option<int>)
    ensures emptyAtStart && !emptyAfterPush && lengths == [0, 2, 1, 0] && popped == Some(1)
  {
    var list := new LinkedList<int>();
    emptyAtStart := list.IsEmpty();
    lengths := [list.Length()];
    list.PushBack(0);
    list.PushBack(1);
    emptyAfterPush := list.IsEmpty();
    lengths := lengths + [list.Length()];
    popped := list.Pop();
    lengths := lengths + [list.Length()];
    list.Clear();
    lengths := lengths + [list.Length()];
  }

  /** `into_iter`: the values pushed come out of the owning iterator from
      the front, and then `None`. */
  method IntoIterScenario() returns (a: Option<int>, b: Option<int>, c: Option<int>, d: Option<int>)
    ensures a == Some(10) && b == Some(20) && c == Some(30) && d == None
  {
    var list := new LinkedList<int>();
    list.PushBack(10);
    list.PushBack(20);
    list.PushBack(30);
    assert list.Contents == [10, 20, 30];
    var it := new IntoIter(list);
    a := it.Next();
    b := it.Next();
    c := it.Next();
    d := it.Next();
  }

  /** `into_iter_back`: the same values come out from the back, and then
      `None`. */
  method IntoIterBackScenario() returns (a: Option<int>, b: Option<int>, c: Option<int>, d: Option<int>)
    ensures a == Some(30) && b == Some(20) && c == Some(10) && d == None
  {
    var list := new LinkedList<int>();
    list.PushBack(10);
    list.PushBack(20);
    list.PushBack(30);
    assert list.Contents == [10, 20, 30];
    var it := new IntoIter(list);
    a := it.NextBack();
    b := it.NextBack();
    c := it.NextBack();
    d := it.NextBack();
  }

  /** Drives a fresh `Iter` over a list of 10, 20, 30 with `next` four
      times. */
  method IterYields(list: LinkedList<int>) returns (a: Option<int>, b: Option<int>, c: Option<int>, d: Option<int>)
    requires list.Valid() && list.Contents == [10, 20, 30]
    ensures a == Some(10) && b == Some(20) && c == Some(30) && d == None
  {
    var it := list.Iter();
    a := it.Next();
    b := it.Next();
    c := it.Next();
    d := it.Next();
  }

  /** Drives a fresh `Iter` over a list of 10, 20, 30 with `next_back` four
      times. */
  method IterYieldsBack(list: LinkedList<int>) returns (a: Option<int>, b: Option<int>, c: Option<int>, d: Option<int>)
    requires list.Valid() && list.Contents == [10, 20, 30]
    ensures a == Some(30) && b == Some(20) && c == Some(10) && d == None
  {
    var it := list.Iter();
    a := it.NextBack();
    b := it.NextBack();
    c := it.NextBack();
    d := it.NextBack();
  }

  /** `iter`: a borrowing iterator over the empty list yields `None`; over a
      list built by `push` it yields the values from the front, and then
      `None`. */
  method IterScenario() returns (e: Option<int>, a: Option<int>, b: Option<int>, c: Option<int>, d: Option<int>)
    ensures e == None && a == Some(10) && b == Some(20) && c == Some(30) && d == None
  {
    var list := new LinkedList<int>();
    var empty := list.Iter();
    e := empty.Next();
    list.Push(10);
    list.Push(20);
    list.Push(30);
    a, b, c, d := IterYields(list);
  }

  /** `iter_back`: the same from the back. */
  method IterBackScenario() returns (e: Option<int>, a: Option<int>, b: Option<int>, c: Option<int>, d: Option<int>)
    ensures e == None && a == Some(30) && b == Some(20) && c == Some(10) && d == None
  {
    var list := new LinkedList<int>();
    var empty := list.Iter();
    e := empty.NextBack();
    list.Push(10);
    list.Push(20);
    list.Push(30);
    a, b, c, d := IterYieldsBack(list);
  }
}
