# A verified model of `LinkedList<T>`

This project models the generic doubly linked list of `rust-collections`
(`src/data_structures/linked_list.rs`): its nodes, the list with its owning
`head` link, raw `tail` pointer and `length` counter, the consuming
iterator `IntoIter` and the borrowing iterator `Iter`.

The heap is an arena. A list's `nodes` field maps indices to nodes; a node's
`next` and `prev` are optional indices standing for the owning box and the
raw back-pointer, and `None` stands for a null pointer. Boxing a node takes
the next unused index, `nextFree`, and dropping a box removes its index.
Each list also carries two ghost sequences: `Spine`, the indices of its
chain from front to back, and `Contents`, the elements they hold.
`LinkedList.Valid()` ties the fields to them: the arena is exactly one
well-linked chain, `head` and `tail` are its ends, and `length` counts it.
Every mutating operation preserves `Valid()` and states its effect on
`Contents` (`s + [x]`, `[x] + s`, `s[..|s|-1]`, `s[1..]`, `s[k := x]`).

Modules:

- `Arena` (`arena.dfy`): nodes, and the chain predicates `Linked` and
  `Chain`. It has the forward and backward walks along the links with the
  lemmas that they retrace the chain. It also has the lemmas that
  appending, prepending, unlinking an end or overwriting an element turns
  a chain into a chain.
- `LinkedLists` (`linked_list.dfy`): the classes `LinkedList`, `IntoIter`
  and `Iter`, imperative as in the source. The invariant lemmas are stated
  over the field values, one per operation.
- `Clients` (`clients.dfy`): the scenarios of `tests/linked_list.rs`, and
  the general laws they are instances of. The list is a queue when pushed
  at the back and popped at the front, and a stack when popped at the end
  it was pushed at. Both iterators visit the contents in order and in
  reverse.

## Model

| member | source | states |
|---|---|---|
| LinkedLists.LinkedList.Link | src/data_structures/linked_list.rs:71-74 | the successor's back-pointer is set to the node and the node's forward link to the successor; no other node changes |
| LinkedLists.LinkedList.TakeNext | src/data_structures/linked_list.rs:77-81 | returns the old forward link, clears it, and clears the back-pointer of the node it detached (if any); no other node changes |
| LinkedLists.LinkedList.PushBackNode | src/data_structures/linked_list.rs:95-108 | the invariant is kept; the contents become `s + [x]` and `length` grows by one; on an empty list the new node is both head and tail |
| LinkedLists.LinkedList.PushFrontNode | src/data_structures/linked_list.rs:112-125 | the invariant is kept; the contents become `[x] + s` and `length` grows by one; on an empty list the new node is both head and tail |
| LinkedLists.LinkedList.PopBackNode | src/data_structures/linked_list.rs:130-146 | on an empty list it returns `None` and the list stays empty; otherwise it returns the last element, leaves `s[..|s|-1]`, decrements `length` and keeps the invariant (so the predecessor is the tail, with no forward link, and one remaining node empties the head too) |
| LinkedLists.LinkedList.UnlinkTail | src/data_structures/linked_list.rs:132-145 | the closure run on the taken tail: `length` drops by one and the tail's element is returned; without a predecessor the node leaves the arena and the head is cleared; otherwise the predecessor becomes the tail with its forward link cleared, and the old tail leaves the arena |
| LinkedLists.LinkedList.PopFrontNode | src/data_structures/linked_list.rs:151-162 | on an empty list it returns `None` and the list stays empty; otherwise it returns the first element, leaves `s[1..]`, decrements `length` and keeps the invariant (the new head has no back-pointer, and removing the last node clears the tail) |
| LinkedLists.LinkedList.constructor | src/data_structures/linked_list.rs:167-173 | an empty, valid list: no head, no tail, length zero, empty arena |
| LinkedLists.LinkedList.Push | src/data_structures/linked_list.rs:176-178 | as `push_back`: contents `s + [x]`, `length` plus one, `Back()` is `x` |
| LinkedLists.LinkedList.Pop | src/data_structures/linked_list.rs:183-185 | as `pop_back` |
| LinkedLists.LinkedList.PushBack | src/data_structures/linked_list.rs:188-190 | contents `s + [x]`, `length` plus one, `Back()` is `x`, head equals tail when the list was empty |
| LinkedLists.LinkedList.PopBack | src/data_structures/linked_list.rs:195-197 | `None` on an empty list; otherwise the last element, leaving `s[..|s|-1]` and `length` minus one |
| LinkedLists.LinkedList.PushFront | src/data_structures/linked_list.rs:200-202 | contents `[x] + s`, `length` plus one, `Front()` is `x`, head equals tail when the list was empty |
| LinkedLists.LinkedList.PopFront | src/data_structures/linked_list.rs:207-209 | `None` on an empty list; otherwise the first element, leaving `s[1..]` and `length` minus one |
| LinkedLists.LinkedList.Length | src/data_structures/linked_list.rs:216-218 | the stored counter equals the number of elements held |
| LinkedLists.LinkedList.IsEmpty | src/data_structures/linked_list.rs:221-223 | true exactly when the list holds no elements, and exactly when `Length()` is zero |
| LinkedLists.LinkedList.Clear | src/data_structures/linked_list.rs:230-234 | the pop loop terminates (measure `length`) and leaves the state `new` builds: no head, no tail, length zero, empty arena, empty contents |
| LinkedLists.LinkedList.Front | src/data_structures/linked_list.rs:239-241 | `None` exactly when the list is empty, otherwise the first element |
| LinkedLists.LinkedList.Back | src/data_structures/linked_list.rs:246-248 | `None` exactly when the list is empty, otherwise the last element |
| LinkedLists.LinkedList.FrontMut | src/data_structures/linked_list.rs:253-255 | a reference exists exactly when the list is non-empty; writing through it changes only position 0 of the contents and keeps the invariant |
| LinkedLists.LinkedList.BackMut | src/data_structures/linked_list.rs:260-262 | a reference exists exactly when the list is non-empty; writing through it changes only the last position and keeps the invariant |
| LinkedLists.LinkedList.Iter | src/data_structures/linked_list.rs:265-271 | a fresh borrowing iterator over this list, cursors at both ends, count equal to the length |
| LinkedLists.Representation | src/data_structures/linked_list.rs:84-88 | for every valid list: length zero iff no head iff no tail; the head has no back-pointer and the tail no forward link; `length` forward links from the head retrace the chain, and `length` back-pointers from the tail retrace it in reverse |
| LinkedLists.BackView | src/data_structures/linked_list.rs:132-143 | on a valid non-empty list the tail is the last node and holds the last element; with no back-pointer it is also the head (one node); otherwise its predecessor is a distinct node whose forward link is the tail |
| LinkedLists.FrontView | src/data_structures/linked_list.rs:152-158 | on a valid non-empty list the head is the first node and holds the first element; with no forward link it is also the tail (one node); otherwise its successor is a distinct node whose back-pointer is the head |
| LinkedLists.PushBackKeeps | src/data_structures/linked_list.rs:95-108 | the field updates of `push_back_node` map a valid state with contents `s` to a valid state with contents `s + [x]` |
| LinkedLists.PushFrontKeeps | src/data_structures/linked_list.rs:112-125 | the field updates of `push_front_node` map a valid state with contents `s` to a valid state with contents `[x] + s` |
| LinkedLists.PopBackKeeps | src/data_structures/linked_list.rs:130-146 | the field updates of `pop_back_node`, in both the one-node and the many-node case, give a valid state with contents `s[..|s|-1]` |
| LinkedLists.PopFrontKeeps | src/data_structures/linked_list.rs:151-162 | the field updates of `pop_front_node`, in both cases, give a valid state with contents `s[1..]` |
| LinkedLists.SetElementKeeps | src/data_structures/linked_list.rs:253-262 | overwriting the element of the node at position `k` gives a valid state with contents `s[k := x]` |
| LinkedLists.IntoIter.Next | src/data_structures/linked_list.rs:292-294 | yields the first remaining element and removes it, or `None` when drained |
| LinkedLists.IntoIter.SizeHint | src/data_structures/linked_list.rs:297-299 | both bounds equal the number of elements left |
| LinkedLists.IntoIter.NextBack | src/data_structures/linked_list.rs:304-306 | yields the last remaining element and removes it, or `None` when drained |
| LinkedLists.Iter.Next | src/data_structures/linked_list.rs:336-342 | yields the element `front` positions in and advances, or `None` once the front cursor has run off the end; the back cursor is untouched |
| LinkedLists.Iter.SizeHint | src/data_structures/linked_list.rs:345-347 | both bounds are the number of positions not yet yielded from either end |
| LinkedLists.Iter.NextBack | src/data_structures/linked_list.rs:352-358 | yields the element `back` positions from the end and steps back, or `None` once the back cursor has run off the front; the front cursor is untouched |
| Arena.ForwardFrom | src/data_structures/linked_list.rs:51-55 | following forward links from position `k` of a chain visits exactly the rest of the chain |
| Arena.ForwardWalk | src/data_structures/linked_list.rs:51-55 | following forward links from the first node visits the whole chain, and one more step finds a null link |
| Arena.BackwardFrom | src/data_structures/linked_list.rs:51-55 | following back-pointers from position `k` of a chain visits the first `k + 1` nodes in reverse |
| Arena.BackwardWalk | src/data_structures/linked_list.rs:51-55 | following back-pointers from the last node visits the whole chain in reverse, and one more step finds a null pointer |
| Arena.Boundaries | src/data_structures/linked_list.rs:84-88 | a chain is empty iff it has no first node iff it has no last node iff the arena is empty; its first node has no back-pointer and its last node no forward link |
| Arena.AppendLinks | src/data_structures/linked_list.rs:71-74 | linking a fresh node after the last node of a chain gives a chain one longer at the end |
| Arena.PrependLinks | src/data_structures/linked_list.rs:71-74 | linking a fresh node before the first node of a chain gives a chain one longer at the front |
| Arena.DropLastLinks | src/data_structures/linked_list.rs:140-143 | removing the last node and clearing its predecessor's forward link leaves a chain without the last position |
| Arena.DropFirstLinks | src/data_structures/linked_list.rs:77-81 | removing the first node and clearing its successor's back-pointer leaves a chain without the first position |
| Arena.DropOnlyLinks | src/data_structures/linked_list.rs:137 | removing the only node of a chain leaves the empty arena |
| Arena.SetElementLinks | src/data_structures/linked_list.rs:253-262 | overwriting one node's element keeps the chain and changes only that position of the contents |
| Clients.PushBackPopFront | src/data_structures/linked_list.rs:188-209 | pushing `xs` at the back and popping from the front until `None` yields exactly `xs` |
| Clients.PushBackPopBack | src/data_structures/linked_list.rs:188-197 | pushing `xs` at the back and popping from the back until `None` yields `xs` reversed |
| Clients.PushFrontPopFront | src/data_structures/linked_list.rs:200-209 | pushing `xs` at the front and popping from the front until `None` yields `xs` reversed |
| Clients.IntoIterForward | src/data_structures/linked_list.rs:288-294 | draining a list of `xs` with `next` until `None` yields exactly `xs` |
| Clients.IntoIterBackward | src/data_structures/linked_list.rs:302-306 | draining a list of `xs` with `next_back` until `None` yields `xs` reversed |
| Clients.IterForward | src/data_structures/linked_list.rs:332-342 | driving `Iter::next` alone over any valid list until `None` yields its contents in order, and leaves the list unchanged |
| Clients.IterBackward | src/data_structures/linked_list.rs:350-358 | driving `Iter::next_back` alone over any valid list until `None` yields its contents reversed, and leaves the list unchanged |
| Clients.InsertionScenario | tests/linked_list.rs:4-20 | a new list is empty with length 0; after two pushes it is non-empty with length 2; `pop` returns the last element and length 1 remains; after `clear` the length is 0 |
| Clients.IntoIterScenario | tests/linked_list.rs:22-33 | `into_iter` over a list of 10, 20, 30 yields 10, 20, 30, then `None` |
| Clients.IntoIterBackScenario | tests/linked_list.rs:35-46 | `next_back` on the same yields 30, 20, 10, then `None` |
| Clients.IterYields | tests/linked_list.rs:57-61 | over any valid list holding 10, 20, 30, four calls of `Iter::next` give 10, 20, 30, `None` |
| Clients.IterYieldsBack | tests/linked_list.rs:73-77 | over any valid list holding 10, 20, 30, four calls of `Iter::next_back` give 30, 20, 10, `None` |
| Clients.IterScenario | tests/linked_list.rs:48-62 | `iter` on an empty list yields `None`; on 10, 20, 30 it yields them in order, then `None` |
| Clients.IterBackScenario | tests/linked_list.rs:64-78 | `next_back` on an empty list's iterator yields `None`; on 10, 20, 30 it yields them in reverse, then `None` |

## Left out

- Raw pointers, `unsafe` dereferences and the `Raw` helpers (`none`, `some`, `take`, `as_ref`, `as_mut`) become optional arena indices. Boxes become arena entries, and `mem::replace` becomes plain field assignment.
- `Node::new` is the function `Arena.Detached`, a node with no links. It has no contract of its own, and `PushBackNode` and `PushFrontNode` require a detached node.
- Freeing memory and `Drop` are not modelled. `drop` only calls `clear`, and `Clear` is modelled. Freed indices are never reused, so a cleared list keeps its `nextFree` counter while a new list starts at zero. No other field differs.
- Lifetimes and borrows are not modelled. `Iter` holds a reference to its list, and its methods require the list to be valid.
- `insert` and `contains` have no parameters and empty bodies in the source, so there is nothing to model. The methods listed only as comments after `iter` do not exist in the source.
- `Default` and `IntoIterator for &LinkedList` are not modelled; they are trait glue that calls `new` and `iter`. `into_iter` is the `IntoIter` constructor.
- `LinkedLists.LinkedList.PushBackNode`: does not model a `usize` overflow of `length += 1`, because lengths are unbounded integers. The same holds for `PushFrontNode` and the methods that call them.
- `LinkedLists.Iter.Next`: requires that `len -= 1` does not underflow when a node remains. Driving the iterator from one end only always meets this. Mixing `next` and `next_back` after the cursors have crossed can underflow `len` in the source, and re-yield elements in a release build. The model does not capture either.
- `LinkedLists.Iter.NextBack`: carries the same precondition, for the same reason.
