# RaanaSDK data structures and protocols in Dafny

RaanaSDK adapts the Rust `kernel` crate to run over C shims. Most of it is glue, but several data
structures and protocols state strong invariants in comments and never check them. This project
models those and proves the invariants, for every input, every run and every interleaving.

`dafny verify dfyconfig.toml` checks everything. There is one module per file.

| file | models |
|---|---|
| `Common.dfy` | machine limits, bytes, `Option`, `Result` |
| `IntrusiveList.dfy`, `ListCursor.dfy`, `ListRuns.dfy` | the intrusive cyclic list, its iterator and cursor, and runs over many lists |
| `ListArcProtocol.dfy` | the "one `ListArc` per object and ID" protocol over atomic steps |
| `RbTree.dfy`, `RbTreeMap.dfy`, `RbTreeCursor.dfy`, `RbTreeRuns.dfy` | the client logic of the red-black tree |
| `IdPool.dfy` | the ID pool over a bitmap, with stale resizers |
| `ReallocStack.dfy` | the realloc contract through allocator, call wrapper and C fallbacks |
| `KVec.dfy`, `KVecIter.dfy` | the vector, its growth in place or by moving, `retain`, and the owning iterator |
| `CStringFmt.dfy`, `BStrDebug.dfy` | the two-pass string formatter, the escaping printer |
| `KUnitRegistry.dfy` | the registry of Rust test cases |
| `Generics.dfy`, `GenericsStreams.dfy` | the token loop that splits generics, and what it makes of streams of every form |
| `InitArray.dfy` | in-place array initialisation with rollback |

## How the model is built

- Where the source changes things in place the model does too: classes with fields, arrays, loops
  with invariants. List items are heap objects with `next` and `prev`. Each such method is proved
  against a function on sequences or maps.
- Code that is not in the repository is a parameter. Rebalancing is any function that keeps the
  in-order node sequence; the kernel's allocators are any function within their documented
  contract; an allocation's success is an argument.
- Concurrency is a step relation. Each action is one atomic memory access, so every interleaving
  is a run.
- A slot of a buffer is `Uninit` once its value has been moved out or dropped, and only `Init` slots
  can be read or dropped. A double drop would not verify. A block of memory is known by the object at
  which it was first placed, and stays the same block when it is resized in place.
- Elements of size zero have slots, `usize::MAX` of them, but no block; all values of such a type are
  equal.
- Tree keys are integers. A tree and a probe involve finitely many keys, and every finite total
  order embeds in the integers.
- Widths are those of a 64-bit machine, and pages have 4096 bytes.

## Where code and documentation differ

- `IdPool::shrink` is documented as shrinking. It compares only the up-to-date request with the
  resizer, so a resizer left over from a larger pool enlarges it. `StaleShrinkEnlarges` is a run that
  does so and `ShrinkEnlargesIff` says exactly when.
- `CString::try_from_fmt` promises one final NUL and no other. Positions saturate at the last
  address, so a buffer that ends exactly there would accept a second pass that is too long and lose
  the NUL. `FaithfulIff` says that the promise holds if and only if the buffer ends below it. Kernel
  allocators do not return a buffer that ends at the last address, so callers do not meet the case.
- `parse_generics` promises the generics with bounds but without default values as impl generics, and
  the bare names as type generics. `ParsesGenerics` gives both outputs exactly: the impl generics have
  every comma that ends a default twice, and the type generics lack that comma and the name after it.
  So both promises hold if and only if no depth-one comma follows a depth-one `=`, that is, if at most
  the last parameter has a default. `DefaultThenParameter` shows the failure on `<T = u8, U>`, which
  gives `T , , U` and `T`.
- `parse_generics` finds the end of the generics by counting `<` and `>` tokens, whatever they mean.
  `GenericsFoundIff` says that the declared generics and the rest are right if and only if the declaration
  closes by that count. `ArrowClosesGenerics` shows that `<F: Fn() -> u8>` ends at the arrow.
- `realloc` to size zero is documented to free. `Vmalloc` and `KVmalloc` look at the alignment first and
  refuse one above a page even then. `Realloc` says exactly when each request succeeds.
- `find_vm_area` is optional. Without it and without a native reallocator, every attempt to resize a live
  vmalloc block to another size than zero fails (`VmBlockStuck`).
- `realloc` is documented to return a pointer aligned to the new layout. New blocks are, because sizes are
  padded; a block resized in place stays where it is. `StaysAligned` says that a client that never raises
  the alignment of a block has only aligned blocks, and `RaisedAlignment` is a pair of calls that raises it
  and gets a block that is not.
- `insert_within_capacity` is documented to panic on a bad index; the code returns an error, and so
  does the model.

## Model

| member | source | states |
|---|---|---|
| `IntrusiveList.List.InsertInner` | rust/src/list.rs:260-302 | the new item stands just before `next` in the cycle, the ring stays well formed, and `first` moves only if the list was empty |
| `IntrusiveList.List.RingAfterInsert` | rust/src/list.rs:281-297 | the four stores of an insertion give a ring with inverse next and prev, for rings of any length |
| `IntrusiveList.List.PushBack` | rust/src/list.rs:305-310 | appends on the item sequence |
| `IntrusiveList.List.PushFront` | rust/src/list.rs:313-321 | prepends on the item sequence, although the splice is the same as for the back |
| `IntrusiveList.RotateRing` | rust/src/list.rs:313-321 | re-reading a ring from its last element is a ring, which is why moving `first` alone prepends |
| `IntrusiveList.List.PopBack` | rust/src/list.rs:324-333 | takes the last item, unlinked, or none exactly if empty |
| `IntrusiveList.List.PopFront` | rust/src/list.rs:336-343 | takes the first item, unlinked, or none exactly if empty |
| `IntrusiveList.List.Remove` | rust/src/list.rs:353-387 | removes and returns the item exactly if it is in the list, and otherwise changes nothing |
| `IntrusiveList.List.RemoveInternalInner` | rust/src/list.rs:408-455 | the sequence loses exactly that item, its links become null, and `first` is right for one, two or more items |
| `IntrusiveList.List.RingAfterRemove` | rust/src/list.rs:420-434 | the stores of a removal leave a ring in all three aliasing cases |
| `IntrusiveList.List.PushAllBack` | rust/src/list.rs:461-487 | the contents are concatenated and the other list is empty, both well formed |
| `IntrusiveList.List.Splice` | rust/src/list.rs:465-483 | four stores at the ends of two disjoint rings make one ring |
| `IntrusiveList.List.DropAll` | rust/src/list.rs:525-531 | every item is dropped once, front to back, and left unlinked |
| `ListCursor.Iter.Next` | rust/src/list.rs:550-578 | yields the next item of the sequence, and none for ever after the last |
| `ListCursor.Collect` | rust/src/list.rs:508-516 | an exhausted iterator has yielded the list once, in order |
| `ListCursor.Cursor.PrevPtr` | rust/src/list.rs:729-747 | the last element of the part before the cursor, null if that is empty, on empty lists too |
| `ListCursor.Cursor.MoveNext` | rust/src/list.rs:785-801 | one element passes from the part after to the part before, unless there is none |
| `ListCursor.Cursor.MovePrev` | rust/src/list.rs:807-815 | one element passes from the part before to the part after, unless there is none |
| `ListCursor.Cursor.InsertInner` | rust/src/list.rs:818-834 | the item is inserted at the cursor's index, with `first` right at the front, at the end and in an empty list |
| `ListCursor.Cursor.InsertNext` | rust/src/list.rs:847-849 | prepends to the part after the cursor only |
| `ListCursor.Cursor.InsertPrev` | rust/src/list.rs:854-856 | appends to the part before the cursor only |
| `ListCursor.Cursor.RemovePeeked` | rust/src/list.rs:884-894 | removes the chosen neighbour and leaves the other part as it is |
| `ListCursor.Cursor.RemoveNext` | rust/src/list.rs:859-861 | takes the first element after the cursor, or none exactly if there is none |
| `ListCursor.Cursor.RemovePrev` | rust/src/list.rs:864-866 | takes the last element before the cursor, or none exactly if there is none |
| `ListRuns.ApplyKeepsSeparate` | rust/src/list.rs:28-40 | no operation puts an item in two places, invents one, or loses any but the one it returns |
| `ListRuns.Run` | rust/src/list.rs:260-487 | any run of operations over any number of lists returns and leaves what the same run on sequences does; all rings stay well formed and links are null exactly outside the lists |
| `ListRuns.RunOfOne` | rust/src/list.rs:260-487 | on sequences, a run of one operation is that operation |
| `ListRuns.RunInParts` | rust/src/list.rs:260-487 | on sequences, a run in two parts is the second after the first |
| `ListRuns.PushThenPop` | rust/src/list.rs:305-343 | what is pushed at one end is popped at that end, which restores all contents |
| `ListRuns.PopEnds` | rust/src/list.rs:324-343 | pops take the first and the last item, and none from an empty list |
| `ListRuns.RemoveFromBetween` | rust/src/list.rs:353-387 | a removal joins what was left and right of the item |
| `ListRuns.SpliceAppends` | rust/src/list.rs:461-487 | a splice appends the other list, empties it, and leaves all others alone |
| `ListArcProtocol.ActionKeeps` | rust/src/list/arc.rs:218-517 | every atomic action of every owner keeps the protocol's invariant, also a bare call of `try_new_list_arc` and an `into_raw` whose pointer becomes a plain `Arc` |
| `ListArcProtocol.RunSafe` | rust/src/list/arc.rs:143-153 | in every state of every interleaving each object has at most one `ListArc` or list membership per ID, a false tracker means none, the count equals the outstanding references, and memory is freed exactly when no handle is left |
| `ListArcProtocol.AttestedIff` | rust/src/list/arc.rs:145-149 | exactly which actions can leave a tracker true without a `ListArc`, which the documentation allows: a winning bare `try_new_list_arc`, and turning the raw pointer of a tracked `ListArc` into an `Arc` |
| `ListArcProtocol.UnspoiltRun` | rust/src/list/arc.rs:145-149 | in every run without those two, a true tracker means that a `ListArc` is held or in transit |
| `ListArcProtocol.BareCallSpoils` | rust/src/list/arc.rs:506-517 | a run that ends with a true tracker and no `ListArc` |
| `ListArcProtocol.FallbackNeverDuplicates` | rust/src/list/arc.rs:309-317 | losing the exchange and lowering the count never frees the object, and reaches a `UniqueArc` only if it was the sole handle, so the resulting `ListArc` is the only one |
| `ListArcProtocol.LastOwnerIsOnly` | rust/src/sync/arc.rs:306-331 | the owner of the last unit of the count is the only handle of any kind |
| `ListArcProtocol.PairKeeps` | rust/src/list/arc.rs:247-271 | two ListArcs of different IDs from one `UniqueArc` keep the invariant |
| `ListArcProtocol.TryFromArc` | rust/src/list/arc.rs:276-287 | the `Arc` becomes the `ListArc` with the same count if the tracker was false, and otherwise nothing changes |
| `ListArcProtocol.TryFromArcBorrow` | rust/src/list/arc.rs:292-303 | a new `ListArc` with one more unit of the count if the tracker was false, and otherwise nothing changes |
| `ListArcProtocol.IntoArc` | rust/src/list/arc.rs:370-375 | the `ListArc` becomes an `Arc` and the tracker false |
| `ListArcProtocol.ArcRoundTrip` | rust/src/list/arc.rs:276-375 | `try_from_arc` and then `into_arc` restore the object |
| `ListArcProtocol.DropListArc` | rust/src/list/arc.rs:427-431 | dropping a `ListArc` clears the tracker, gives back a unit, and frees the object with the last one |
| `ListArcProtocol.FromUniqueArc` | rust/src/list/arc.rs:212-225 | a `UniqueArc` becomes the `ListArc` of any ID, or an `Arc` |
| `ListArcProtocol.PairFromUniqueArc` | rust/src/list/arc.rs:247-271 | or two ListArcs of different IDs with one more unit |
| `ListArcProtocol.DropUniqueArc` | rust/src/list/arc.rs:212-225 | or is dropped, which frees the object |
| `ListArcProtocol.CloneThenDrop` | rust/src/list/arc.rs:379-381 | a clone is one more owner, and dropping it restores the object |
| `ListArcProtocol.ListRoundTrip` | rust/src/list/arc.rs:347-366 | a list takes a `ListArc` and gives the same one back |
| `ListArcProtocol.UntoldActions` | rust/src/list/arc.rs:347-366 | what a bare `try_new_list_arc` and a raw pointer turned into an `Arc` change, and nothing else |
| `ListArcProtocol.ClaimGivenUp` | rust/src/list/arc.rs:370-375 | storing false when a `ListArc` ends cannot hide another one |
| `RbTreeMap.RBTree.FindEntry` | rust/src/rbtree.rs:320-371 | finds the node of the key, or an empty child field, with its parent, where linking the key keeps the order |
| `RbTreeMap.RBTree.Get` | rust/src/rbtree.rs:390-407 | the separate search loop agrees with the finite map, so with the insertion search |
| `RbTreeMap.RBTree.LinkAt` | rust/src/rbtree.rs:1183-1200 | linking a node into the empty field and any in-order-preserving rebalancing add exactly that entry |
| `RbTreeMap.RBTree.Insert` | rust/src/rbtree.rs:310-318 | the map maps the key to the new node; the previous node of that key, if any, is returned |
| `RbTree.ReplaceInOrder` | rust/src/rbtree.rs:1274-1293 | replacing a node changes its place in the order and no other |
| `RbTreeMap.RBTree.EntryInsert` | rust/src/rbtree.rs:374-379 | inserts exactly if the entry is vacant |
| `RbTreeMap.RBTree.EraseNode` | rust/src/rbtree.rs:1248-1261 | for every erasing rebalancing, exactly that node and entry go |
| `RbTreeMap.RBTree.Remove` | rust/src/rbtree.rs:417-426 | removes the entry of the key and returns its node, or does nothing |
| `RbTreeMap.RBTree.Update` | rust/src/rbtree.rs:410-412 | a store through `get_mut` changes the value of that key only and keeps the node |
| `RbTree.PlugInOrder` | rust/src/rbtree.rs:334-341 | what stands in a child field appears in the in-order sequence exactly between what is left and right of the field |
| `RbTree.ViewIs` | rust/src/rbtree.rs:182-186 | the map of a sorted node sequence is the only one with one entry per node |
| `RbTreeCursor.LowerBound` | rust/src/rbtree.rs:433-487 | the node with the least key not below the probe, none exactly if all are below, and `is_better_match` is never false |
| `RbTreeCursor.Move` | rust/src/rbtree.rs:842-849 | moves by one in key order, or the cursor is lost exactly at the end |
| `RbTreeCursor.RemoveCurrent` | rust/src/rbtree.rs:774-804 | removes the node; the cursor goes to the next one, else the previous, else is lost |
| `RbTreeCursor.RemoveNeighbor` | rust/src/rbtree.rs:816-832 | removes the neighbour if there is one and keeps the cursor's node |
| `RbTreeCursor.RemovalOrderIs` | rust/src/rbtree.rs:774-804 | repeated removal from position i meets i to n-1 ascending and then i-1 to 0 descending |
| `RbTreeCursor.RemoveAll` | rust/src/rbtree.rs:774-804 | repeated removal returns the nodes in that order, each once, and ends with an empty tree and no cursor |
| `RbTreeRuns.Run` | rust/src/rbtree.rs:310-426 | any run of insert, entry insert, remove, get and get_mut, with any rebalancing at each step, answers and ends as on a finite map from keys to nodes and values |
| `RbTreeRuns.ApplyMeans` | rust/src/rbtree.rs:310-426 | on the finite map, what each operation does to its key and that it does nothing to others |
| `RbTreeRuns.RunInParts` | rust/src/rbtree.rs:310-426 | a run in two parts is the second after the first |
| `IdPool.FindLastBit` | rust/src/bitmap.rs:450-458 | the last set bit, or the length if there is none |
| `IdPool.FindNextZeroBit` | rust/src/bitmap.rs:484-498 | the first clear bit from the start on, if any is in range |
| `IdPool.BitmapVec.CopyAndExtend` | rust/src/bitmap.rs:416-427 | the length stays and the set bits become those of the source that lie within it |
| `IdPool.BitmapVec.New` | rust/src/bitmap.rs:248-268 | inline sizes always succeed, sizes above the maximum never, and the bits are zero |
| `IdPool.IdPool.WithCapacity` | rust/src/id_pool.rs:114-118 | exactly when it succeeds; the capacity is what was asked but at least 64, with no ID taken |
| `IdPool.IdPool.Acquire` | rust/src/id_pool.rs:230-236 | takes the first free ID from the offset on and sets its bit |
| `IdPool.IdPool.Release` | rust/src/id_pool.rs:240-242 | clears the bit if it is in range |
| `IdPool.IdPool.Grow` | rust/src/id_pool.rs:212-222 | a resizer that is not larger is ignored, otherwise the bits are carried over |
| `IdPool.IdPool.Shrink` | rust/src/id_pool.rs:176-191 | the request is computed anew and the resizer used only if it is large enough |
| `IdPool.ShrinkRequestIff` | rust/src/id_pool.rs:152-172 | exactly when a shrink may be requested, and the size asked for |
| `IdPool.ShrinkKeepsIds` | rust/src/id_pool.rs:176-191 | applying any resizer, stale or not, loses no live ID |
| `IdPool.ShrinkEnlargesIff` | rust/src/id_pool.rs:185-187 | exactly when a shrink makes the pool larger, and when smaller |
| `IdPool.StaleShrinkEnlarges` | rust/src/id_pool.rs:185-187 | a run whose last step is a shrink that doubles the pool |
| `IdPool.StepOnIds` | rust/src/id_pool.rs:230-287 | an acquisition hands out the least free ID and never a live one, fails exactly if none is free, and resizing changes no live ID |
| `IdPool.RunSafe` | rust/src/id_pool.rs:16-20 | in every interleaving with stale resizers the set bits are the live IDs and the capacity stays in range |
| `IdPool.StaysLive` | rust/src/id_pool.rs:16-20 | an ID stays acquired through any resizing until it is released |
| `IdPool.NoDoubleHandout` | rust/src/id_pool.rs:16-20 | an ID is handed out twice only if it was released in between |
| `IdPool.GrowMakesRoom` | rust/src/id_pool.rs:37-43 | growing a full pool by its own request makes the first new ID available |
| `IdPool.GrowThenShrink` | rust/src/id_pool.rs:152-206 | a pool that grows by its own request and has its IDs in the lower half asks to shrink back to where it was |
| `IdPool.GrowsDouble` | rust/src/id_pool.rs:200-206 | n growths by own requests give 2 to the n times the capacity, refused exactly when that exceeds the maximum |
| `IdPool.GrowGoesThrough` | rust/src/id_pool.rs:200-222 | asking, reallocating and growing is always possible below half the maximum, doubles the pool and keeps the IDs |
| `IdPool.Perform` | rust/src/id_pool.rs:152-242 | each action on the pool itself does what the step of the run says |
| `ReallocStack.AlignedSize` | rust/src/alloc/allocator.rs:47-55 | the least multiple of the alignment that holds the size, zero only for zero |
| `ReallocStack.Kernel.ShimKvrealloc` | src/shim.c:356-384 | the fallback meets the reallocation contract on every path, and where it puts the block or when it fails |
| `ReallocStack.Kernel.ShimVrealloc` | src/shim.c:386-413 | the fallback meets the reallocation contract on every path, and where it puts the block or when it fails |
| `ReallocStack.Kernel.CopyOut` | src/shim.c:371-381 | allocate, copy and free either moves the block with its bytes or changes nothing, and exactly when which |
| `ReallocStack.Kernel.Call` | rust/src/alloc/allocator.rs:83-122 | a block of the padded size with the lesser of the old and new bytes kept and the old block gone, or an error with nothing changed; exactly when it succeeds and where the block is; size zero frees and never fails; new blocks are aligned; blocks of other allocators may be in the heap and stay as they are |
| `ReallocStack.Kernel.Realloc` | rust/src/alloc/allocator.rs:148-184 | the same through the alignment check, which changes nothing when it refuses; exactly which requests succeed |
| `ReallocStack.Kernel.Release` | rust/src/alloc.rs:211-216 | freeing always succeeds and removes exactly that block |
| `ReallocStack.Serve` | rust/src/alloc.rs:187-200 | after any sequence of requests, with the kernel free to decide each anew, every request has met the contract and succeeded exactly if it could, what the client owns follows from the answers and is exactly its live blocks, and blocks of other users are untouched |
| `ReallocStack.Undisturbed` | rust/src/alloc.rs:150-153 | in any such run a block keeps its bytes and its owner through all requests for other blocks |
| `ReallocStack.StaysAligned` | rust/src/alloc.rs:150-155 | in any such run that never raises an alignment, every block is aligned as asked |
| `ReallocStack.RaisedAlignment` | rust/src/alloc.rs:187-194 | two calls that leave a block misaligned for its new layout |
| `ReallocStack.PlacedIsAligned` | rust/src/alloc/allocator.rs:46-55 | padding the size makes the kernel's placement rules give the alignment asked for |
| `ReallocStack.VmBlockStuck` | src/shim.c:338-345 | without `find_vm_area` and a native reallocator a vmalloc block is never resized |
| `ReallocStack.GrantedIff` | src/shim.c:356-413 | in every other case a request is granted exactly if the allocator consulted does not refuse, and a slab block is resized as by `krealloc` |
| `ReallocStack.AllServed` | rust/src/alloc/allocator.rs:148-184 | in any run, with a kernel that never refuses, a request succeeds exactly if its alignment is at most 4096 or the allocator is `Kmalloc` |
| `KVec.ArrayLayout` | rust/src/alloc/layout.rs:46-57 | accepted exactly if the byte size is at most `isize::MAX` |
| `KVec.PlanReserve` | rust/src/alloc/kvec.rs:611-630 | exactly when a reservation needs no growth, is refused, or grows, and to what capacity, with no overflow on the way |
| `KVec.Vec.Reserve` | rust/src/alloc/kvec.rs:611-649 | exactly when it succeeds; contents unchanged, room made or nothing changed, the block resized in place or replaced and the old one freed once |
| `KVec.ReallocKeepsElement` | rust/src/alloc.rs:187-200 | the byte contract of `Allocator::realloc` keeps every element up to the lesser length, which is what the vector relies on |
| `KVec.Vec.Push` | rust/src/alloc/kvec.rs:314-320 | exactly when it succeeds; appends, or fails with the contents unchanged |
| `KVec.PushAll` | rust/src/alloc/kvec.rs:611-649 | any pushes, with failures in between: the allocator's answers determine which succeed, the contents are the accepted elements, and fewer than two elements per accepted one have been moved |
| `KVec.PushesSucceed` | rust/src/alloc/kvec.rs:611-630 | unless the allocator refuses, every push succeeds while twice the elements fit in `isize::MAX` bytes |
| `KVec.Vec.InsertWithinCapacity` | rust/src/alloc/kvec.rs:384-413 | inserts at the index, or gives the element back with the error for a bad index, which goes first, or for a full vector |
| `KVec.Vec.Remove` | rust/src/alloc/kvec.rs:454-479 | takes out the element at the index, or nothing if out of bounds |
| `KVec.Vec.Truncate` | rust/src/alloc/kvec.rs:666-676 | the kept and the dropped elements together are the old contents, in order |
| `KVec.Vec.ExtendWith` | rust/src/alloc/kvec.rs:728-753 | exactly when it succeeds; appends n copies or changes nothing |
| `KVec.Vec.Retain` | rust/src/alloc/kvec.rs:712-723 | exactly the accepted elements, as the closure left them, in order; exactly the rejected ones dropped, in the order in which the swaps leave them |
| `KVec.DropsRejected` | rust/src/alloc/kvec.rs:666-676 | that order is a permutation of the rejected elements |
| `KVec.RetainCallsInOrder` | rust/src/alloc/kvec.rs:712-723 | the closure is called once per element, in the original order, with the original values |
| `KVec.RetainedIsFilter` | rust/src/alloc/kvec.rs:712-723 | with a closure that changes elements and judges by a property, the kept elements are the changed ones that had it, and the rejected ones the others |
| `KVec.RetainStep` | rust/src/alloc/kvec.rs:715-721 | one swap keeps the kept prefix, the rejected elements with the first moved behind the others, and the rest |
| `KVecIter.IntoIter.Next` | rust/src/alloc/kvec.rs:1106-1121 | hands out the first remaining element, which leaves the buffer; the pointer moves only if elements have a size |
| `KVecIter.IntoIter.Collect` | rust/src/alloc/kvec.rs:1039-1084 | the remaining elements become a vector whether the shrink is refused, done in place or done by moving; the old block is the new one or is freed |
| `KVecIter.IntoIter.Drop` | rust/src/alloc/kvec.rs:1150-1158 | drops every remaining element once and frees the buffer once |
| `KVecIter.TakeThenCollect` | rust/src/alloc/kvec.rs:1039-1084 | elements handed out and collected together are the original vector, and no buffer leaks |
| `KVecIter.TakeThenDrop` | rust/src/alloc/kvec.rs:1150-1158 | elements handed out and dropped together are the original vector, and the buffer is freed once |
| `CStringFmt.RawFormatter.WriteStr` | rust/src/str.rs:726-750 | stores the part that fits at its place, never outside the buffer, and the position saturates |
| `CStringFmt.RawFormatter.WriteFmt` | rust/src/str.rs:726-750 | after any chunks the buffer holds as much of their text as fits |
| `CStringFmt.TryFromFmt` | rust/src/str.rs:820-850 | the two passes, the terminator and the NUL search give the result of the address arithmetic |
| `CStringFmt.SuccessIff` | rust/src/str.rs:777-788 | success exactly if both passes succeed, the second is no longer than the first and has no NUL; then the result is its text and one NUL |
| `CStringFmt.FaithfulIff` | rust/src/str.rs:793-797 | every success is the second text and one final NUL if and only if the buffer ends below the last address |
| `CStringFmt.ErrorIff` | rust/src/str.rs:820-850 | exactly which error comes when |
| `CStringFmt.TextOfSum` | rust/src/str.rs:726-750 | the text of a pass is its chunks one after the other |
| `CStringFmt.FromBytesWithNul` | rust/src/str.rs:203-221 | accepted exactly if the only NUL is the last byte, and the error tells which part failed |
| `BStrDebug.Debug` | rust/src/str.rs:81-98 | the loop writes the quoted and escaped bytes, and a text of plain characters as itself |
| `BStrDebug.EscapeIs` | rust/src/str.rs:85-96 | what each of the 256 bytes prints as, in ASCII codes |
| `BStrDebug.PrintedAround` | rust/src/str.rs:81-98 | a byte prints the same at every place |
| `BStrDebug.ReadPrinted` | rust/src/str.rs:81-98 | reading back a printed string followed by anything returns the bytes and that rest |
| `BStrDebug.PrefixFree` | rust/src/str.rs:81-98 | no output is a prefix of the output for other bytes, so different bytes print differently |
| `BStrDebug.PrintedShape` | rust/src/str.rs:81-98 | only printable ASCII, between n+2 and 4n+2 characters |
| `KUnitRegistry.Registry.RegisterCase` | src/shim_kunit.c:408-429 | appends unless an argument is NULL or the registry is full |
| `KUnitRegistry.Compact` | src/shim_kunit.c:437-448 | the two-index loop leaves the other owners' entries, in order |
| `KUnitRegistry.Registry.UnregisterModule` | src/shim_kunit.c:431-450 | exactly the owner's entries go |
| `KUnitRegistry.Registry.FindCase` | src/shim_kunit.c:459-465 | the function of the first entry with the name |
| `KUnitRegistry.FirstNamedIsEarliest` | src/shim_kunit.c:459-465 | what is found has the name, no earlier entry has it, and none is found exactly if none has it |
| `KUnitRegistry.AfterIsSurvivors` | src/shim_kunit.c:408-450 | after any history the registry is the accepted registrations whose owner was not unregistered since, in order |
| `KUnitRegistry.Replay` | src/shim_kunit.c:408-477 | replaying any history on the array leaves the survivors, at most 256, and a lookup finds the earliest |
| `KUnitRegistry.RoomFor256` | src/shim_kunit.c:16-16 | of registrations on an empty registry the first 256 are accepted, in order, and no more |
| `Generics.ParseGenerics` | rust/macros/helpers.rs:113-217 | the loop with its four vectors agrees with the iteration function on every stream |
| `Generics.ParsesGenerics` | rust/macros/helpers.rs:95-217 | for every p `<` d `>` s whose brackets close by counting and whose `const` parameters have names: declared generics d and rest p + s; the impl and type generics exactly; both as documented if and only if no depth-one comma follows a depth-one `=` |
| `GenericsStreams.GenericsFoundIff` | rust/macros/helpers.rs:131-146 | for every p `<` d `>` s, the declared generics are d and the rest p + s if and only if d closes by counting as the loop counts |
| `GenericsStreams.NoGenerics` | rust/macros/helpers.rs:165-207 | a stream without angle brackets is all rest and has no generics |
| `GenericsStreams.StrayCloser` | rust/macros/helpers.rs:143-146 | a `>` before any `<` is lost, and everything else is rest |
| `GenericsStreams.NeverClosed` | rust/macros/helpers.rs:128-134 | generics that never close take all that follows the `<`, and the rest is what precedes it |
| `GenericsStreams.ClosesOrOpen` | rust/macros/helpers.rs:128-134 | every stream after a `<` closes at one place or never, so these forms are all there are |
| `GenericsStreams.LostCloser` | rust/macros/helpers.rs:207 | without its closing bracket a declaration gives the same generics |
| `GenericsStreams.NameIs` | rust/macros/helpers.rs:172-192 | what the name of a lifetime, a type and a const parameter is |
| `GenericsStreams.DocumentedExample` | rust/macros/helpers.rs:95-107 | the outputs at the documentation's example, with a lifetime in front |
| `Generics.InsideGenerics` | rust/macros/helpers.rs:155-194 | from any state inside the generics, with any defaults, what the rest of the declaration puts out |
| `Generics.ShownAre` | rust/macros/helpers.rs:155-194 | if every default has a name, a parameter's name is among the type generics exactly if it is the first or the one before it has no default, and its comma exactly if it has none itself |
| `Generics.DocumentedIff` | rust/macros/helpers.rs:99-107 | the outputs differ from the documented ones by one comma too many and one too few for each default that a parameter follows, so they agree if and only if there is none |
| `Generics.DefaultsRemoved` | rust/macros/helpers.rs:99-102 | removing defaults gives a well formed declaration without defaults and with the same depth-one commas |
| `GenericsStreams.DefaultThenParameter` | rust/macros/helpers.rs:155-161 | on `<T = u8, U>` the impl generics are `T , , U` and the type generics `T` |
| `GenericsStreams.ArrowClosesGenerics` | rust/macros/helpers.rs:131-134 | on `<F: Fn() -> u8>` the declared generics end before the arrow's `>` |
| `InitArray.ScopeGuard.Drop` | rust/src/types.rs:198-205 | any cleanup closure is applied to the guarded data, once, exactly if it is still there |
| `InitArray.Scope` | rust/src/types.rs:160-205 | whatever a scope does with its guard, the closure is applied once at the end to the last data, exactly if the guard was not dismissed |
| `InitArray.InitArrayFromFn` | rust/src/init.rs:1082-1114 | all elements initialised and nothing dropped, or the elements before the first failure dropped once, in order, and all slots empty |
| `InitArray.BoxInit` | rust/src/alloc/kbox.rs:348-355 | on failure at any index the allocation is freed once and no other element dropped; without memory nothing happens; a box without bytes has no allocation |
| `InitArray.BoxDrop` | rust/src/alloc/kbox.rs:483-493 | the contents are dropped once and the allocation freed once |
| `InitArray.InitThenDrop` | rust/src/init.rs:1082-1158 | from allocation to drop every value made is dropped exactly once and no block is left |
| `InitArray.ChainInit` | rust/src/init.rs:1003-1011 | if the closure fails, the value as it left it is dropped once and the slot is empty |

## Left out

- KVec.Vec.ExtendWith: a `Clone` that gives something other than an equal value, or panics.
- CStringFmt.TryFromFmt: the chunk boundaries at which a pass sees its own write errors; any chunk sequence it may react with is covered.
- ListArcProtocol.RunSafe: saturation of the reference count, and memory ordering weaker than atomic steps.
- RbTreeMap.RBTree.FindEntry: orderings in which unequal keys compare equal.
- IdPool.BitmapVec.New: the union of an inline word and a pointer; a bitmap is a bit sequence.
- IdPool.IdPool.Release: the panic of hardened builds for an index out of range; the model ignores such an index, as other builds do.
- Red-black colouring, rotation and `rb_next`: C code that is not in the repository; neighbours are those of the in-order sequence.
- `Drop for RBTree` and its iterators: one pass over the C traversal functions.
- `List::IntoIter`, `ListLinksSelfPtr`, `ListArcField`: the list operations again, or field offsets.
- `drain_all`, `extend_from_slice`, `resize`, `pop`: easier variants of what is modelled.
- Panics inside closures and destructors.
- `CStr` and `BStr` views and the `Display` printers: bounds and per-byte cases.
- The call that the KUnit dispatcher makes after its lookup: it happens outside the lock.
- Symbol resolution, field offsets, block and file-system shims, device, work queue and page wrappers: thin calls into a kernel that is not in the repository.
- The other procedural macros and the build scripts: text and token plumbing.
