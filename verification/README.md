# Verified models of the core of `alloc`

This project models, in Dafny, the algorithms and protocols in Rust's `alloc` and `core` libraries whose
correctness rests on invariants that the code states only in comments, and proves those invariants for
every input, every run, or every reachable state.

* **The stable sort of slices** (`Ordering`, `Insertion`, `Merging`, `InPlaceMerge`, `RunStack`,
  `MergeSort`). The comparator is a closure with state that may answer inconsistently and may panic at any
  call. For every comparator the slice keeps each element exactly once, also when a panic drops a
  half-finished hole, and the number of comparisons is at most `len * (6 * log2(len + 1) + 17)`. The sort
  panics exactly when the comparator does, and compares nothing after that. Otherwise, for a strict weak
  order, the result is sorted and stable, and there is only one such result; a slice that is sorted already
  takes `len - 1` comparisons. The rule that decides which runs to merge restores both documented invariants
  on the whole stack; without its fourth clause it would not. The bound on comparisons charges each merge to
  the drop in the heights of the merged elements, with a debt that the next merge always repays.
* **`sort_by_cached_key` and `repeat`** (`CachedKey`, `Repeat`). The index-chasing permutation, and the
  doubling buffer.
* **`Arc` and `Weak`** (`ArcProtocol`, `ArcZero`, `ArcCalls`, `ArcAlone`). A transition system for one shared
  block, with any number of handles and of operations in progress, one step per atomic access, counters that
  wrap, and a value whose destructor may panic. Operations that move a handle to another block (`make_mut`)
  end its part in this one; the new block is another instance of the system, starting in `NewBlock`.
  `ArcCalls` says what each answer means in every interleaving, `ArcAlone` what each call does when nobody
  interferes, both in terms of handles only.
* **`Vec` editors** (`VecBuffer`, `VecDrain`, `VecSplice`, `VecFilter`, `VecRetain`). A buffer whose moved-out
  slots are explicit, with primitive moves whose preconditions rule out reading an element twice or
  overwriting one that nobody took, and the destructors of `Drain`, `Splice` and `DrainFilter` that repair
  it. Predicates, replacement iterators and element destructors may panic at any call.
* **`Rc` and `Weak`** (`RcHeap`, `RcCalls`). A heap of boxes whose values own handles, with destructors that
  re-enter the interface and that may panic.
* **`RawVec` over `Global`** (`GlobalAlloc`, `RawVecModel`). Capacity arithmetic on 16-, 32- and 64-bit words
  and the life of the block.
* **`String`** (`Utf8`, `Utf8Order`, `StringModel`). Byte edits that keep UTF-8 and refine edits of the
  character sequence; the grammar of section 4 of RFC 3629, the encoder and the decoders agree, byte order is
  character order, and no other encoder into the grammar has that property.
* **`RefCell`** (`BorrowFlag`). The signed borrow counter, and the aliasing it guarantees over every run of a
  client.

`Counting` holds the lemmas about counting entries of a finite map, `Slices` those about pieces of sequences,
`Words` the limits of machine words, and `Wrappers` the `Option` type.

## Where the code and its comments disagree

The comment on `Weak::upgrade` (`src/alloc/src/sync.rs:1704-1707`) says that any zero it can observe is
permanent. `ArcZero.ZeroCanComeBack` gives a run in which a weak handle reads zero inside the window of
`make_mut`, is dropped, and the count returns to one. `ArcZero.ZeroIsPermanentIff` proves exactly which zeros
are permanent: those with no `new_cyclic` in progress and no `make_mut` between taking the count to zero and
seeing a weak handle. (An `upgrade` that has read a count above the limit and is about to abort the process
blocks either of them.) `ArcZero.ZeroIsFinalWhileSeen` adds what an observer can rely on once no `new_cyclic` is
in progress any more: the count stays zero for as long as the handle that saw it exists. A zero seen while
`new_cyclic` builds its value does come back. The property that matters, that nobody can still act on a zero
that is taken back, is `ArcProtocol.WindowUnseen`.

## Model

| member | source | states |
|---|---|---|
| Ordering.StableSortUnique | src/alloc/src/slice.rs:225-251 | being sorted and stable determines the result of a sort |
| Ordering.StrictWeakOrderIsStandard | src/alloc/src/slice.rs:262-267 | the two laws used of a comparator are equivalent to the textbook ones: irreflexive, transitive, and transitive where neither is less |
| Ordering.StableWindow | src/alloc/src/slice.rs:1094-1108 | rearranging one window stably rearranges the whole slice stably |
| Ordering.Comparator.IsLess | src/alloc/src/slice.rs:1025-1028 | one call of the comparator, which is never made while a panic of it unwinds |
| Insertion.InsertCorrect | src/alloc/src/slice.rs:831-834 | moving the head past the elements below it keeps the slice sorted and stable |
| Insertion.HoleFilled | src/alloc/src/slice.rs:859-895 | wherever the insertion stops, dropping the hole restores every element once |
| Insertion.CarryHead | src/alloc/src/slice.rs:857-879 | the carrying loop stops at the final place of the head, or at a panic with one hole |
| Insertion.InsertHead | src/alloc/src/slice.rs:834-896 | elements are kept under any comparator and any panic, which is passed on; a lawful one inserts the head at its place, at the cost of one comparison if it stays |
| Merging.MergeCorrect | src/alloc/src/slice.rs:898-955 | the merge of two sorted runs is their sorted stable rearrangement |
| Merging.DirectionsAgree | src/alloc/src/slice.rs:932-980 | merging forwards and backwards gives the same result on sorted runs |
| InPlaceMerge.DropHole | src/alloc/src/slice.rs:995-1010 | dropping the hole writes the unconsumed buffer into the gap and nothing else |
| InPlaceMerge.ForwardStep | src/alloc/src/slice.rs:944-955 | the gap stays as long as the unconsumed buffer, so no unread element is overwritten; what is written plus what is left is the merge |
| InPlaceMerge.ForwardLoop | src/alloc/src/slice.rs:939-955 | fewer comparisons than elements; ends with a run exhausted or at a panic |
| InPlaceMerge.ForwardFilled | src/alloc/src/slice.rs:921-929 | wherever the forward merge stops, filling the gap restores every element once |
| InPlaceMerge.MergeForward | src/alloc/src/slice.rs:932-955 | the forward branch is the stable merge, and keeps the elements under any comparator |
| InPlaceMerge.BackwardStep | src/alloc/src/slice.rs:968-979 | the backward turn keeps the gap as long as the unconsumed buffer |
| InPlaceMerge.BackwardLoop | src/alloc/src/slice.rs:963-979 | fewer comparisons than elements; ends with a run exhausted or at a panic |
| InPlaceMerge.BackwardFilled | src/alloc/src/slice.rs:921-929 | wherever the backward merge stops, filling the gap restores every element once |
| InPlaceMerge.MergeBackward | src/alloc/src/slice.rs:956-980 | the backward branch is the merge from the ends, and keeps the elements under any comparator |
| InPlaceMerge.Merge | src/alloc/src/slice.rs:905-1011 | a buffer for the shorter run suffices; the window becomes the stable merge of its two runs; panics exactly when the comparator does |
| RunStack.Collapse | src/alloc/src/slice.rs:1129-1141 | a pair to merge is always a pair of runs on the stack |
| RunStack.PushKeepsNearly | src/alloc/src/slice.rs:1090-1092 | a push on a balanced stack disturbs at most the top two positions |
| RunStack.MergeKeepsNearly | src/alloc/src/slice.rs:1094-1108 | a merge the rule asks for disturbs at most the top two positions |
| RunStack.NoneMeansBalanced | src/alloc/src/slice.rs:1118-1127 | when the rule is satisfied both invariants hold for all runs, not only for the four it looks at |
| RunStack.TopThreeIsNotEnough | src/alloc/src/slice.rs:1121-1123 | with the top three runs only, a balanced stack can be left unbalanced |
| RunStack.DepthBound | src/alloc/src/slice.rs:1016-1024 | the run at depth d is at least Fib(d + 3) - 1 long |
| RunStack.StackIsLogarithmic | src/alloc/src/slice.rs:1016-1024 | the depth of the stack is logarithmic in the elements it covers |
| RunStack.PushHeight | src/alloc/src/slice.rs:1090-1092 | a new run never lands higher than twice the logarithm of the length |
| RunStack.MergeIsPaid | src/alloc/src/slice.rs:1094-1108 | every merge is paid for by the drop in height and by credit the next merge restores |
| RunStack.PushIsPaid | src/alloc/src/slice.rs:1090-1092 | a push adds its length times its height to what merges may cost |
| MergeSort.ReverseCorrect | src/alloc/src/slice.rs:1069-1073 | reversing a strictly descending run sorts it stably |
| MergeSort.ReverseWindow | src/alloc/src/slice.rs:1073 | the window is reversed in place |
| MergeSort.WalkRun | src/alloc/src/slice.rs:1069-1079 | the walk finds a descending or a non-descending run |
| MergeSort.FindRun | src/alloc/src/slice.rs:1064-1081 | the natural run is sorted stably with at most one comparison per element; if everything in front is one run, it is found whole |
| MergeSort.InsertOne | src/alloc/src/slice.rs:1085-1088 | one insertion keeps the larger window sorted stably |
| MergeSort.ExtendRun | src/alloc/src/slice.rs:1083-1088 | a short run is extended to the minimum length or to the start of the slice |
| MergeSort.NextRun | src/alloc/src/slice.rs:1063-1088 | the next run is sorted stably at a bounded cost per element, and has 10 elements unless the slice ends |
| MergeSort.PairWindows | src/alloc/src/slice.rs:1051-1055 | neighbouring runs are adjacent windows, and half the slice holds the shorter one |
| MergeSort.TiledMerge | src/alloc/src/slice.rs:1106-1107 | merging a pair keeps the runs a tiling of the processed suffix |
| MergeSort.MergeRuns | src/alloc/src/slice.rs:1095-1105 | merging a pair keeps all runs sorted and the slice stable |
| MergeSort.CollapseRuns | src/alloc/src/slice.rs:1094-1108 | the loop ends with a balanced stack, and its comparisons are covered by the lost weight |
| MergeSort.OneRunLeft | src/alloc/src/slice.rs:1111-1112 | at the end one run covers the whole slice |
| MergeSort.ShortSort | src/alloc/src/slice.rs:1041-1049 | short slices are sorted stably by insertion |
| MergeSort.SortStep | src/alloc/src/slice.rs:1063-1109 | one turn of the main loop keeps tiling, balance, stability, conservation and the cost bound |
| MergeSort.AffordBound | src/alloc/src/slice.rs:1024 | the accounts add up to O(n log n) comparisons |
| MergeSort.LongSort | src/alloc/src/slice.rs:1051-1112 | long slices are sorted stably through the stack of runs |
| MergeSort.Sort | src/alloc/src/slice.rs:1025-1112 | elements kept and O(n log n) comparisons under any comparator and any panic; panics exactly when the comparator does; otherwise sorted and stable for a strict weak order; one comparison less than elements on a slice that is sorted, or is long and strictly descending |
| CachedKey.ChaseExtend | src/alloc/src/slice.rs:403-407 | recording a swap moves exactly the chases that ended at its position |
| CachedKey.PlacedStep | src/alloc/src/slice.rs:401-408 | after a swap one more position is final and every other element can still be found |
| CachedKey.ChaseIndex | src/alloc/src/slice.rs:402-405 | the inner loop terminates where the element is now |
| CachedKey.Permute | src/alloc/src/slice.rs:401-408 | position i ends up with the original element from position indices[i] |
| CachedKey.SortUnstable | src/alloc/src/slice.rs:400 | the pairs become some sorted rearrangement of themselves, or some rearrangement if a comparison panics |
| CachedKey.SortUnstableUnique | src/alloc/src/slice.rs:397-400 | indexed pairs have one sorted order, so any sort of them is stable |
| CachedKey.ChooseWidth | src/alloc/src/slice.rs:412-430 | the index type chosen can count the slice and makes the smallest pairs, and is the widest of those |
| CachedKey.SortByCachedKey | src/alloc/src/slice.rs:387-431 | the slice is ordered by cached key and by original position among equal keys; it panics exactly when a key or a comparison does, and is then unchanged |
| Repeat.LeadingDouble | src/alloc/src/slice.rs:525-528 | doubling follows the bits of n and stays below it |
| Repeat.CopiesAdd | src/alloc/src/slice.rs:496-517 | repetitions add up, as in the documented example |
| Repeat.CopyNonOverlapping | src/alloc/src/slice.rs:541-546 | copies a block, demanding that the ranges are apart and within the capacity |
| Repeat.DoubleUp | src/alloc/src/slice.rs:534-554 | the buffer holds as many copies as the leading bit of n |
| Repeat.CopyRemainder | src/alloc/src/slice.rs:556-572 | the remainder is below the leading bit, so it is copied without overlap |
| Repeat.Repeat | src/alloc/src/slice.rs:517-573 | the n-fold concatenation; a panic exactly when the length does not fit a word or its size in bytes exceeds `usize::MAX`, or `isize::MAX` on words of less than 64 bits |
| ArcProtocol.KeepsClone | src/alloc/src/sync.rs:1170-1198 | `Arc::clone` keeps the invariant |
| ArcProtocol.KeepsLoseArc | src/alloc/src/sync.rs:1432-1473 | `Arc::drop` keeps the invariant |
| ArcProtocol.KeepsLastArc | src/alloc/src/sync.rs:1432-1473 | so does consuming the last strong handle, which leaves its value to be disposed of |
| ArcProtocol.KeepsDowngrade | src/alloc/src/sync.rs:775-804 | a successful `downgrade` keeps the invariant |
| ArcProtocol.KeepsTryUnwrap | src/alloc/src/sync.rs:502-518 | `try_unwrap` keeps the invariant |
| ArcProtocol.KeepsLockWeak | src/alloc/src/sync.rs:1387 | locking the weak count keeps the invariant: the lock excludes weak handles |
| ArcProtocol.KeepsLoadStrong | src/alloc/src/sync.rs:1391 | the answer read under the lock stays true |
| ArcProtocol.KeepsUnlock | src/alloc/src/sync.rs:1393-1397 | unlocking puts back the count that was there |
| ArcProtocol.KeepsMakeMut | src/alloc/src/sync.rs:1249-1258 | opening the window of `make_mut` keeps the invariant |
| ArcProtocol.KeepsLoadWeak | src/alloc/src/sync.rs:1261-1272 | the weak count read in the window is not the lock |
| ArcProtocol.KeepsMoveOut | src/alloc/src/sync.rs:1274-1287 | moving the value out leaves the block to its weak handles |
| ArcProtocol.KeepsRestore | src/alloc/src/sync.rs:1288-1292 | closing the window keeps the invariant |
| ArcProtocol.KeepsCloneOut | src/alloc/src/sync.rs:1258-1260 | replacing a shared handle by a fresh block keeps the invariant of the old one |
| ArcProtocol.KeepsDispose | src/alloc/src/sync.rs:948-955 | destroying or taking the value keeps the invariant, also if its destructor panics |
| ArcProtocol.KeepsRelease | src/alloc/src/sync.rs:953-955 | releasing the implicit weak reference keeps the invariant |
| ArcProtocol.LockUnmet | src/alloc/src/sync.rs:1855-1859 | whoever has a weak handle finds the weak count unlocked |
| ArcProtocol.KeepsCloneWeak | src/alloc/src/sync.rs:1849-1867 | `Weak::clone` keeps the invariant and does not meet the lock |
| ArcProtocol.KeepsDropWeak | src/alloc/src/sync.rs:1917-1932 | `Weak::drop` keeps the invariant and does not meet the lock |
| ArcProtocol.KeepsUpgrade | src/alloc/src/sync.rs:1698-1729 | a successful `upgrade` keeps the invariant |
| ArcProtocol.KeepsWriteData | src/alloc/src/sync.rs:379-385 | writing the value of `new_cyclic` keeps the invariant |
| ArcProtocol.KeepsPublish | src/alloc/src/sync.rs:399-408 | publishing keeps the invariant, from a count of zero |
| ArcProtocol.KeepsFree | src/alloc/src/sync.rs:1929-1931 | freeing the block keeps the invariant |
| ArcProtocol.StepKeepsInv | src/alloc/src/sync.rs:301-310 | every atomic step of every operation keeps the invariant |
| ArcProtocol.RunKeepsInv | src/alloc/src/sync.rs:301-310 | so does every interleaving of any number of operations |
| ArcProtocol.DisposedOnce | src/alloc/src/sync.rs:948-955 | in every run the value is disposed of at most once, without strong handles, and the block freed at most once, after which no step can touch it |
| ArcProtocol.ValueInPlace | src/alloc/src/sync.rs:936-944 | whoever reads or moves the value finds it in place, in a block that is allocated |
| ArcProtocol.CountersAreHandles | src/alloc/src/sync.rs:301-310 | the counters are the handles outside the window and the lock, and a locked weak count means no weak handle |
| ArcProtocol.MutableIsUnique | src/alloc/src/sync.rs:1327-1338 | whoever was given `&mut T` has the only handle of either kind until giving it back |
| ArcProtocol.WindowUnseen | src/alloc/src/sync.rs:1288-1292 | when `make_mut` takes the zero back nobody exists who could have acted on it |
| ArcProtocol.NothingLeaks | src/alloc/src/sync.rs:1917-1932 | without handles and operations the value has been disposed of and the block is freed, unless the destructor of the value panicked |
| ArcProtocol.UnwoundForGood | src/alloc/src/sync.rs:948-955 | after a destructor has panicked the block is never freed, in any run, while the weak count goes on counting the weak handles and one more |
| ArcProtocol.GoneForGood | src/alloc/src/sync.rs:1698-1729 | once disposed of, the value cannot come back through a weak handle |
| ArcProtocol.PublishFromZero | src/alloc/src/sync.rs:399-400 | `new_cyclic` publishes from a count of zero |
| ArcZero.ZeroCanComeBack | src/alloc/src/sync.rs:1704-1708 | a run in which an observed zero is not permanent |
| ArcZero.ZeroIsPermanentIff | src/alloc/src/sync.rs:1704-1708 | a zero is permanent over all runs if and only if no `make_mut` or `new_cyclic` that can still raise it is in progress |
| ArcZero.DeadStep | src/alloc/src/sync.rs:1710-1729 | without such an operation no step raises the count or starts one |
| ArcZero.ReviveWindow | src/alloc/src/sync.rs:1258-1292 | from an open window that has not looked at the weak count there is always a run back to one |
| ArcZero.ReviveBuilding | src/alloc/src/sync.rs:374-408 | from an unfinished `new_cyclic` there is always a run to one |
| ArcZero.ZeroStays | src/alloc/src/sync.rs:1704-1708 | with no `new_cyclic` in progress, no step makes the count rise under a weak handle that could have seen zero |
| ArcZero.ZeroIsFinalWhileSeen | src/alloc/src/sync.rs:1704-1708 | with no `new_cyclic` in progress, an observed zero lasts as long as the handle that observed it |
| ArcCalls.LastLoad | src/alloc/src/sync.rs:1708-1727 | an `upgrade` goes by the count it read in its last load, in every run |
| ArcCalls.NoneMeansZero | src/alloc/src/sync.rs:1710-1713 | in every run an `upgrade` that returns `None` has read zero since it started, and unless a `new_cyclic` was in progress then the count is still zero |
| ArcCalls.UpgradeAlone | src/alloc/src/sync.rs:1698-1729 | with a strong handle around, an `upgrade` that nobody interferes with adds one |
| ArcCalls.UnwrapAnswer | src/alloc/src/sync.rs:502-518 | `try_unwrap` takes the value if and only if its handle is the only strong one, and otherwise does nothing |
| ArcCalls.DropAnswer | src/alloc/src/sync.rs:1432-1473 | `drop` destroys the value if and only if its handle is the only strong one |
| ArcCalls.MakeMutAnswer | src/alloc/src/sync.rs:1258-1260 | `make_mut` clones if and only if there is another strong handle |
| ArcCalls.LoadWeakAnswer | src/alloc/src/sync.rs:1261-1292 | otherwise it moves the value if and only if there is a weak handle |
| ArcCalls.LockAnswer | src/alloc/src/sync.rs:1380-1387 | `get_mut` gives up at its lock only if its handle is not alone |
| ArcCalls.LoadStrongAnswer | src/alloc/src/sync.rs:1388-1391 | under the lock its answer is whether the handle is the only one of either kind |
| ArcCalls.UnlockAnswer | src/alloc/src/sync.rs:1393-1397 | mutable access is handed out if and only if the answer was yes |
| ArcCalls.DropWeakAnswer | src/alloc/src/sync.rs:1917-1932 | a weak handle frees the block if and only if it is the last reference |
| ArcCalls.DestroyAnswer | src/alloc/src/sync.rs:948-955 | a destructor that panics leaves the implicit weak reference behind, one that returns goes on to release it |
| ArcCalls.CanStart | src/alloc/src/sync.rs:775-804 | a call can start whenever the borrow rules allow it, whatever else is going on |
| ArcCalls.CanGoOn | src/alloc/src/sync.rs:785-804 | every operation in progress can go on without waiting for another one, with four named exceptions |
| ArcAlone.QuietState | src/alloc/src/sync.rs:301-310 | with nothing in progress the handles determine counters, value and allocation |
| ArcAlone.Disposes | src/alloc/src/sync.rs:948-955 | after the last strong handle the value, the implicit reference and, without weak handles, the block go |
| ArcAlone.CallAlone | src/alloc/src/sync.rs:1170-1300 | every call that nobody interferes with changes the handles as documented and answers accordingly |
| ArcAlone.NewCyclicAlone | src/alloc/src/sync.rs:360-408 | `new_cyclic` ends with one strong handle in the place of its own weak one; a panic of the closure leaves that weak one |
| VecBuffer.Vec.Take | src/alloc/src/vec.rs:3388-3390 | moves an element out of a slot, which must hold one |
| VecBuffer.Vec.Put | src/alloc/src/vec.rs:3561-3563 | writes an element into a slot, which must be empty |
| VecBuffer.Vec.Move | src/alloc/src/vec.rs:3423-3427 | moves a block of slots, which may overwrite empty slots only |
| VecBuffer.EndingIff | src/alloc/src/vec.rs:935-940 | a series of destructors ends normally if and only if none panics, and aborts if and only if two do |
| VecDrain.Drain.constructor | src/alloc/src/vec.rs:1515-1530 | the vector is cut at the start of the range and its parts are accounted for |
| VecDrain.Drain.Open | src/alloc/src/vec.rs:1501-1531 | `drain`, or a panic exactly on a range outside the vector |
| VecDrain.Drain.Next | src/alloc/src/vec.rs:3388-3390 | the front element is moved out |
| VecDrain.Drain.NextBack | src/alloc/src/vec.rs:3400-3402 | the back element is moved out |
| VecDrain.Drain.DropRest | src/alloc/src/vec.rs:3435-3440 | the rest is dropped in order, up to the first destructor that panics |
| VecDrain.Drain.CloseUp | src/alloc/src/vec.rs:3418-3431 | the tail is moved back without overwriting an element |
| VecDrain.Drain.Drop | src/alloc/src/vec.rs:3406-3445 | every remaining element is dropped once and the vector is prefix and tail, also after one panic; a second one aborts |
| VecDrain.Drain.Fill | src/alloc/src/vec.rs:3553-3570 | the gap is filled from the replacement, until one of them ends or the replacement panics |
| VecDrain.Drain.MoveTail | src/alloc/src/vec.rs:3573-3585 | the gap becomes wider and the tail stays whole |
| VecSplice.Extend | src/alloc/src/vec.rs:3511-3515 | every remaining item is appended, up to a panic of the replacement |
| VecSplice.FillTwice | src/alloc/src/vec.rs:3517-3531 | items go into the gap, and into the room that the replacement claims to need |
| VecSplice.InsertRest | src/alloc/src/vec.rs:3533-3541 | whatever the replacement still has goes into room made for it; a panic while collecting loses what was collected |
| VecSplice.InsertReplacement | src/alloc/src/vec.rs:3517-3541 | the whole replacement goes into the gap whatever lower bounds it claims, or what came before its panic except what was being collected |
| VecSplice.Replace | src/alloc/src/vec.rs:3510-3545 | the vector becomes prefix, written items, tail, also after a panic of the replacement; collected items are dropped, and a panic of theirs then aborts |
| VecSplice.DropSplice | src/alloc/src/vec.rs:3507-3545 | the same for any part of the range already taken, the rest of which is dropped once, in order; a panicking destructor gives up the replacement only |
| VecSplice.SpliceSession | src/alloc/src/vec.rs:3507-3586 | for any mix of calls and any panics, every removed element is yielded or dropped exactly once, in order |
| VecFilter.SweepIsFilter | src/alloc/src/vec.rs:3641-3671 | a predicate that only looks splits the vector into its two filters, if nothing panics |
| VecFilter.SweepConserves | src/alloc/src/vec.rs:3641-3671 | no element is lost or doubled, whether the predicate or a destructor panics |
| VecFilter.SweepPicks | src/alloc/src/vec.rs:3649-3668 | for any predicate, exactly the elements it keeps are kept and those it removes are gone, in order, as it left them |
| VecFilter.SweepStops | src/alloc/src/vec.rs:3649-3668 | judging stops exactly at the first panic, and what is behind is untouched |
| VecFilter.DrainFilter.constructor | src/alloc/src/vec.rs:2723-2735 | the length is zero while the editor works |
| VecFilter.DrainFilter.JudgeOne | src/alloc/src/vec.rs:3649-3668 | one element is judged and kept, handed out, or left in place by a panic |
| VecFilter.DrainFilter.Next | src/alloc/src/vec.rs:3647-3671 | the next selected element, without changing where judging the rest leads |
| VecFilter.DrainFilter.Backshift | src/alloc/src/vec.rs:3695-3712 | kept and unjudged elements become the vector again |
| VecFilter.DrainFilter.Drop | src/alloc/src/vec.rs:3683-3723 | the rest is judged unless the predicate has panicked; kept and unjudged elements remain, also after a panic of the predicate or of a destructor |
| VecFilter.DrainFilterSession | src/alloc/src/vec.rs:3641-3724 | abandoned after any number of calls, exactly the selected elements have been yielded or dropped, in order; a panic leaves what is behind it in place |
| VecRetain.SwapKeep | src/alloc/src/vec.rs:1326-1327 | swapping a kept element down rotates the elements to go |
| VecRetain.RetainLoop | src/alloc/src/vec.rs:1318-1330 | the loop collects the elements to keep in front, in order, and the others behind them |
| VecRetain.Retain | src/alloc/src/vec.rs:1314-1334 | the same elements are kept by swaps and the others dropped once; after a panic of the predicate every element is still there once, after one of a destructor all that are to go are gone |
| VecRetain.Truncate | src/alloc/src/vec.rs:932-949 | the last elements are dropped in order and the vector is what is left, also after one panic; a second one aborts |
| RcHeap.StepKeepsInv | src/alloc/src/rc.rs:2121-2161 | every step keeps counters equal to handles, on any heap |
| RcHeap.CountsNew | src/alloc/src/rc.rs:339-347 | `Rc::new` gives a box counted by its handle and the implicit reference |
| RcHeap.CountsClone | src/alloc/src/rc.rs:1252-1255 | `clone` of either kind keeps the counts |
| RcHeap.CountsUpgrade | src/alloc/src/rc.rs:1912-1920 | a successful `upgrade` keeps the counts |
| RcHeap.CountsDropStrong | src/alloc/src/rc.rs:1216-1221 | dropping a strong handle keeps the counts, and the last one starts the destruction |
| RcHeap.CountsFinish | src/alloc/src/rc.rs:1223-1229 | the end of a destruction releases the implicit weak reference |
| RcHeap.CountsPanic | src/alloc/src/rc.rs:1216-1232 | a destructor that panics leaves the implicit weak reference counted |
| RcHeap.CountsDropWeak | src/alloc/src/rc.rs:2037-2048 | dropping a weak handle keeps the counts, and the last reference frees |
| RcHeap.CountsTryUnwrap | src/alloc/src/rc.rs:484-501 | `try_unwrap` keeps the counts |
| RcHeap.CountsSteal | src/alloc/src/rc.rs:952-962 | moving the value out in `make_mut` keeps the counts |
| RcHeap.CountsCyclicInit | src/alloc/src/rc.rs:374-390 | `new_cyclic` turns its weak reference into the implicit one, from a count of zero |
| RcHeap.CountersAreHandles | src/alloc/src/rc.rs:339-347 | in every run the counters are the handles plus the implicit reference, and a box is freed at most once, exactly when nothing refers to it |
| RcHeap.DyingIsSafe | src/alloc/src/rc.rs:340-343 | a box stays allocated while its value is destroyed, and nothing can be upgraded to it meanwhile or afterwards |
| RcHeap.LeakedForGood | src/alloc/src/rc.rs:1216-1232 | a box whose destructor panicked is never freed, in any run, and nothing can be upgraded to it |
| RcHeap.HandlesAreSafe | src/alloc/src/rc.rs:2121-2132 | every handle reaches an allocated box, and the increments never find the zero they abort on |
| RcHeap.UniqueWhenCountedOne | src/alloc/src/rc.rs:963-969 | where `make_mut` returns in place the handle is alone |
| RcHeap.StealIsSafe | src/alloc/src/rc.rs:952-962 | where it moves the value the handle is alone, and weak handles remain to free the old box |
| RcHeap.DropTerminates | src/alloc/src/rc.rs:1216-1232 | a recursive drop terminates, on any heap |
| RcHeap.DropProgress | src/alloc/src/rc.rs:1216-1232 | it goes on while there is an outside handle or an unfinished destruction |
| RcHeap.DropFreesEverything | src/alloc/src/rc.rs:1216-1232 | on an acyclic heap it frees every box exactly once, except those leaked by a destructor that panicked |
| RcCalls.UpgradeAnswer | src/alloc/src/rc.rs:1912-1920 | `upgrade` succeeds if and only if a strong handle to the box exists |
| RcCalls.UnwrapAnswer | src/alloc/src/rc.rs:484-501 | `try_unwrap` succeeds if and only if no other strong handle exists |
| RcCalls.MakeMutAnswer | src/alloc/src/rc.rs:946-969 | `make_mut` clones, moves or stays in place exactly according to the other handles, and `get_mut` gives access exactly where it stays |
| RcCalls.CanCall | src/alloc/src/rc.rs:1252-1255 | whoever has a handle can clone, move, downgrade and drop it |
| RcCalls.HandlesAfter | src/alloc/src/rc.rs:2121-2161 | a call makes and consumes only its own handles; others keep kind and target, and their holder unless its value moved |
| RcCalls.NewHandles | src/alloc/src/rc.rs:758-763 | `clone`, `downgrade` and `upgrade` give a handle of the right kind to the same box |
| RcCalls.StealTakesAll | src/alloc/src/rc.rs:952-962 | a value moved by `make_mut` takes exactly its own handles along |
| RcCalls.UnwrapGivesAll | src/alloc/src/rc.rs:484-501 | a value taken by `try_unwrap` hands exactly its own handles to the caller |
| RcCalls.NewBoxes | src/alloc/src/rc.rs:339-390 | a new box has one handle, strong or, during `new_cyclic`, weak |
| RcCalls.CyclicEnds | src/alloc/src/rc.rs:354-390 | `new_cyclic` keeps its weak handle until it ends or its closure panics |
| RcCalls.DestructionEnds | src/alloc/src/rc.rs:1216-1232 | the end of a destruction lets the box go on without its value, a panic leaks it |
| RcCalls.DropDestroysLast | src/alloc/src/rc.rs:1216-1232 | dropping a strong handle destroys the value if and only if there is no other |
| GlobalAlloc.Allocate | src/alloc/src/alloc.rs:161-171 | a fresh block of the layout, zeroed on request, or no block for no bytes; fails exactly when the system allocator refuses |
| GlobalAlloc.Deallocate | src/alloc/src/alloc.rs:235-241 | frees the block of the layout, and nothing for no bytes |
| GlobalAlloc.FillBytes | src/alloc/src/alloc.rs:161-171 | zeroed memory is zero in every byte, other new memory is unspecified |
| GlobalAlloc.Resize | src/alloc/src/alloc.rs:192-204 | `realloc` keeps the common prefix, touches no other block, and gives up the old address unless it is kept |
| GlobalAlloc.AllocateCopy | src/alloc/src/alloc.rs:211-216 | a new block starts with the bytes of the old one, which is still there |
| GlobalAlloc.GrowInPlace | src/alloc/src/alloc.rs:192-204 | the equal-alignment branch keeps the prefix and zeroes the tail on request |
| GlobalAlloc.GrowByCopy | src/alloc/src/alloc.rs:211-216 | the copying branch keeps the prefix and frees the old block once |
| GlobalAlloc.Grow | src/alloc/src/alloc.rs:175-218 | all branches keep the prefix and touch no other block; fails exactly on a refusal, changing nothing |
| GlobalAlloc.ShrinkByCopy | src/alloc/src/alloc.rs:299-304 | the copying branch keeps the remaining prefix and frees the old block once |
| GlobalAlloc.Shrink | src/alloc/src/alloc.rs:266-306 | all branches keep the remaining prefix and touch no other block; fails exactly on a refusal, changing nothing |
| RawVecModel.OverflowsAbove | src/alloc/src/raw_vec.rs:525-531 | a request overflows exactly above 2^15 - 1, 2^31 - 1 or 2^64 - 1 bytes on the three words |
| RawVecModel.AmortizedLeast | src/alloc/src/raw_vec.rs:397-417 | the amortised capacity is the least that doubles, suffices, and is at least 8, 4 or 1 by element size |
| RawVecModel.RawVec.Obtain | src/alloc/src/raw_vec.rs:482-493 | a larger block with the bytes of the current one, if there is one |
| RawVecModel.RawVec.SetPtr | src/alloc/src/raw_vec.rs:374-377 | the capacity recovered from the size of the block is the one asked for |
| RawVecModel.RawVec.FinishGrow | src/alloc/src/raw_vec.rs:469-494 | the block has the layout of the new capacity, with the old bytes in front; succeeds exactly up to `isize::MAX` bytes that the allocator grants |
| RawVecModel.RawVec.GrowAmortized | src/alloc/src/raw_vec.rs:386-425 | the capacity asked for, without arithmetic overflow, and exactly when it is granted |
| RawVecModel.RawVec.TryReserve | src/alloc/src/raw_vec.rs:309-315 | success means room, exactly for callers whose length is within the capacity; the exact condition of each outcome |
| RawVecModel.RawVec.TryReserveExact | src/alloc/src/raw_vec.rs:339-345 | the same without excess, and the exact condition of each outcome |
| RawVecModel.RawVec.ShrinkTo | src/alloc/src/raw_vec.rs:446-461 | the capacity becomes the amount and the remaining bytes stay; panics exactly on a larger amount, fails exactly on a refusal |
| RawVecModel.RawVec.Drop | src/alloc/src/raw_vec.rs:496-503 | the block is freed with its layout, and a dangling pointer is not |
| RawVecModel.Lifetime | src/alloc/src/raw_vec.rs:302-360 | after any run of granted and refused requests and the destructor, memory is as it was and every address used was freed |
| RawVecModel.Growing.Push | src/alloc/src/vec.rs:1405-1416 | fewer than two elements have been moved per push that stored one; a push succeeds exactly where there is room or the next capacity is granted |
| RawVecModel.Growing.Pop | src/alloc/src/vec.rs:1430-1439 | removing elements moves none |
| RawVecModel.PushesAndPops | src/alloc/src/raw_vec.rs:399-417 | over any pushes and pops from an empty vector fewer than 2n elements are moved, for n pushes that were not refused |
| Utf8.DecodeFirstEncode | src/core/src/str/validations.rs:40-68 | decoding the first character undoes its encoding |
| Utf8.DecodeLastEncode | src/core/src/str/validations.rs:73-106 | decoding the last character undoes its encoding |
| Utf8.EncodeIsProduction | src/core/src/char/methods.rs:1586-1615 | an encoded character is a `UTF8-char` of the grammar |
| Utf8.ProductionIsEncode | src/core/src/str/validations.rs:158-163 | a `UTF8-char` is the encoding of the scalar value it decodes to |
| Utf8.EncodeRoundTrip | src/core/src/char/methods.rs:1586-1615 | what is encoded is well formed and decodes to itself |
| Utf8.DecodeRoundTrip | src/core/src/str/validations.rs:40-68 | what is well formed is the encoding of what it decodes to |
| Utf8.EncodeInjective | src/core/src/char/methods.rs:1586-1615 | different character sequences have different bytes |
| Utf8.BoundaryIsOffset | src/core/src/str/mod.rs:193-205 | one byte decides whether an index is the start of a character or the end |
| Utf8Order.EncodeOrder | src/core/src/char/methods.rs:1586-1615 | the bytes of the lesser of two characters are less, decided before either ends |
| Utf8Order.ByteOrderIsCharOrder | src/core/src/str/traits.rs:12-22 | byte-wise comparison of strings is comparison of their characters by position in the code charts |
| Utf8Order.OnlyEncoding | src/core/src/char/methods.rs:1586-1615 | an encoder into the grammar that keeps the order is this one, so the bytes of every character are fixed |
| StringModel.Utf8String.Push | src/alloc/src/string.rs:1077-1082 | one character is appended |
| StringModel.Utf8String.Pop | src/alloc/src/string.rs:1156-1163 | the last character is removed and returned |
| StringModel.Utf8String.Remove | src/alloc/src/string.rs:1188-1201 | the character at a byte offset is removed, or a panic exactly where none starts |
| StringModel.Utf8String.Insert | src/alloc/src/string.rs:1292-1300 | a character is inserted at a boundary, or a panic exactly elsewhere |
| StringModel.Utf8String.InsertBytes | src/alloc/src/string.rs:1302-1312 | the bytes of one more character go into the gap |
| StringModel.Utf8String.Truncate | src/alloc/src/string.rs:1130-1135 | the characters from a boundary on are removed; beyond the end nothing happens |
| StringModel.Utf8String.SplitOff | src/alloc/src/string.rs:1442-1446 | the string is divided at a boundary |
| StringModel.Utf8String.Drain | src/alloc/src/string.rs:1501-1522 | the characters between two boundaries are removed, and none if the iterator is leaked; a panic exactly elsewhere |
| StringModel.Utf8String.Retain | src/alloc/src/string.rs:1230-1265 | exactly the characters the closure keeps remain; a panic leaves the empty string |
| StringModel.PushPop | src/alloc/src/string.rs:1156-1163 | `pop` undoes `push` |
| StringModel.EditAt | src/alloc/src/string.rs:1130-1446 | what the edits at a character do to the characters |
| StringModel.DrainBetween | src/alloc/src/string.rs:1501-1522 | what draining between two characters removes |
| StringModel.EditElsewhere | src/alloc/src/string.rs:1130-1446 | inside a character or beyond the end the edits change nothing |
| StringModel.EditUndone | src/alloc/src/string.rs:1188-1300 | `remove` undoes `insert`, and `pop` undoes `push` |
| StringModel.KeptPositions | src/alloc/src/string.rs:1230-1265 | `retain` keeps the characters at exactly the positions the closure keeps, in order |
| StringModel.ValidIsWellFormed | src/alloc/src/string.rs:1077-1082 | the bytes of a string are well formed and decode to its characters |
| StringModel.Perform | src/alloc/src/string.rs:1077-1446 | one edit of the bytes, `split_off` included, refines the same edit of the characters |
| StringModel.PerformAll | src/alloc/src/string.rs:1077-1312 | any sequence of edits refines the edits of the characters and stays well formed |
| BorrowFlag.RefCell.TryBorrow | src/core/src/cell.rs:1155-1175 | a reader is admitted exactly without writers and below the end of the range |
| BorrowFlag.RefCell.TryBorrowMut | src/core/src/cell.rs:1463-1475 | a writer is admitted exactly when there is no reference at all |
| BorrowFlag.RefCell.CloneRef | src/core/src/cell.rs:1189-1199 | cloning a reader panics exactly at the end of the range |
| BorrowFlag.RefCell.SplitRef | src/core/src/cell.rs:1286-1293 | a reader is divided in two, and panics exactly at the end of the range |
| BorrowFlag.RefCell.SplitMut | src/core/src/cell.rs:1402-1412 | a writer is divided in two disjoint ones, and panics exactly at the end of the range |
| BorrowFlag.RefCell.Narrow | src/core/src/cell.rs:1257-1262 | mapping narrows a reference and leaves the counter alone |
| BorrowFlag.RefCell.Leak | src/core/src/cell.rs:1320-1327 | a leaked reference stays counted |
| BorrowFlag.RefCell.DropReader | src/core/src/cell.rs:1180-1184 | one reader less |
| BorrowFlag.RefCell.DropWriter | src/core/src/cell.rs:1454-1458 | one writer less |
| BorrowFlag.RefCell.UndoLeak | src/core/src/cell.rs:972-975 | the counter is reset when only leaked references were left |
| BorrowFlag.Perform | src/core/src/cell.rs:617-641 | what the counter does with any request is what the request means for the references |
| BorrowFlag.Run | src/core/src/cell.rs:617-641 | after every run on a new cell the flag is readers minus writers within its range, they do not coexist, and writers overlap nobody |
| BorrowFlag.AfterSound | src/core/src/cell.rs:617-629 | every request keeps the references sound, in terms of references alone |
| BorrowFlag.GrantedIff | src/core/src/cell.rs:1155-1475 | exactly which requests for a reference are granted, in terms of the references that exist |
| BorrowFlag.DropUndoes | src/core/src/cell.rs:1155-1184 | a granted reference covers what was asked for, and dropping it takes everything back |
| BorrowFlag.SplitGives | src/core/src/cell.rs:1286-1293 | a split gives two references of the same kind that cover what was asked for inside the old one |
| BorrowFlag.LeakStays | src/core/src/cell.rs:1320-1327 | a leaked reference cannot be dropped, and stays until `undo_leak` with no guard left |
| BorrowFlag.AliasingXorMutation | src/core/src/cell.rs:617-629 | after any requests, while a mutable reference exists all others write, to other parts of the value |

## Left out

- Weak memory orderings and fences in `sync.rs`: the atomic accesses interleave in one global order.
- Processes that abort because a reference count passed `isize::MAX`; the overflow that `Arc::downgrade` ignores is assumed not to happen.
- `Weak::new` handles that belong to no block, raw-pointer conversions, unsized and zero-sized values, `Pin` and the coercion traits.
- `Weak::weak_count`, `Arc::weak_count` and `strong_count`: one-line reads of the counters proved here.
- CachedKey.SortByCachedKey: keys whose `Ord` is not total or not transitive are not modelled; the trait demands both.
- CachedKey.SortUnstable: stands for the unstable sort of `core`, which is not part of this model; it is implemented by the sort proved here, and `SortUnstableUnique` shows that the choice does not matter.
- VecSplice.DropSplice: a panic inside `size_hint` is not modelled; items that the replacement iterator never gave are its own to drop.
- VecBuffer.Vec.Reserve: allocation always succeeds in the editors' buffer; refusal is modelled in `RawVecModel`.
- StringModel.Utf8String.Drain: the range is removed at once; the character iterator that a caller may read first does not affect the removal.
- Repeat.Repeat: the answer of the allocator is a parameter.
- MergeSort.Sort: the early return for zero-sized element types is not modelled, since such slices have nothing to sort.
- In-place iterator collection, `dedup_by`, `Vec::append` and the other one-loop methods of `vec.rs`.
- `String::replace_range`, lossy conversion, case mapping and pattern search.
- The forwarding trait implementations of all modelled types.
