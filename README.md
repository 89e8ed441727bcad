# AllocBox: a tri-colour mark-and-sweep heap

This project models `AllocBox`, the heap manager of the french-press
JavaScript interpreter, and proves properties of it in Dafny. The heap is
meant to keep every allocated value in exactly one of three maps from a
unique binding to the value; `alloc` and `realloc` do not enforce this
(see below):

- **white**: not yet shown reachable in this collection cycle;
- **grey**: reachable, but its children have not been scanned yet;
- **black**: reachable, and its children have been scanned.

Allocation, lookup, in-place update and rebinding work on these maps.
A collection cycle has three steps:

1. **Root marking** blackens the roots and shades their white children grey.
2. **Marking generations** blacken the grey entries and shade their white children. They run until nothing is grey.
3. **The sweep** drops what is still white or grey and turns the black entries white for the next cycle.

The files:

- `js_types.dfy` (module `JsTypes`) holds the binding type, the heap values and the errors.
  - A binding is an opaque type with equality.
  - A heap value is either an object, which carries the set of bindings it refers to, or a leaf string.
  - `GcError` has two cases: `Alloc(binding)` and `HeapUpdate`.
- `tricolour.dfy` (module `TriColour`) defines the abstract state `Heap(white, grey, black)`. It has one pure function per operation, giving the state the operation leaves behind and its result. It also holds the lemmas about those functions. Among them:
  - the colour invariant `Valid` (the three key sets are pairwise disjoint), and exactly which operations keep it;
  - sizes;
  - lookups before and after each operation;
  - the order-independence of root marking;
  - termination of marking repeated until nothing is grey;
  - the strong tri-colour invariant (no black entry names a white one), and how updates and allocations during a cycle break it;
  - the fact that a full cycle, started from a fresh or just-swept heap, keeps exactly the bindings reachable from the roots.
- `alloc_box.dfy` (module `Alloc`) holds the class `AllocBox`. Its three map fields are updated in place, and its loops are written as in the source.
  - `Alloc`, `UpdatePtr`, `RemoveBinding`, `Realloc`, `GreyChildren`, `MarkPtrs` and `SweepPtrs` are proved, for every heap, to leave exactly the state (and return exactly the result) that the `TriColour` function of the same name gives.
  - `MarkRoots` is proved to leave the state of `TriColour.MarkRoots` only when the heap was valid beforehand. On any other heap it keeps the set of bindings held and leaves every held root black (see "Left out").
  - `ShadeWhite` has no `TriColour` counterpart. Its contract states its effect on the maps directly.
  - The loop of `MarkRoots` picks roots in an arbitrary order. Its invariant is the closed form `TriColour.MarkRoots` over the roots processed so far.
  - The loop of `MarkPtrs` drains grey one entry at a time. Its invariant is the predicate `Draining`.
  - The inner loops shading children (in `grey_children` and in `mark_ptrs`) share one method, `ShadeWhite`.
  - `Len`, `IsEmpty` and `FindId` read the fields. They return `TriColour.Len`, `TriColour.IsEmpty` and `TriColour.Find` of the state.
  - `FindIdMut` has no `TriColour` counterpart. It picks the map that `UpdatePtr` writes to, and its contract relates that choice to `FindId`.
- `scenarios.dfy` (module `Scenarios`) drives an `AllocBox` through the situations the source's unit tests check. It also contains two full collection cycles: in one an unrooted leaf is dropped, in the other a rooted object keeps its child. Each is proved for every choice of bindings.

In four places the code does something a reader might not expect, and the model follows the code:

- Neither `alloc` nor `realloc` checks the grey and black maps before inserting into white (src/alloc/mod.rs:22-30, 50-57). Allocating or rebinding to a binding held grey or black therefore leaves it in two maps. `TriColour.AllocValid` and `TriColour.ReallocValid` state exactly when the colours stay disjoint.
- An error is usually expected to leave the heap unchanged; `alloc` does not. It inserts into the white map before it looks at what the insertion displaced (src/alloc/mod.rs:23). A conflicting allocation therefore returns `Err(Alloc(b))` but has already replaced the white value. `TriColour.AllocConflict` states this.
- Root marking's result does not depend on the order of the roots, provided the colours are disjoint. When one binding is both white and grey (which `alloc` can cause), the result does depend on the order. So the closed form is stated only for disjoint heaps; see `Alloc.AllocBox.MarkRoots` below.
- A rebinding to the same binding leaves it present, so "lookup of the old binding is absent afterwards" holds only when the two bindings differ.

## Model

| member | source | states |
|---|---|---|
| Alloc.AllocBox.constructor | src/alloc/mod.rs:34-40 | a new heap has three empty maps, is valid and is empty |
| TriColour.EmptyHeap | src/alloc/mod.rs:34-48 | the empty heap is valid, has length 0 and is empty |
| TriColour.IsEmpty | src/alloc/mod.rs:46-48 | `is_empty` holds exactly when no binding is held, which is exactly when the heap is the empty heap |
| TriColour.Len | src/alloc/mod.rs:42-44 | the summed map sizes are never fewer than the bindings held, and on a valid heap they equal the number of bindings held |
| TriColour.SameLiveSameLen | src/alloc/mod.rs:42-44 | two valid heaps holding the same bindings have the same length |
| Alloc.AllocBox.Alloc | src/alloc/mod.rs:22-30 | the new state and result are those of inserting into white and then reporting a displaced white entry; from a valid heap the result is valid exactly when the binding was neither grey nor black |
| TriColour.AllocFresh | src/alloc/mod.rs:22-24 | allocating a binding white does not hold returns Ok, adds it to white, leaves grey and black alone and grows the length by one when the binding was nowhere |
| TriColour.AllocConflict | src/alloc/mod.rs:23-28 | allocating a binding white holds returns `Err(Alloc(b))` naming it, yet the new state is exactly the old one with white mapping the binding to the new value: every other entry, every key set, the length and every other lookup are unchanged |
| TriColour.AllocValid | src/alloc/mod.rs:22-30 | from a valid heap, allocation gives a valid heap exactly when the binding is neither grey nor black |
| TriColour.AllocThenFind | src/alloc/mod.rs:22-30 | after an allocation, success or not, a lookup of the binding returns the allocated value |
| TriColour.Find | src/alloc/mod.rs:101-105 | lookup finds something exactly when the binding is held; it returns the white value if there is one, else the grey one, else the black one, so on a valid heap the value of whichever map holds it |
| Alloc.AllocBox.FindIdMut | src/alloc/mod.rs:137-143 | the white map is picked exactly when it holds the binding, the grey map exactly when white does not and grey does, and otherwise the black map, whether or not black holds it; the picked entry's value is what `FindId` returns, and a black pick finds nothing exactly when black does not hold the binding |
| Alloc.AllocBox.UpdatePtr | src/alloc/mod.rs:107-115 | the new state and result are those of replacing the value in the first of white, grey, black that holds the binding (as `find_id_mut` picks it), else reporting `HeapUpdate`; validity is kept |
| TriColour.UpdatePtrFound | src/alloc/mod.rs:107-115 | updating a held binding returns Ok, changes no key set, makes its lookup return the new value and leaves every other lookup unchanged |
| TriColour.UpdatePtrMissing | src/alloc/mod.rs:107-115 | updating a binding held nowhere returns `HeapUpdate` and leaves the heap unchanged |
| TriColour.UpdatePtrValid | src/alloc/mod.rs:107-115 | updating keeps a valid heap valid and keeps its length |
| Alloc.AllocBox.RemoveBinding | src/alloc/mod.rs:117-121 | the binding is removed from all three maps and the white value, else the grey one, else the black one is returned |
| TriColour.RemoveBindingClears | src/alloc/mod.rs:117-121 | removal returns what a lookup would have returned, drops exactly that binding and leaves every other lookup unchanged |
| Alloc.AllocBox.Realloc | src/alloc/mod.rs:50-57 | the new state and result are those of removing the old binding and inserting its value into white under the new one, else reporting `HeapUpdate`; validity is kept when the new binding is the old one or neither grey nor black |
| TriColour.ReallocFound | src/alloc/mod.rs:50-57 | rebinding a held binding returns Ok, removes the old binding from every map, makes white map the new binding to the old lookup value, and leaves the old binding absent when the two differ |
| TriColour.ReallocMissing | src/alloc/mod.rs:50-57 | rebinding a binding held nowhere returns `HeapUpdate` and leaves the heap unchanged |
| TriColour.ReallocValid | src/alloc/mod.rs:50-57 | a successful rebinding keeps a valid heap valid exactly when the new binding is the old one or neither grey nor black |
| TriColour.ReallocLive | src/alloc/mod.rs:50-57 | rebinding a held binding to any binding, whatever its colour, leaves the held bindings with the old one replaced by the new one |
| TriColour.ReallocLen | src/alloc/mod.rs:50-57 | on a valid heap, rebinding a held binding to any binding keeps the length, except that overwriting another white entry shrinks it by one |
| Alloc.AllocBox.GreyChildren | src/alloc/mod.rs:123-129 | each given binding held white moves to grey with its value; nothing else changes |
| Alloc.AllocBox.ShadeWhite | src/alloc/mod.rs:85-89 | each given binding held white leaves white and is added with its value to the map being built; grey and black are unchanged |
| Alloc.AllocBox.MarkRoots | src/alloc/mod.rs:59-77 | the set of bindings held is unchanged and every root the heap holds ends black, whatever the colours; from a valid heap the new state is the closed form `TriColour.MarkRoots` for the whole root set, whatever the order, and is valid |
| TriColour.MarkRoots | src/alloc/mod.rs:59-77 | the definition of root marking as a closed form (roots held white or grey go black, their white children that are not roots go grey); its ensures records that it adds or drops no binding and never shrinks black |
| TriColour.MarkRootMovesOnly | src/alloc/mod.rs:60-75 | marking one root adds or drops no binding, never shrinks black, and leaves a held root black |
| TriColour.MarkRootsInsert | src/alloc/mod.rs:60-75 | on a valid heap, marking one more root after any set of roots gives the closed form for the larger set, so the loop's result does not depend on the order |
| TriColour.MarkRootsValid | src/alloc/mod.rs:59-77 | root marking keeps a valid heap valid and adds or drops no binding |
| TriColour.MarkRootsLen | src/alloc/mod.rs:59-77 | on a valid heap, root marking keeps the length |
| TriColour.MarkRootsFind | src/alloc/mod.rs:59-77 | on a valid heap, root marking changes colours only: every lookup returns what it did before |
| TriColour.MarkRootsBlackens | src/alloc/mod.rs:61-74 | on a valid heap, every root held white or grey ends black with the value it had |
| TriColour.MarkRootsSkips | src/alloc/mod.rs:59-77 | on a valid heap, roots already black keep their black value, and roots held nowhere stay absent |
| TriColour.MarkRootsShades | src/alloc/mod.rs:63-74 | on a valid heap, a white child of a marked root that is not itself a root ends grey with its value |
| TriColour.MarkRootsKeepsOthers | src/alloc/mod.rs:59-77 | on a valid heap, a white entry that is neither a root nor a child of a marked root stays white, and a grey entry that is not a root stays grey, both with their values |
| TriColour.MarkRootsNone | src/alloc/mod.rs:59-77 | marking no roots leaves the heap unchanged |
| TriColour.MarkRootsNothingToPromote | src/alloc/mod.rs:59-77 | when no root is white or grey, root marking leaves the heap unchanged |
| TriColour.MarkRootsIdempotent | src/alloc/mod.rs:59-77 | on a valid heap, marking the same roots twice gives the same heap as marking them once |
| Alloc.AllocBox.MarkPtrs | src/alloc/mod.rs:79-92 | the new state is the closed form `TriColour.MarkPtrs` (grey drained into black; the white children of the drained entries are the new grey map); validity is kept |
| TriColour.MarkPtrs | src/alloc/mod.rs:79-92 | the definition of one marking generation as a closed form (grey joins black, the white children of grey entries become the new grey); its ensures only records the black keys, and its behaviour is proved in `MarkPtrsColours` |
| TriColour.MarkPtrsColours | src/alloc/mod.rs:79-92 | every grey entry becomes black with its value; other black entries keep theirs; the new grey entries are exactly the white children of old grey entries, with their values; other white entries stay white |
| TriColour.MarkPtrsValid | src/alloc/mod.rs:79-92 | a marking generation keeps a valid heap valid and adds or drops no binding |
| TriColour.MarkPtrsLen | src/alloc/mod.rs:79-92 | on a valid heap, a marking generation keeps the length |
| TriColour.MarkPtrsFind | src/alloc/mod.rs:79-92 | on any heap, a marking generation changes colours only: every lookup returns what it did before |
| TriColour.MarkPtrsLive | src/alloc/mod.rs:79-92 | on any heap, a marking generation adds or drops no binding |
| TriColour.MarkPtrsIdle | src/alloc/mod.rs:79-92 | with nothing grey, a marking generation leaves the heap unchanged |
| TriColour.MarkPtrsProgress | src/alloc/mod.rs:79-92 | after a generation the white and grey entries together number the white entries before, so each generation with something grey shrinks that count |
| TriColour.MarkToFixpoint | src/alloc/mod.rs:79-92 | repeating marking generations, as a caller of `mark_ptrs` does until nothing is grey, terminates, because each generation shrinks the number of white and grey entries, and ends with nothing grey |
| TriColour.MarkPtrsShrinks | src/alloc/mod.rs:79-92 | a generation with something grey strictly shrinks the number of white and grey entries |
| Alloc.AllocBox.SweepPtrs | src/alloc/mod.rs:94-99 | white becomes the old black map; grey and black become empty; the result is valid |
| TriColour.SweepPtrsResets | src/alloc/mod.rs:94-99 | after a sweep the heap is valid, grey and black are empty, white is the old black map, the length is the old black size and everything not black before is gone |
| TriColour.GetPtrChildren | src/alloc/mod.rs:131-135 | the definition of a value's children: an object's child set, nothing for a leaf; what it drives is proved in `ReachedAdd` |
| TriColour.ReachedAdd | src/alloc/mod.rs:131-135 | adding an entry adds exactly its value's children to the bindings the map's values name |
| TriColour.PromotedShape | src/alloc/mod.rs:61-68 | the roots root marking blackens are exactly the roots held white or grey, with the values a lookup returns |
| TriColour.MarkRootsKeepsInvariant | src/alloc/mod.rs:59-77 | on a valid heap, root marking keeps the strong tri-colour invariant (no black entry names a white one) and leaves no root white |
| TriColour.MarkPtrsKeepsInvariant | src/alloc/mod.rs:79-92 | a marking generation keeps the strong tri-colour invariant and never makes anything white |
| TriColour.UpdatePtrNoWriteBarrier | src/alloc/mod.rs:107-115 | updating a black entry to name a white one breaks the strong invariant, because nothing shades the child |
| TriColour.AllocNoWriteBarrier | src/alloc/mod.rs:22-30 | allocating a binding a black entry already names breaks the strong invariant |
| TriColour.MarkedPathIsBlack | src/alloc/mod.rs:79-92 | at the fixpoint (valid, nothing grey, strong invariant, no white root), every binding on a reference path from a root is black |
| TriColour.MarkToFixpointKeeps | src/alloc/mod.rs:79-92 | marking to the fixpoint keeps validity, the strong invariant, the absence of white roots and every lookup |
| TriColour.CollectionKeepsReachable | src/alloc/mod.rs:59-99 | from a valid heap with no black-to-white edge, after root marking, marking to the fixpoint and the sweep, every binding on a reference path from a root is still held with its value |
| TriColour.PathExtend | src/alloc/mod.rs:131-135 | a reference path extended by a held child of its last binding is a path |
| TriColour.MarkRootsReachable | src/alloc/mod.rs:59-77 | on a heap with nothing grey or black, root marking makes only reachable bindings grey or black |
| TriColour.MarkPtrsReachable | src/alloc/mod.rs:79-92 | on a valid heap, a marking generation keeps every grey or black entry reachable from the roots |
| TriColour.MarkToFixpointReachable | src/alloc/mod.rs:79-92 | on a valid heap, marking to the fixpoint keeps every grey or black entry reachable from the roots |
| TriColour.CollectionKeepsOnlyReachable | src/alloc/mod.rs:59-99 | a collection cycle from a heap with nothing grey or black keeps only bindings reachable from the roots |
| TriColour.CollectionKeepsExactlyReachable | src/alloc/mod.rs:59-99 | a collection cycle from a valid heap with nothing grey or black (fresh or just swept) keeps a binding exactly when it is reachable from the roots |
| Scenarios.LenAfterOneAlloc | src/alloc/mod.rs:158-164 | a new heap is empty; one allocation succeeds and the length is then 1 |
| Scenarios.AllocTwo | src/alloc/mod.rs:166-173 | two distinct bindings can both be allocated |
| Scenarios.AllocTwice | src/alloc/mod.rs:175-188 | allocating a binding twice succeeds, then fails naming that binding, and the length stays 1 |
| Scenarios.UpdateThenFind | src/alloc/mod.rs:190-209 | after allocating and updating a binding, the update succeeds and lookup returns the new value |
| Scenarios.UpdateMissing | src/alloc/mod.rs:211-218 | updating a binding in an empty heap fails with `HeapUpdate` |
| Scenarios.MarkTwoRoots | src/alloc/mod.rs:220-238 | after allocating two bindings and marking both as roots, both are black |
| Scenarios.CollectUnrooted | src/alloc/mod.rs:59-99 | a cycle with root `x` and an unrooted leaf `y` keeps `x` with its value, drops `y` and leaves length 1 |
| Scenarios.CollectChild | src/alloc/mod.rs:59-99 | a cycle with a rooted object and the leaf it names keeps both, white, with length 2 |

## Left out

- Shared ownership (`Rc<RefCell<..>>`) and releasing memory are not modelled. Each slot is a plain map value; dropping a slot is removal from the maps. Updating through `borrow_mut` is modelled as replacing the map value. Handles held outside the heap (aliasing) are not modelled.
- `UniqueBinding` (with `anon` and `mangle`), `JsObj::get_children` and the other `JsPtrEnum` variants are not part of this model. A binding is an opaque equality type. An object carries its children as a set, and every other kind of value behaves like the leaf string (no children).
- The iteration order of `HashMap` and `HashSet` is not modelled. Loops pick an arbitrary remaining element instead.
- Alloc.AllocBox.MarkRoots: the exact new state is stated only when the colours are disjoint beforehand. Otherwise (one binding both white and grey, which `alloc` can produce) the state depends on the iteration order. For every heap it still states that no binding is added or dropped and that every held root ends black.
- Repeating `mark_ptrs` until nothing is grey is left to the caller in the source. `TriColour.MarkToFixpoint` stands for that caller, and the collection-cycle lemmas are stated over it.
- The lemmas on lengths after marking (`MarkRootsLen`, `MarkPtrsLen`), on lookups after root marking (`MarkRootsFind`) and the colour lemmas beside them are stated for valid heaps only. When a binding has two colours, which `alloc` and `realloc` can produce, `mark_roots` can shrink `len` and change what `find_id` returns. `mark_ptrs` never changes what `find_id` returns (`MarkPtrsFind` holds on every heap), and it shrinks `len` only when a binding is both grey and black, because the two entries merge into one black entry.
- `len` does not model `usize` overflow of the summed sizes; lengths are unbounded naturals.
- `find_id` returns a reference to the shared cell. The model returns the value.
- `mark_ptrs` drains grey with `HashMap::drain`. The model empties grey up front and drains a local copy, which has the same effect on the three maps.
