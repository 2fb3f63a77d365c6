# Sortable container reorder engine

A Dafny model of the reorder engine of the React component `SortableContainer`
(`src/components/SortableContainer.tsx`): the user drags one item of a vertical list
and drops it on the upper or lower half of another item, and the container moves the
dragged item there.

The model has five modules:

- `Wrappers` — `Option`, standing for the nullable values of the component state.
- `JsArray` — `Splice`, the behaviour of JavaScript's `Array.prototype.splice` as a
  function on sequences. This covers negative and past-the-end start indices and clamped
  delete counts. It returns the new array and the removed elements.
- `OrderStore` — the positional reorder of `handleDrop`, as pure functions:
  - `InsertIndex` is the asymmetric insertion rule. Only an explicit top half counts
    as top, so a null position acts as bottom.
  - `Reorder` removes the dragged item with `splice(dragIndex, 1)` and re-inserts it
    with `splice(insertIndex, 0, item)`.
  - `Landing` is where the item ends up. `splice` appends when the insertion index is
    past the end of the shortened list, so this is `min(insertIndex, n - 1)`.
  - `Moved` is an independent, pointwise description of moving one element.
- `Indicators` — the visibility test for the drop markers drawn above and below each
  item, a case-by-case description of the single active marker, and the list of markers
  shown when all items are rendered.
- `DragSession` — `HalfOf` classifies the pointer as over the top or bottom half, and
  the class `SortableContainer` holds the component state (`dragIndex`, `overIndex`,
  `dragPosition`, `orderedChildren`). Its methods `DragStart`, `DragOver`, `Drop` and
  `ContainerDrop` are the event handlers. `Drop` builds the new order with the method
  `MoveDragged`, which runs the two `splice` calls and the `insertIndex` branch step by
  step and is proved equal to `Reorder`. The class invariant `Valid` keeps the multiset of items the container was
  created with, keeps the recorded indices in range, and ties a recorded hover to a
  recorded half, so a null half reaches the insertion rule only through a direct call of
  `Drop`, never through `ContainerDrop`.

Inputs from the browser are parameters: the pointer's `clientY` and the bounding box's
`top` and `height` are integer arguments of `DragOver`. The item index each handler
receives is an argument too.

Three points of the code are easy to misread:

- At mount the half is `"top"` (lines 12-14), while drag and hover start out null (lines 10-11).
- `handleDrop` reorders relative to its `index` argument (lines 49-53). The container's
  drop handler passes the hovered index there, and calls nothing when no item is hovered
  (lines 80-85).
- When nothing is hovered, the container's drop handler leaves the session as it is: the
  reset at lines 58-59 only runs inside `handleDrop`.

`DragScenario` in `sortable_container.dfy` is a usage example with no contract of its
own: it runs one drag from mount to drop through the class's methods and asserts the
resulting order and markers from their contracts alone.

The model records one behaviour explicitly rather than correcting it. Dropping an item on
the bottom half of itself swaps it with the next item, although no marker is shown in
that case. See `SelfDropBottomShiftsDown` and `AtMostOneMarker`.

## Model

| member | source | states |
|---|---|---|
| `JsArray.Splice` | src/components/SortableContainer.tsx:46-54 | the array after `splice` keeps the prefix before the clamped start, then holds the inserted items, then the elements after the removed run; the removed run is the clamped count of elements from the start; no element is lost or duplicated (multisets of result and removed equal input plus inserted) |
| `OrderStore.InsertIndex` | src/components/SortableContainer.tsx:48-53 | the insertion index for valid indices is never negative, is at most `index + 1`, and at most `index` when the item moves down the list |
| `OrderStore.NullPositionActsAsBottom` | src/components/SortableContainer.tsx:50-52 | a null drag position gives the same reorder as the bottom half |
| `OrderStore.SpliceRemovesOne` | src/components/SortableContainer.tsx:45-46 | `splice(dragIndex, 1)` on a valid index removes exactly the dragged element and returns it |
| `OrderStore.SpliceInsertsOne` | src/components/SortableContainer.tsx:54 | `splice(k, 0, x)` with `k >= 0` inserts `x` at `min(k, length)`, so an index past the end appends |
| `OrderStore.InsertAtInverse` | src/components/SortableContainer.tsx:45-54 | removing the element just inserted at a position gives back the list, and inserting adds exactly that one element to the multiset |
| `OrderStore.RemoveAtMultiset` | src/components/SortableContainer.tsx:45-46 | removing the element at an index loses that element and no other |
| `OrderStore.Landing` | src/components/SortableContainer.tsx:48-54 | the insertion index lies in `[0, n]`; the dragged item lands at the insertion index, except that an index equal to `n` (past the end of the shortened list) makes `splice` append, at `n - 1` |
| `OrderStore.Reorder` | src/components/SortableContainer.tsx:43-55 | the new order has the same length and the same multiset of items; the dragged item sits at `min(insertIndex, n - 1)`; removing it gives the input without the dragged item |
| `OrderStore.ReorderIsSplice` | src/components/SortableContainer.tsx:44-54 | the two `splice` calls, with the insertion index of the rule, compute exactly `Reorder` |
| `OrderStore.ReorderIsMove` | src/components/SortableContainer.tsx:44-54 | the reorder equals the independent pointwise move of the dragged element to its landing position, the items in between closing up by one |
| `OrderStore.LandsBesideTarget` | src/components/SortableContainer.tsx:48-54 | dropping on a different item puts the dragged item directly above the target for the top half and directly below it otherwise |
| `OrderStore.SelfDropTopIsIdentity` | src/components/SortableContainer.tsx:51-52 | dropping an item on the top half of itself leaves the order unchanged |
| `OrderStore.SelfDropBottomShiftsDown` | src/components/SortableContainer.tsx:51-54 | dropping an item on the bottom half of itself, or with a null position, swaps it with the next item, and is a no-op on the last item |
| `OrderStore.OthersKeepOrder` | src/components/SortableContainer.tsx:46-54 | any two items other than the dragged one appear in the result in the same relative order, at positions determined by the landing position |
| `OrderStore.ResultPositionAt` | src/components/SortableContainer.tsx:46-54 | each item other than the dragged one is found in the result at the position of the same rank outside the landing position |
| `OrderStore.DropFirstOnThirdTop` | src/components/SortableContainer.tsx:49-50 | on [A, B, C, D], dragging index 0 to the top of index 2 gives [B, A, C, D] |
| `OrderStore.DropFirstOnThirdBottom` | src/components/SortableContainer.tsx:49-50 | on [A, B, C, D], dragging index 0 to the bottom of index 2 gives [B, C, A, D] |
| `OrderStore.DropLastOnSecondTop` | src/components/SortableContainer.tsx:51-52 | on [A, B, C, D], dragging index 3 to the top of index 1 gives [A, D, B, C] |
| `OrderStore.DropLastOnSecondBottom` | src/components/SortableContainer.tsx:51-52 | on [A, B, C, D], dragging index 3 to the bottom of index 1 gives [A, B, D, C] |
| `OrderStore.DropLastOnItselfBottom` | src/components/SortableContainer.tsx:52-54 | on [A, B, C, D], dragging index 3 to the bottom of itself gives insertion index 4, which `splice` appends, so the order is unchanged |
| `DragSession.MoveDragged` | src/components/SortableContainer.tsx:44-54 | the imperative reorder block (copy, `splice` out, choose the insertion index, `splice` in) yields `Reorder` of the list, a permutation of it |
| `Indicators.Shown` | src/components/SortableContainer.tsx:113-123 | the five conditions of the render (drag and hover differ, a drag is recorded, a hover is recorded, the index is the hovered one, the half is the marker's side) hold exactly when the independent case-by-case active marker is this index and side |
| `Indicators.MarkersAtItem` | src/components/SortableContainer.tsx:110-123 | the markers rendered around one item are the active marker if it belongs to that item, and nothing else |
| `Indicators.MarkersShown` | src/components/SortableContainer.tsx:110-126 | the markers shown over the whole list are the active marker alone when it is at a rendered index, and none otherwise |
| `Indicators.AtMostOneMarker` | src/components/SortableContainer.tsx:113-123 | at most one marker is shown in total, and none when the dragged and hovered index coincide or the half is null |
| `Indicators.MarkerExample` | src/components/SortableContainer.tsx:113-123 | dragging index 0 over the top half of index 2 of four items shows only the marker above index 2; hovering the dragged item shows none |
| `DragSession.HalfOf` | src/components/SortableContainer.tsx:33-36 | top exactly when `2 * (y - top) < height`; for positive height this is exactly `(y - top) / height < 0.5` in exact division, and for height 0 it is top exactly when the pointer is above the box |
| `DragSession.HalfOfExamples` | src/components/SortableContainer.tsx:33-36 | for a box at 100 of height 40, pointer 115 is top, the midpoint 120 and 135 are bottom |
| `DragSession.SortableContainer.constructor` | src/components/SortableContainer.tsx:10-17 | the container starts with the given items, no drag, no hover and the half set to top |
| `DragSession.SortableContainer.DragStart` | src/components/SortableContainer.tsx:21-23 | records the dragged index, overwriting any earlier one, and changes nothing else |
| `DragSession.SortableContainer.DragOver` | src/components/SortableContainer.tsx:25-37 | records the hovered index and the half given by `HalfOf`, and changes nothing else |
| `DragSession.SortableContainer.Drop` | src/components/SortableContainer.tsx:39-60 | with a recorded drag the order becomes `Reorder` of the old order, otherwise it is unchanged; afterwards drag, hover and half are all null and no marker is shown; the item multiset is preserved |
| `DragSession.SortableContainer.ContainerDrop` | src/components/SortableContainer.tsx:78-86 | with a hovered item it drops on that item's index; without one nothing changes at all |

## Left out

- Handler wiring and cleanup in `useEffect` (lines 62-106) is browser event plumbing. The
  model assumes each child renders exactly one element of class `container-item`, so the
  index the adapter passes (lines 65-70) is an index of `orderedChildren`; the component
  does not check this. The handlers state that range as a precondition.
- `preventDefault` and `getBoundingClientRect` are browser calls. The pointer and box
  measurements are parameters instead.
- `DragSession.HalfOf`: coordinates are integers, not IEEE doubles. For integer
  coordinates below 2^53 the comparison `2 * (y - top) < height` gives the same answer
  as the floating-point division. This includes height 0, where the division gives
  -Infinity, NaN or +Infinity.
- React state batching, re-rendering and closures are not modelled. The model assumes a
  render, and the effect that re-binds the handlers (lines 62-106), happen between any two
  events, so each handler reads the current state and its updates take effect together.
  A handler that fires earlier reads the previous render's state; that is not modelled.
- `React.Children.toArray`, the JSX and fragments of the render, the `DragIndicator`
  component and the style sheet are left out. Only the per-index, per-side visibility
  decision is modelled, together with the list of markers one render shows.
- No validation of out-of-range indices: the component performs none. The handlers
  state the valid ranges as preconditions, and the class invariant keeps the recorded
  indices in range.
- `Splice` is a value-level function. The shifting of array elements in place inside
  JavaScript's `splice` is not modelled; the local copy in `MoveDragged` is a sequence that is
  reassigned.
