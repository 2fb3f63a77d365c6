/**
 * The drag session of the sortable container: the component state and the handlers
 * that the drag events call, one method per handler.
 */
module DragSession {
  import opened Wrappers
  import opened OrderStore
  import opened Indicators
  import JsArray

  /** The half of an item's box that a pointer at height `pointerY` is over, for a box
      starting at `rectTop` with height `rectHeight`: the top half when
      `(pointerY - rectTop) / rectHeight < 0.5`, written without the division. For a box of
      height 0 the quotient is -Infinity, NaN or +Infinity, and the same comparison still
      gives top exactly when the pointer is above the box. */
  function HalfOf(pointerY: int, rectTop: int, rectHeight: int): (p: Position)
    requires rectHeight >= 0
    ensures rectHeight > 0 ==>
      (p == Top <==> (pointerY - rectTop) as real / rectHeight as real < 0.5)
    ensures rectHeight == 0 ==> (p == Top <==> pointerY < rectTop)
  {
    if 2 * (pointerY - rectTop) < rectHeight then Top else Bottom
  }

  /** A box at 100 of height 40: the pointer at 115 is over the top half, at the exact
      middle 120 and at 135 over the bottom half. */
  lemma HalfOfExamples()
    ensures HalfOf(115, 100, 40) == Top
    ensures HalfOf(120, 100, 40) == Bottom
    ensures HalfOf(135, 100, 40) == Bottom
  {
  }

  /** The reorder block of `handleDrop`: copy the list, take out the dragged element with
      `splice`, choose the insertion index and put the element back with `splice`. */
  method MoveDragged<T>(orderedChildren: seq<T>, dragIndex: int, index: int, dragPosition: Option<Position>)
    returns (newOrderedChildren: seq<T>)
    requires 0 <= dragIndex < |orderedChildren| && 0 <= index < |orderedChildren|
    ensures newOrderedChildren == Reorder(orderedChildren, dragIndex, index, dragPosition)
    ensures multiset(newOrderedChildren) == multiset(orderedChildren)
  {
    newOrderedChildren := orderedChildren;
    var draggedElement := newOrderedChildren[dragIndex];
    newOrderedChildren := JsArray.Splice(newOrderedChildren, dragIndex, 1, []).0;
    var insertIndex;
    if dragIndex < index {
      insertIndex := if dragPosition == Some(Top) then index - 1 else index;
    } else {
      insertIndex := if dragPosition == Some(Top) then index else index + 1;
    }
    assert insertIndex == InsertIndex(dragIndex, index, dragPosition);
    newOrderedChildren := JsArray.Splice(newOrderedChildren, insertIndex, 0, [draggedElement]).0;
    ReorderIsSplice(orderedChildren, dragIndex, index, dragPosition);
  }

  /** Whether an optional index is absent or an index of a list of length `n`. */
  predicate IndexIn(i: Option<int>, n: nat)
  {
    i.Some? ==> 0 <= i.value < n
  }

  /** The state of one container: the drag session and the order of its items. */
  class SortableContainer<T> {
    var dragIndex: Option<int>
    var overIndex: Option<int>
    var dragPosition: Option<Position>
    var orderedChildren: seq<T>
    /** The items given when the container was created. */
    ghost const children: seq<T>

    /** Every item the container was created with is still present exactly once, the
        recorded indices are indices of the current list, and a recorded hover always comes
        with a recorded half, so the container's drop never meets a null half. */
    ghost predicate Valid()
      reads this
    {
      && multiset(orderedChildren) == multiset(children)
      && |orderedChildren| == |children|
      && IndexIn(dragIndex, |orderedChildren|)
      && IndexIn(overIndex, |orderedChildren|)
      && (overIndex.Some? ==> dragPosition.Some?)
    }

    /** Mounting: no drag, no hover, and the half starts out as top rather than null. */
    constructor (items: seq<T>)
      ensures Valid()
      ensures children == items && orderedChildren == items
      ensures dragIndex == None && overIndex == None && dragPosition == Some(Top)
    {
      dragIndex := None;
      overIndex := None;
      dragPosition := Some(Top);
      orderedChildren := items;
      children := items;
    }

    /** Whether the marker on side `marker` of the item at `index` is shown now. */
    predicate ShowsMarker(index: int, marker: Position)
      reads this
    {
      Shown(dragIndex, overIndex, dragPosition, index, marker)
    }

    /** `handleDragStart`: records the dragged item, replacing any drag already recorded. */
    method DragStart(index: int)
      requires Valid()
      requires 0 <= index < |orderedChildren|
      modifies this`dragIndex
      ensures Valid()
      ensures dragIndex == Some(index)
    {
      dragIndex := Some(index);
    }

    /** `handleDragOver`: records the hovered item and the half the pointer is over. */
    method DragOver(index: int, pointerY: int, rectTop: int, rectHeight: int)
      requires Valid()
      requires 0 <= index < |orderedChildren|
      requires rectHeight >= 0
      modifies this`overIndex, this`dragPosition
      ensures Valid()
      ensures overIndex == Some(index)
      ensures dragPosition == Some(HalfOf(pointerY, rectTop, rectHeight))
    {
      overIndex := Some(index);
      var relativePosition := pointerY - rectTop;
      if 2 * relativePosition < rectHeight {
        dragPosition := Some(Top);
      } else {
        dragPosition := Some(Bottom);
      }
    }

    /** `handleDrop`: when a drag is recorded, moves the dragged item next to the item at
        `index`; in every case ends the session. */
    method Drop(index: int)
      requires Valid()
      requires 0 <= index < |orderedChildren|
      modifies this`dragIndex, this`overIndex, this`dragPosition, this`orderedChildren
      ensures Valid()
      ensures orderedChildren == match old(dragIndex)
                                 case Some(d) => Reorder(old(orderedChildren), d, index, old(dragPosition))
                                 case None => old(orderedChildren)
      ensures dragIndex == None && overIndex == None && dragPosition == None
      ensures forall i: int, m: Position :: !ShowsMarker(i, m)
    {
      overIndex := None;
      if dragIndex.Some? {
        orderedChildren := MoveDragged(orderedChildren, dragIndex.value, index, dragPosition);
      }
      dragIndex := None;
      dragPosition := None;
    }

    /** The container's drop handler: drops on the hovered item when there is one, and
        otherwise does nothing at all. */
    method ContainerDrop()
      requires Valid()
      modifies this`dragIndex, this`overIndex, this`dragPosition, this`orderedChildren
      ensures Valid()
      ensures old(overIndex).None? ==> unchanged(this)
      ensures old(overIndex).Some? ==>
        && orderedChildren == (match old(dragIndex)
                               case Some(d) => Reorder(old(orderedChildren), d, old(overIndex).value, old(dragPosition))
                               case None => old(orderedChildren))
        && dragIndex == None && overIndex == None && dragPosition == None
    {
      if overIndex.Some? {
        Drop(overIndex.value);
      }
    }
  }

  /** A whole drag of the first of four items onto the top half of the third, followed by
      a drop outside any hovered item which leaves everything as it is. */
  method DragScenario<T>(a: T, b: T, c: T, d: T)
  {
    var container := new SortableContainer([a, b, c, d]);
    container.DragStart(0);
    container.DragOver(2, 115, 100, 40);
    assert container.dragPosition == Some(Top);
    assert container.ShowsMarker(2, Top);
    assert !container.ShowsMarker(2, Bottom) && !container.ShowsMarker(0, Top);
    container.ContainerDrop();
    DropFirstOnThirdTop(a, b, c, d);
    assert container.orderedChildren == [b, a, c, d];
    assert container.dragIndex == None && container.overIndex == None;
    container.ContainerDrop();
    assert container.orderedChildren == [b, a, c, d];
  }

}
