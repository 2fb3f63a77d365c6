/**
 * When the container shows a drop indicator: above the hovered item for the top half,
 * below it for the bottom half, and only while a drag is hovering over another item.
 */
module Indicators {
  import opened Wrappers
  import opened OrderStore

  /** Whether the marker on side `marker` of the item at `index` is shown, in the session
      state (`dragIndex`, `overIndex`, `dragPosition`). The test agrees with the single
      active marker, so at most one marker is shown, and none without a drag, a hover or a
      half, or while the dragged item hovers over itself. */
  function Shown(dragIndex: Option<int>, overIndex: Option<int>, dragPosition: Option<Position>,
                 index: int, marker: Position): (shown: bool)
    ensures shown <==> ActiveMarker(dragIndex, overIndex, dragPosition) == Some((index, marker))
  {
    && dragIndex != overIndex
    && dragIndex.Some?
    && overIndex.Some?
    && index == overIndex.value
    && dragPosition == Some(marker)
  }

  /** The one marker the session calls for, described case by case: none unless a drag
      hovers over a different item with a known half. */
  function ActiveMarker(dragIndex: Option<int>, overIndex: Option<int>, dragPosition: Option<Position>)
    : Option<(int, Position)>
  {
    match (dragIndex, overIndex, dragPosition)
    case (Some(d), Some(o), Some(p)) => if d == o then None else Some((o, p))
    case _ => None
  }

  /** The markers shown while rendering the first `n` items, in render order (above an
      item, then below it). */
  function MarkersShown(dragIndex: Option<int>, overIndex: Option<int>, dragPosition: Option<Position>,
                        n: nat): (r: seq<(int, Position)>)
    ensures r == ActiveAmong(ActiveMarker(dragIndex, overIndex, dragPosition), n)
  {
    if n == 0 then []
    else
      var i := n - 1;
      MarkersAtItem(dragIndex, overIndex, dragPosition, i);
      MarkersShown(dragIndex, overIndex, dragPosition, i)
      + (if Shown(dragIndex, overIndex, dragPosition, i, Top) then [(i, Top)] else [])
      + (if Shown(dragIndex, overIndex, dragPosition, i, Bottom) then [(i, Bottom)] else [])
  }

  /** The active marker as a list, when it belongs to one of the first `n` items. */
  function ActiveAmong(active: Option<(int, Position)>, n: nat): seq<(int, Position)>
  {
    if active.Some? && 0 <= active.value.0 < n then [active.value] else []
  }

  /** The markers of the item at `i` are the active marker when it is that item's, and
      extend the active markers of the items before it to those up to and including it. */
  lemma MarkersAtItem(dragIndex: Option<int>, overIndex: Option<int>, dragPosition: Option<Position>, i: nat)
    ensures var active := ActiveMarker(dragIndex, overIndex, dragPosition);
      ActiveAmong(active, i)
      + (if Shown(dragIndex, overIndex, dragPosition, i, Top) then [(i, Top)] else [])
      + (if Shown(dragIndex, overIndex, dragPosition, i, Bottom) then [(i, Bottom)] else [])
      == ActiveAmong(active, i + 1)
  {
    var active := ActiveMarker(dragIndex, overIndex, dragPosition);
    if active.Some? && active.value.0 == i {
      assert ActiveAmong(active, i) == [];
      if active.value.1 == Top {
        assert !Shown(dragIndex, overIndex, dragPosition, i, Bottom);
      } else {
        assert !Shown(dragIndex, overIndex, dragPosition, i, Top);
      }
    }
  }

  /** Among all the items of the list at most one marker is shown in total. */
  lemma AtMostOneMarker(dragIndex: Option<int>, overIndex: Option<int>, dragPosition: Option<Position>,
                        n: nat)
    ensures |MarkersShown(dragIndex, overIndex, dragPosition, n)| <= 1
    ensures dragIndex == overIndex || dragPosition.None? ==> MarkersShown(dragIndex, overIndex, dragPosition, n) == []
  {
  }

  /** Dragging the first item over the top half of the third of four items shows only
      the marker above the third item. */
  lemma MarkerExample()
    ensures MarkersShown(Some(0), Some(2), Some(Top), 4) == [(2, Top)]
    ensures MarkersShown(Some(2), Some(2), Some(Top), 4) == []
  {
  }

}
