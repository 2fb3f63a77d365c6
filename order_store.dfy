/**
 * The positional reorder of `handleDrop`: remove the dragged item, compute the insertion
 * index from (drag index, target index, half) and re-insert the item with `splice`.
 */
module OrderStore {
  import opened Wrappers
  import opened JsArray

  /** The half of the hovered item the pointer is over (`"top"` / `"bottom"`). */
  datatype Position = Top | Bottom

  /** The insertion index, in the list with the dragged item already removed. Only an
      explicit `Some(Top)` counts as top: a null position behaves as `"bottom"`. */
  function InsertIndex(dragIndex: int, index: int, dragPosition: Option<Position>): (r: int)
    ensures 0 <= dragIndex && 0 <= index ==> 0 <= r
    ensures r <= index + 1
    ensures dragIndex < index ==> r <= index
  {
    if dragIndex < index then
      (if dragPosition == Some(Top) then index - 1 else index)
    else
      (if dragPosition == Some(Top) then index else index + 1)
  }

  /** The list without the element at `i`. */
  function RemoveAt<T>(s: seq<T>, i: nat): (r: seq<T>)
    requires i < |s|
    ensures |r| == |s| - 1
  {
    s[..i] + s[i + 1..]
  }

  /** Removing an element loses exactly that element. */
  lemma RemoveAtMultiset<T>(s: seq<T>, i: nat)
    requires i < |s|
    ensures multiset(RemoveAt(s, i)) + multiset{s[i]} == multiset(s)
  {
    assert s == s[..i] + [s[i]] + s[i + 1..];
  }

  /** The list with `x` inserted at position `p`. */
  function InsertAt<T>(t: seq<T>, p: nat, x: T): (r: seq<T>)
    requires p <= |t|
    ensures |r| == |t| + 1 && r[p] == x
  {
    t[..p] + [x] + t[p..]
  }

  /** Inserting and removing at the same position gives back the list, and the inserted
      element is the only one added. */
  lemma InsertAtInverse<T>(t: seq<T>, p: nat, x: T)
    requires p <= |t|
    ensures RemoveAt(InsertAt(t, p, x), p) == t
    ensures multiset(InsertAt(t, p, x)) == multiset(t) + multiset{x}
  {
    var r := InsertAt(t, p, x);
    assert RemoveAt(r, p) == t[..p] + t[p..];
    assert t[..p] + t[p..] == t;
  }

  /** Where the dragged item ends up in the result: `splice` appends when the insertion
      index equals the length of the shortened list. */
  function Landing(n: nat, dragIndex: int, index: int, dragPosition: Option<Position>): (p: nat)
    requires 0 <= dragIndex < n && 0 <= index < n
    ensures p < n
    ensures 0 <= InsertIndex(dragIndex, index, dragPosition) <= n
    ensures InsertIndex(dragIndex, index, dragPosition) < n ==> p == InsertIndex(dragIndex, index, dragPosition)
    ensures InsertIndex(dragIndex, index, dragPosition) == n ==> p == n - 1
  {
    var k := InsertIndex(dragIndex, index, dragPosition);
    if k < n - 1 then k else n - 1
  }

  /** The new order after dropping the item at `dragIndex` on the given half of the item at `index`. */
  function Reorder<T>(s: seq<T>, dragIndex: int, index: int, dragPosition: Option<Position>): (r: seq<T>)
    requires 0 <= dragIndex < |s| && 0 <= index < |s|
    ensures |r| == |s|
    ensures multiset(r) == multiset(s)
    ensures var p := Landing(|s|, dragIndex, index, dragPosition);
      r[p] == s[dragIndex] && RemoveAt(r, p) == RemoveAt(s, dragIndex)
  {
    var p := Landing(|s|, dragIndex, index, dragPosition);
    RemoveAtMultiset(s, dragIndex);
    InsertAtInverse(RemoveAt(s, dragIndex), p, s[dragIndex]);
    InsertAt(RemoveAt(s, dragIndex), p, s[dragIndex])
  }

  /** The reorder is what the two `splice` calls of the drop handler compute: remove one
      element at the drag index, then insert it at the insertion index. */
  lemma ReorderIsSplice<T>(s: seq<T>, dragIndex: int, index: int, dragPosition: Option<Position>)
    requires 0 <= dragIndex < |s| && 0 <= index < |s|
    ensures var shortened := Splice(s, dragIndex, 1, []).0;
      Splice(shortened, InsertIndex(dragIndex, index, dragPosition), 0, [s[dragIndex]]).0
        == Reorder(s, dragIndex, index, dragPosition)
  {
    SpliceRemovesOne(s, dragIndex);
    SpliceInsertsOne(RemoveAt(s, dragIndex), InsertIndex(dragIndex, index, dragPosition), s[dragIndex]);
  }

  /** `splice(i, 1)` on an index of the list removes exactly that element. */
  lemma SpliceRemovesOne<T>(s: seq<T>, i: nat)
    requires i < |s|
    ensures Splice(s, i, 1, []).0 == RemoveAt(s, i)
    ensures Splice(s, i, 1, []).1 == [s[i]]
  {
    var r := Splice(s, i, 1, []);
    assert r.0 == s[..i] + s[i + 1..];
  }

  /** `splice(k, 0, x)` with `k >= 0` inserts `x` at `k`, or appends it when `k` is past the end. */
  lemma SpliceInsertsOne<T>(t: seq<T>, k: int, x: T)
    requires 0 <= k
    ensures Splice(t, k, 0, [x]).0 == InsertAt(t, if k < |t| then k else |t|, x)
  {
    var p := if k < |t| then k else |t|;
    var r := Splice(t, k, 0, [x]).0;
    assert r == t[..p] + [x] + t[p..];
  }

  /** A null drag position acts as the bottom half. */
  lemma NullPositionActsAsBottom<T>(s: seq<T>, dragIndex: int, index: int)
    requires 0 <= dragIndex < |s| && 0 <= index < |s|
    ensures Reorder(s, dragIndex, index, None) == Reorder(s, dragIndex, index, Some(Bottom))
  {
  }

  /** An independent description of a move: the element at `from` goes to `to` and the
      elements between them close up by one place. */
  function Moved<T>(s: seq<T>, from: nat, to: nat): (r: seq<T>)
    requires from < |s| && to < |s|
    ensures |r| == |s|
  {
    seq(|s|, j requires 0 <= j < |s| =>
      if j == to then s[from]
      else if from <= j < to then s[j + 1]
      else if to < j <= from then s[j - 1]
      else s[j])
  }

  /** The reorder is exactly the move of the dragged item to its landing position. */
  lemma ReorderIsMove<T>(s: seq<T>, dragIndex: int, index: int, dragPosition: Option<Position>)
    requires 0 <= dragIndex < |s| && 0 <= index < |s|
    ensures Reorder(s, dragIndex, index, dragPosition)
         == Moved(s, dragIndex, Landing(|s|, dragIndex, index, dragPosition))
  {
    var r := Reorder(s, dragIndex, index, dragPosition);
    var p := Landing(|s|, dragIndex, index, dragPosition);
    var m := Moved(s, dragIndex, p);
    var t := RemoveAt(s, dragIndex);
    assert RemoveAt(r, p) == t;
    forall j | 0 <= j < |s| ensures r[j] == m[j] {
      if j < p {
        assert r[j] == RemoveAt(r, p)[j] == t[j];
      } else if j > p {
        assert r[j] == RemoveAt(r, p)[j - 1] == t[j - 1];
      }
    }
  }

  /** Dropping an item on a different item puts it directly above the target on the top
      half and directly below it on the bottom half (a null position acting as bottom). */
  lemma LandsBesideTarget<T>(s: seq<T>, dragIndex: int, index: int, dragPosition: Option<Position>)
    requires 0 <= dragIndex < |s| && 0 <= index < |s| && dragIndex != index
    ensures var r := Reorder(s, dragIndex, index, dragPosition);
      var p := Landing(|s|, dragIndex, index, dragPosition);
      && r[p] == s[dragIndex]
      && (dragPosition == Some(Top) ==> p + 1 < |s| && r[p + 1] == s[index])
      && (dragPosition != Some(Top) ==> 0 < p && r[p - 1] == s[index])
  {
    var r := Reorder(s, dragIndex, index, dragPosition);
    var p := Landing(|s|, dragIndex, index, dragPosition);
    SameRestAt(r, p, s, dragIndex, index);
    // the target's index once the dragged item is removed
    var q := if index < dragIndex then index else index - 1;
    assert dragPosition == Some(Top) ==> p == q;
    assert dragPosition != Some(Top) ==> p == q + 1;
  }

  /** Dropping an item on the top half of itself changes nothing. */
  lemma SelfDropTopIsIdentity<T>(s: seq<T>, i: int)
    requires 0 <= i < |s|
    ensures Reorder(s, i, i, Some(Top)) == s
  {
    ReorderIsMove(s, i, i, Some(Top));
  }

  /** Dropping an item on the bottom half of itself (or with a null position) swaps it with
      the next item; on the last item it changes nothing. */
  lemma SelfDropBottomShiftsDown<T>(s: seq<T>, i: int, dragPosition: Option<Position>)
    requires 0 <= i < |s| && dragPosition != Some(Top)
    ensures i + 1 < |s| ==> Reorder(s, i, i, dragPosition) == s[..i] + [s[i + 1], s[i]] + s[i + 2..]
    ensures i + 1 == |s| ==> Reorder(s, i, i, dragPosition) == s
  {
    var r := Reorder(s, i, i, dragPosition);
    ReorderIsMove(s, i, i, dragPosition);
    if i + 1 < |s| {
      var w := s[..i] + [s[i + 1], s[i]] + s[i + 2..];
      assert forall j :: 0 <= j < |s| ==> r[j] == w[j];
    } else {
      assert forall j :: 0 <= j < |s| ==> r[j] == s[j];
    }
  }

  /** Moving the dragged item leaves every other item in its relative order: an item of
      the input that is not the dragged one is found in the result at the position it has
      in the shortened list, shifted past the landing position. */
  lemma OthersKeepOrder<T>(s: seq<T>, dragIndex: int, index: int, dragPosition: Option<Position>, a: nat, b: nat)
    requires 0 <= dragIndex < |s| && 0 <= index < |s|
    requires a < b < |s| && a != dragIndex && b != dragIndex
    ensures var r := Reorder(s, dragIndex, index, dragPosition);
      var p := Landing(|s|, dragIndex, index, dragPosition);
      var ra := ResultPosition(a, dragIndex, p);
      var rb := ResultPosition(b, dragIndex, p);
      ra < rb < |s| && ra != p && rb != p && r[ra] == s[a] && r[rb] == s[b]
  {
    var r := Reorder(s, dragIndex, index, dragPosition);
    var p := Landing(|s|, dragIndex, index, dragPosition);
    var t := RemoveAt(s, dragIndex);
    var rest := RemoveAt(r, p);
    assert rest == t;
    ResultPositionAt(s, dragIndex, index, dragPosition, a);
    ResultPositionAt(s, dragIndex, index, dragPosition, b);
  }

  /** The position in the result of the item at `j != from` of the input, when the item at
      `from` lands at `p`. */
  function ResultPosition(j: nat, from: nat, p: nat): nat
    requires j != from
  {
    var j' := if j < from then j else j - 1;
    if j' < p then j' else j' + 1
  }

  lemma ResultPositionAt<T>(s: seq<T>, dragIndex: int, index: int, dragPosition: Option<Position>, j: nat)
    requires 0 <= dragIndex < |s| && 0 <= index < |s|
    requires j < |s| && j != dragIndex
    ensures var p := Landing(|s|, dragIndex, index, dragPosition);
      var rj := ResultPosition(j, dragIndex, p);
      rj < |s| && rj != p && Reorder(s, dragIndex, index, dragPosition)[rj] == s[j]
  {
    var r := Reorder(s, dragIndex, index, dragPosition);
    var p := Landing(|s|, dragIndex, index, dragPosition);
    SameRestAt(r, p, s, dragIndex, j);
  }

  /** When two lists agree once one element is removed from each, the other elements
      correspond position by position. */
  lemma SameRestAt<T>(r: seq<T>, p: nat, s: seq<T>, from: nat, j: nat)
    requires p < |r| && from < |s| && |r| == |s|
    requires RemoveAt(r, p) == RemoveAt(s, from)
    requires j < |s| && j != from
    ensures var rj := ResultPosition(j, from, p);
      rj < |r| && rj != p && r[rj] == s[j]
  {
    var t := RemoveAt(s, from);
    var rest := RemoveAt(r, p);
    var j' := if j < from then j else j - 1;
    assert t[j'] == s[j];
    if j' < p {
      assert r[j'] == rest[j'];
    } else {
      assert r[j' + 1] == rest[j'];
    }
  }

  /** A drop whose landing position and shortened list are known gives the expected list. */
  lemma ReorderFrom<T>(s: seq<T>, dragIndex: int, index: int, dragPosition: Option<Position>,
                       p: nat, t: seq<T>, expected: seq<T>)
    requires 0 <= dragIndex < |s| && 0 <= index < |s|
    requires Landing(|s|, dragIndex, index, dragPosition) == p
    requires RemoveAt(s, dragIndex) == t && p <= |t|
    requires t[..p] + [s[dragIndex]] + t[p..] == expected
    ensures Reorder(s, dragIndex, index, dragPosition) == expected
  {
  }

  /** Four drops on the list [A, B, C, D]; first, from the first item onto the top half
      of the third. */
  lemma DropFirstOnThirdTop<T>(a: T, b: T, c: T, d: T)
    ensures Reorder([a, b, c, d], 0, 2, Some(Top)) == [b, a, c, d]
  {
    var s := [a, b, c, d];
    assert RemoveAt(s, 0) == [b, c, d];
    ReorderFrom(s, 0, 2, Some(Top), 1, [b, c, d], [b, a, c, d]);
  }

  /** From the first item onto the bottom half of the third. */
  lemma DropFirstOnThirdBottom<T>(a: T, b: T, c: T, d: T)
    ensures Reorder([a, b, c, d], 0, 2, Some(Bottom)) == [b, c, a, d]
  {
    var s := [a, b, c, d];
    assert RemoveAt(s, 0) == [b, c, d];
    ReorderFrom(s, 0, 2, Some(Bottom), 2, [b, c, d], [b, c, a, d]);
  }

  /** From the last item onto the top half of the second. */
  lemma DropLastOnSecondTop<T>(a: T, b: T, c: T, d: T)
    ensures Reorder([a, b, c, d], 3, 1, Some(Top)) == [a, d, b, c]
  {
    var s := [a, b, c, d];
    assert RemoveAt(s, 3) == [a, b, c];
    ReorderFrom(s, 3, 1, Some(Top), 1, [a, b, c], [a, d, b, c]);
  }

  /** From the last item onto the bottom half of the second. */
  lemma DropLastOnSecondBottom<T>(a: T, b: T, c: T, d: T)
    ensures Reorder([a, b, c, d], 3, 1, Some(Bottom)) == [a, b, d, c]
  {
    var s := [a, b, c, d];
    assert RemoveAt(s, 3) == [a, b, c];
    ReorderFrom(s, 3, 1, Some(Bottom), 2, [a, b, c], [a, b, d, c]);
  }

  /** From the last item onto the bottom half of itself: `splice` appends at the end. */
  lemma DropLastOnItselfBottom<T>(a: T, b: T, c: T, d: T)
    ensures Reorder([a, b, c, d], 3, 3, Some(Bottom)) == [a, b, c, d]
  {
    var s := [a, b, c, d];
    assert RemoveAt(s, 3) == [a, b, c];
    ReorderFrom(s, 3, 3, Some(Bottom), 3, [a, b, c], [a, b, c, d]);
  }

}
