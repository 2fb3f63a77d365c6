/**
 * The part of JavaScript's `Array.prototype.splice` that the reorder engine relies on,
 * as a function on values: it returns the array after the call and the removed elements.
 */
module JsArray {

  /** The index where `splice` starts, for a `start` argument on an array of length `len`:
      negative values count from the end, values past the end are clamped to the end. */
  function SpliceStart(start: int, len: nat): (k: nat)
    ensures k <= len
    ensures 0 <= start <= len ==> k == start
  {
    if start < 0 then (if len + start < 0 then 0 else len + start)
    else if start > len then len
    else start
  }

  /** The number of elements `splice` removes: `deleteCount` clamped to what lies after the start. */
  function DeleteCount(deleteCount: int, len: nat, k: nat): (c: nat)
    requires k <= len
    ensures c <= len - k
    ensures 0 <= deleteCount <= len - k ==> c == deleteCount
  {
    if deleteCount < 0 then 0
    else if deleteCount > len - k then len - k
    else deleteCount
  }

  /** `s.splice(start, deleteCount, ...items)`: the pair (array afterwards, removed elements). */
  function Splice<T>(s: seq<T>, start: int, deleteCount: int, items: seq<T>): (r: (seq<T>, seq<T>))
    ensures |r.1| == DeleteCount(deleteCount, |s|, SpliceStart(start, |s|))
    ensures |r.0| == |s| - |r.1| + |items|
    ensures var k := SpliceStart(start, |s|);
      && r.0[..k] == s[..k]
      && r.0[k..k + |items|] == items
      && r.0[k + |items|..] == s[k + |r.1|..]
      && r.1 == s[k..k + |r.1|]
    ensures multiset(r.0) + multiset(r.1) == multiset(s) + multiset(items)
  {
    var k := SpliceStart(start, |s|);
    var c := DeleteCount(deleteCount, |s|, k);
    var after := s[..k] + items + s[k + c..];
    assert s == s[..k] + s[k..k + c] + s[k + c..];
    assert after[..k] == s[..k];
    assert after[k..k + |items|] == items;
    assert after[k + |items|..] == s[k + c..];
    (after, s[k..k + c])
  }

}
