/**
  The two Array.prototype methods the article controller relies on, with the
  semantics ECMAScript 2015 gives them: `findIndex` (section 22.1.3.9) and
  `splice` (section 22.1.3.25). Arrays are dense, so an array is a `seq`.
 */
module JsArray {

  function Min(a: int, b: int): int { if a <= b then a else b }

  function Max(a: int, b: int): int { if a <= b then b else a }

  /** What a call of `splice` leaves behind: the array after the call, and the
      array of removed elements that the call returns. */
  datatype Spliced<T> = Spliced(elements: seq<T>, removed: seq<T>)

  /** The scan of `findIndex` from position `from` on: the first position whose
      element satisfies `p`, or -1 when there is none. */
  function FindIndexFrom<T>(a: seq<T>, p: T -> bool, from: nat): (i: int)
    requires from <= |a|
    ensures -1 <= i < |a|
    ensures i != -1 ==> from <= i && p(a[i])
    ensures forall j :: from <= j < |a| && (i == -1 || j < i) ==> !p(a[j])
    decreases |a| - from
  {
    if from == |a| then -1
    else if p(a[from]) then from
    else FindIndexFrom(a, p, from + 1)
  }

  /** `a.findIndex(p)`: the least index whose element satisfies `p`, or -1. */
  function FindIndex<T>(a: seq<T>, p: T -> bool): (i: int)
    ensures -1 <= i < |a|
    ensures i != -1 ==> p(a[i]) && forall j :: 0 <= j < i ==> !p(a[j])
    ensures i == -1 <==> forall j :: 0 <= j < |a| ==> !p(a[j])
  {
    FindIndexFrom(a, p, 0)
  }

  /** The start of `splice`: a relative start is counted from the end when it is
      negative, and clamped into 0..len either way. */
  function ActualStart(len: nat, relativeStart: int): (k: nat)
    ensures k <= len
  {
    if relativeStart < 0 then Max(len + relativeStart, 0) else Min(relativeStart, len)
  }

  /** The delete count of `splice`, clamped into 0..len-actualStart. */
  function ActualDeleteCount(len: nat, actualStart: nat, deleteCount: int): (d: nat)
    requires actualStart <= len
    ensures d <= len - actualStart
  {
    Min(Max(deleteCount, 0), len - actualStart)
  }

  /** `a.splice(start, deleteCount, ...items)` in closed form: the elements from
      the actual start on that are deleted are returned, and `items` take their
      place. */
  function Splice<T>(a: seq<T>, start: int, deleteCount: int, items: seq<T>): (r: Spliced<T>)
    ensures var k := ActualStart(|a|, start);
            var d := ActualDeleteCount(|a|, k, deleteCount);
            && |r.removed| == d
            && |r.elements| == |a| - d + |items|
            && r.elements[..k] == a[..k]
            && r.elements[k..k + |items|] == items
            && r.elements[k + |items|..] == a[k + d..]
            && r.removed == a[k..k + d]
  {
    var k := ActualStart(|a|, start);
    var d := ActualDeleteCount(|a|, k, deleteCount);
    Spliced(a[..k] + items + a[k + d..], a[k..k + d])
  }

  /** Splicing the removed elements back in where the items went restores the
      original array, and that second call returns exactly the items. */
  lemma SpliceUndo<T>(a: seq<T>, start: int, deleteCount: int, items: seq<T>)
    ensures var r := Splice(a, start, deleteCount, items);
            Splice(r.elements, ActualStart(|a|, start), |items|, r.removed) == Spliced(a, items)
  {
    var r := Splice(a, start, deleteCount, items);
    var k := ActualStart(|a|, start);
    var d := ActualDeleteCount(|a|, k, deleteCount);
    assert ActualStart(|r.elements|, k) == k;
    assert ActualDeleteCount(|r.elements|, k, |items|) == |items|;
    var u := Splice(r.elements, k, |items|, r.removed);
    assert u.elements == a[..k] + a[k..k + d] + a[k + d..];
    assert a == a[..k] + a[k..k + d] + a[k + d..];
  }

  /** `a.splice(i, 1, x)` with i inside the array overwrites position i and
      returns the old element. */
  lemma SpliceReplaceInside<T>(a: seq<T>, i: int, x: T)
    requires 0 <= i < |a|
    ensures Splice(a, i, 1, [x]) == Spliced(a[i := x], [a[i]])
  {
    var r := Splice(a, i, 1, [x]);
    assert r.elements == a[..i] + [x] + a[i + 1..];
  }

  /** `a.splice(-1, 1, x)` overwrites the last element of a non-empty array. */
  lemma SpliceReplaceLast<T>(a: seq<T>, x: T)
    requires |a| > 0
    ensures Splice(a, -1, 1, [x]).elements == a[|a| - 1 := x]
  {
    SpliceReplaceInside(a, |a| - 1, x);
  }

  /** On an empty array `splice(i, 1, x)` deletes nothing and inserts x,
      whatever i is. */
  lemma SpliceEmptyInserts<T>(i: int, x: T)
    ensures Splice([], i, 1, [x]) == Spliced([x], [])
  {
    assert ActualStart(0, i) == 0;
    assert ActualDeleteCount(0, 0, 1) == 0;
    var e: seq<T> := [];
    assert e[..0] + [x] + e[0..] == [x];
  }

  /** `a.splice(i, 1)` with i inside the array removes exactly position i. */
  lemma SpliceRemoveInside<T>(a: seq<T>, i: int)
    requires 0 <= i < |a|
    ensures Splice(a, i, 1, []) == Spliced(a[..i] + a[i + 1..], [a[i]])
  {
  }

  /** `a.splice(i, 1)` with a negative i removes the element i places from the
      end, or the first element when i reaches past the start. */
  lemma SpliceRemoveNegative<T>(a: seq<T>, i: int)
    requires i < 0 && |a| > 0
    ensures var j := Max(|a| + i, 0);
            Splice(a, i, 1, []) == Spliced(a[..j] + a[j + 1..], [a[j]])
  {
    SpliceRemoveInside(a, Max(|a| + i, 0));
  }

  /** `a.splice(i, 1)` with i at or past the end changes nothing. */
  lemma SpliceRemoveBeyondEnd<T>(a: seq<T>, i: int)
    requires i >= |a|
    ensures Splice(a, i, 1, []) == Spliced(a, [])
  {
  }
}
