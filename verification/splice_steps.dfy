/**
  `Array.prototype.splice` as the algorithm of section 22.1.3.25 of ECMAScript
  2015 writes it: the array object is a map from index to element, elements
  are moved one property at a time, surplus trailing properties are deleted
  and the length is set last. `Splice` proves that the step-by-step
  algorithm computes the closed form `JsArray.Splice`.
 */
module SpliceSteps {
  import opened JsArray

  /** The indexed properties of a dense array of the elements of `a`. */
  function Properties<T>(a: seq<T>): (o: map<int, T>)
    ensures forall j :: j in o <==> 0 <= j < |a|
    ensures forall j :: 0 <= j < |a| ==> o[j] == a[j]
  {
    map j | 0 <= j < |a| :: a[j]
  }

  /** The object after the tail has been moved: keys 0 .. len-d+c-1, except
      those from len up to the start of the items; below the end of the items
      the original elements, from there on the tail shifted by c - d. */
  ghost predicate Shifted<T>(o: map<int, T>, a: seq<T>, s: nat, d: nat, c: nat)
    requires s + d <= |a|
  {
    && (forall j :: j in o <==> 0 <= j < |a| - d + c && (j < |a| || s + c <= j))
    && (forall j :: j in o && j < s + c ==> o[j] == a[j])
    && (forall j :: j in o && s + c <= j ==> o[j] == a[j - c + d])
  }

  /** itemCount < actualDeleteCount: move the tail down, front to
      back; each property is read before anything is written over it. */
  method MoveTailDown<T>(a: seq<T>, s: nat, d: nat, c: nat) returns (o: map<int, T>)
    requires s + d <= |a| && c < d
    ensures forall j :: j in o <==> 0 <= j < |a|
    ensures forall j :: 0 <= j < s + c ==> o[j] == a[j]
    ensures forall j :: s + c <= j < |a| - d + c ==> o[j] == a[j - c + d]
  {
    var len := |a|;
    o := Properties(a);
    var k := s;
    while k < len - d
      invariant s <= k <= len - d
      invariant forall j :: j in o <==> 0 <= j < len
      invariant forall j :: 0 <= j < s + c ==> o[j] == a[j]
      invariant forall j :: s + c <= j < k + c ==> o[j] == a[j - c + d]
      invariant forall j :: k + c <= j < len ==> o[j] == a[j]
    {
      var from := k + d;
      var to := k + c;
      assert o[from] == a[to - c + d];
      o := o[to := o[from]];
      k := k + 1;
    }
  }

  /** Delete the properties from `newLength` up to `len`, back to
      front. */
  method DeleteTail<T>(o: map<int, T>, len: nat, newLength: nat) returns (o': map<int, T>)
    requires newLength <= len
    requires forall j :: j in o <==> 0 <= j < len
    ensures forall j :: j in o' <==> 0 <= j < newLength
    ensures forall j :: 0 <= j < newLength ==> o'[j] == o[j]
  {
    o' := o;
    var k := len;
    while k > newLength
      invariant newLength <= k <= len
      invariant forall j :: j in o' <==> 0 <= j < k
      invariant forall j :: 0 <= j < k ==> o'[j] == o[j]
    {
      o' := o' - {k - 1};
      k := k - 1;
    }
  }

  /** itemCount < actualDeleteCount: move the tail down and delete the
      surplus properties at the end. */
  method ShiftDown<T>(a: seq<T>, s: nat, d: nat, c: nat) returns (o: map<int, T>)
    requires s + d <= |a| && c < d
    ensures Shifted(o, a, s, d, c)
  {
    var moved := MoveTailDown(a, s, d, c);
    o := DeleteTail(moved, |a|, |a| - d + c);
  }

  /** itemCount > actualDeleteCount: move the tail up, back to
      front, so that no element is overwritten before it is read. */
  method ShiftUp<T>(a: seq<T>, s: nat, d: nat, c: nat) returns (o: map<int, T>)
    requires s + d <= |a| && c > d
    ensures Shifted(o, a, s, d, c)
  {
    var len := |a|;
    o := Properties(a);
    var k := len - d;
    while k > s
      invariant s <= k <= len - d
      invariant forall j :: j in o <==> 0 <= j < len || k + c <= j < len - d + c
      invariant forall j :: 0 <= j < len && j < k + c ==> o[j] == a[j]
      invariant forall j :: k + c <= j < len - d + c ==> o[j] == a[j - c + d]
    {
      var from := k + d - 1;
      var to := k + c - 1;
      assert o[from] == a[to - c + d];
      o := o[to := o[from]];
      k := k - 1;
    }
  }

  /** The object after the items are stored: the first s elements, then the items, then
      the tail from s + d on, under keys 0 .. len-d+c-1. */
  ghost predicate Stored<T>(o: map<int, T>, a: seq<T>, s: nat, d: nat, items: seq<T>)
    requires s + d <= |a|
  {
    var c := |items|;
    && (forall j :: j in o <==> 0 <= j < |a| - d + c)
    && (forall j :: 0 <= j < s ==> o[j] == a[j])
    && (forall j :: s <= j < s + c ==> o[j] == items[j - s])
    && (forall j :: s + c <= j < |a| - d + c ==> o[j] == a[j - c + d])
  }

  /** Store the items at keys s, s+1, ... */
  method StoreItems<T>(o: map<int, T>, a: seq<T>, s: nat, d: nat, items: seq<T>)
    returns (o': map<int, T>)
    requires s + d <= |a| && Shifted(o, a, s, d, |items|)
    ensures Stored(o', a, s, d, items)
  {
    o' := o;
    var k := 0;
    while k < |items|
      invariant 0 <= k <= |items|
      invariant forall j :: j in o' <==> j in o || s <= j < s + k
      invariant forall j :: s <= j < s + k ==> o'[j] == items[j - s]
      invariant forall j :: j in o && !(s <= j < s + k) ==> o'[j] == o[j]
    {
      o' := o'[s + k := items[k]];
      k := k + 1;
    }
  }

  /** Reads the properties 0 .. n-1 of an array object back into a sequence. */
  method ReadBack<T>(o: map<int, T>, n: nat) returns (elements: seq<T>)
    requires forall j :: 0 <= j < n ==> j in o
    ensures |elements| == n
    ensures forall j :: 0 <= j < n ==> elements[j] == o[j]
  {
    elements := [];
    var k := 0;
    while k < n
      invariant 0 <= k <= n
      invariant |elements| == k
      invariant forall j :: 0 <= j < k ==> elements[j] == o[j]
    {
      elements := elements + [o[k]];
      k := k + 1;
    }
  }

  /** Position j of the closed form of `splice`: before the start the
      original element, then the items, then the tail shifted by c - d. */
  lemma SplicedAt<T>(a: seq<T>, s: nat, d: nat, items: seq<T>, j: nat)
    requires s + d <= |a| && j < |a| - d + |items|
    ensures (a[..s] + items + a[s + d..])[j]
         == if j < s then a[j] else if j < s + |items| then items[j - s] else a[j - |items| + d]
  {
  }

  /** An object laid out as `Stored` describes holds what the closed form of
      `splice` computes. */
  lemma StoredIsSplice<T>(o: map<int, T>, a: seq<T>, start: int, deleteCount: int, items: seq<T>, elements: seq<T>)
    requires var s := ActualStart(|a|, start);
             Stored(o, a, s, ActualDeleteCount(|a|, s, deleteCount), items)
    requires |elements| == |a| - ActualDeleteCount(|a|, ActualStart(|a|, start), deleteCount) + |items|
    requires forall j :: 0 <= j < |elements| ==> elements[j] == o[j]
    ensures elements == JsArray.Splice(a, start, deleteCount, items).elements
  {
    var s := ActualStart(|a|, start);
    var d := ActualDeleteCount(|a|, s, deleteCount);
    var e := a[..s] + items + a[s + d..];
    forall j | 0 <= j < |elements|
      ensures elements[j] == e[j]
    {
      SplicedAt(a, s, d, items, j);
    }
    assert elements == e;
  }

  /** The whole algorithm of `splice(start, deleteCount, ...items)` on an array holding
      `a`: returns the array afterwards and the array of removed elements. */
  method Splice<T>(a: seq<T>, start: int, deleteCount: int, items: seq<T>)
    returns (elements: seq<T>, removed: seq<T>)
    ensures Spliced(elements, removed) == JsArray.Splice(a, start, deleteCount, items)
  {
    var len := |a|;
    var actualStart := ActualStart(len, start);
    var actualDeleteCount := ActualDeleteCount(len, actualStart, deleteCount);
    var o := Properties(a);
    // Collect the deleted elements.
    removed := [];
    var k := 0;
    while k < actualDeleteCount
      invariant 0 <= k <= actualDeleteCount
      invariant removed == a[actualStart..actualStart + k]
    {
      removed := removed + [o[actualStart + k]];
      k := k + 1;
    }
    // Make room for exactly the items.
    var itemCount := |items|;
    if itemCount < actualDeleteCount {
      o := ShiftDown(a, actualStart, actualDeleteCount, itemCount);
    } else if itemCount > actualDeleteCount {
      o := ShiftUp(a, actualStart, actualDeleteCount, itemCount);
    }
    assert Shifted(o, a, actualStart, actualDeleteCount, itemCount);
    // Store the items.
    o := StoreItems(o, a, actualStart, actualDeleteCount, items);
    // Set the new length; the array holds properties 0 .. length-1.
    var newLength := len - actualDeleteCount + itemCount;
    elements := ReadBack(o, newLength);
    StoredIsSplice(o, a, start, deleteCount, items, elements);
  }
}
