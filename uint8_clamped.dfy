/** Storage semantics of a JavaScript `Uint8ClampedArray`.

    Every store into such an array converts the stored number with
    ToUint8Clamp (section 7.1.12 of ECMA-262): clamp to [0, 255], then round
    to the nearest integer, ties to even. A store to an index outside the
    array is ignored (section 10.4.5 of ECMA-262: integer-indexed exotic
    objects drop writes to invalid indices).

    A number is modelled exactly, as an integer count of thousandths `m`
    standing for `m / 1000`. Every number the dithering code stores is of
    that form: a luminance `N / 1000`, or an integer `x`, which is
    `1000 * x` thousandths. */
module Uint8Clamped {

  predicate IsByte(x: int) {
    0 <= x <= 255
  }

  predicate IsBytes(s: seq<int>) {
    forall k :: 0 <= k < |s| ==> IsByte(s[k])
  }

  /** ToUint8Clamp of the number `m / 1000`. */
  function ToUint8Clamp(m: int): (r: int)
    ensures IsByte(r)
    ensures m <= 0 ==> r == 0
    ensures m >= 255000 ==> r == 255
    // strictly inside the range, r is a nearest integer to m / 1000 ...
    ensures 0 < m < 255000 ==> -500 <= m - 1000 * r <= 500
    // ... and a tie (m / 1000 exactly halfway) goes to the even neighbour
    ensures 0 < m < 255000 && (m - 1000 * r == 500 || m - 1000 * r == -500) ==> r % 2 == 0
  {
    if m <= 0 then 0
    else if m >= 255000 then 255
    else
      var f, rem := m / 1000, m % 1000;
      if rem < 500 then f
      else if rem > 500 then f + 1
      else if f % 2 == 0 then f
      else f + 1
  }

  /** The number stored by an integer-valued expression. */
  function Integer(x: int): (r: int) {
    1000 * x
  }

  /** Saturation of an integer to 0..255. */
  function Clamp(x: int): (r: int)
    ensures IsByte(r)
    ensures 0 <= x <= 255 ==> r == x
  {
    if x < 0 then 0 else if x > 255 then 255 else x
  }

  /** An integer store clamps without rounding: it saturates at 0 and 255
      and keeps every value in between. */
  lemma ClampInteger(n: int)
    ensures ToUint8Clamp(Integer(n)) == Clamp(n)
  {
  }

  /** The typed-array compound assignment `plane[k] += delta`: an index
      inside the array gets the clamped sum, any other index is ignored. */
  function AddAt(plane: seq<int>, k: int, delta: int): (r: seq<int>)
    ensures |r| == |plane|
  {
    if 0 <= k < |plane| then plane[k := Clamp(plane[k] + delta)] else plane
  }

  /** What `plane[k] += delta` does to each index: the target, when it lies
      inside the plane, gets the clamped sum; every other index keeps its
      byte; a plane of bytes stays one. */
  lemma AddAtIndex(plane: seq<int>, k: int, delta: int)
    ensures forall j :: 0 <= j < |plane| && j != k ==> AddAt(plane, k, delta)[j] == plane[j]
    ensures 0 <= k < |plane| ==> AddAt(plane, k, delta)[k] == ToUint8Clamp(Integer(plane[k] + delta))
    ensures 0 <= k < |plane| ==> AddAt(plane, k, delta)[k] == Clamp(plane[k] + delta)
    ensures IsBytes(plane) ==> IsBytes(AddAt(plane, k, delta))
  {
    if 0 <= k < |plane| {
      ClampInteger(plane[k] + delta);
    }
  }

  /** `a[k] += delta` on a Uint8ClampedArray. */
  method AddAssign(a: array<int>, k: int, delta: int)
    modifies a
    ensures a[..] == AddAt(old(a[..]), k, delta)
  {
    if 0 <= k < a.Length {
      ClampInteger(a[k] + delta);
      a[k] := ToUint8Clamp(Integer(a[k] + delta));
    }
  }

  /** `a.fill(m / 1000, start, end)` for 0 <= start <= end <= a.Length:
      every index in [start, end) receives ToUint8Clamp(m / 1000). */
  method Fill(a: array<int>, m: int, start: nat, end: nat) returns (value: int)
    requires start <= end <= a.Length
    modifies a
    ensures value == ToUint8Clamp(m)
    ensures forall k :: start <= k < end ==> a[k] == value
    ensures forall k :: 0 <= k < a.Length && !(start <= k < end) ==> a[k] == old(a[k])
  {
    value := ToUint8Clamp(m);
    for k := start to end
      invariant forall j :: start <= j < k ==> a[j] == value
      invariant forall j :: 0 <= j < a.Length && !(start <= j < k) ==> a[j] == old(a[j])
    {
      a[k] := value;
    }
  }

}
