/** The five in-place transforms of main.ts. Each walks the RGBA buffer of
    an `ImageData` four bytes at a time and overwrites R, G and B of every
    pixel with `fill(value, i, i + 3)`; the error diffusers also keep a
    scratch Uint8ClampedArray with one luminance byte per pixel. Every
    method is proved to leave the buffer equal to the matching function of
    DitherSpec applied to the buffer it was given. */
module Dither {
  import opened Uint8Clamped
  import opened DitherSpec

  /** The host's ImageData: a fixed width and height and a
      Uint8ClampedArray of `width * height * 4` bytes, RGBA, row-major. */
  class ImageData {
    const width: nat
    const height: nat
    const data: array<int>

    /** The buffer holds exactly `width * height` pixels. Every byte of it
        lies in 0..255, which the methods demand and keep as
        `IsBytes(data[..])`. */
    predicate Valid() {
      data.Length == width * height * 4
    }

    /** `new ImageData(w, h)`: every byte zero (transparent black). */
    constructor (w: nat, h: nat)
      ensures width == w && height == h && fresh(data) && Valid() && IsBytes(data[..])
      ensures forall k :: 0 <= k < data.Length ==> data[k] == 0
    {
      width, height := w, h;
      data := new int[w * h * 4](_ => 0);
    }
  }

  lemma EqualPointwise(a: seq<int>, b: seq<int>)
    requires |a| == |b| && forall k :: 0 <= k < |a| ==> a[k] == b[k]
    ensures a == b
  {
  }

  /** `data.fill(m / 1000, i, i + 3)` at pixel `p == i / 4` of a scan that
      paints `s` with the bytes `v`: when `m / 1000` converts to `v[p]`,
      the painted prefix grows by one pixel and the rest is untouched. */
  method FillPixel(data: array<int>, ghost s: seq<int>, ghost v: seq<int>, i: nat, ghost p: nat, m: int)
    requires data.Length == |s| == 4 * |v| && i == 4 * p && p < |v|
    requires ToUint8Clamp(m) == v[p]
    requires forall k :: 0 <= k < i ==> data[k] == Paint(s, v)[k]
    requires forall k :: i <= k < data.Length ==> data[k] == s[k]
    modifies data
    ensures forall k :: 0 <= k < i + 4 ==> data[k] == Paint(s, v)[k]
    ensures forall k :: i + 4 <= k < data.Length ==> data[k] == s[k]
  {
    ghost var before := data[..];
    var stored := Fill(data, m, i, i + 3);
    PaintStep(s, v, before, data[..], p);
  }

  /** The four `+=` statements of `floydsteinberg` (main.ts:77-80) at
      cell l, with the error of that cell already computed. */
  method SpreadFloydSteinberg(luminance: array<int>, l: nat, width: int, error: int)
    requires l < luminance.Length && error == QuantError(luminance[l], 16)
    modifies luminance
    ensures luminance[..] == Visit(old(luminance[..]), l, FloydSteinbergKernel(width))
  {
    ghost var plane := luminance[..];
    AddAssign(luminance, l + 1, error * 7);
    ghost var p1 := luminance[..];
    AddAssign(luminance, l + width - 1, error * 3);
    ghost var p2 := luminance[..];
    AddAssign(luminance, l + width, error * 5);
    ghost var p3 := luminance[..];
    AddAssign(luminance, l + width + 1, error * 1);
    FloydSteinbergVisit(plane, p1, p2, p3, luminance[..], l, width, error);
  }

  /** The six `+=` statements of `atkinson` (main.ts:103-108) at cell l. */
  method SpreadAtkinson(luminance: array<int>, l: nat, width: int, error: int)
    requires l < luminance.Length && error == QuantError(luminance[l], 8)
    modifies luminance
    ensures luminance[..] == Visit(old(luminance[..]), l, AtkinsonKernel(width))
  {
    ghost var plane := luminance[..];
    AddAssign(luminance, l + 1, error);
    ghost var p1 := luminance[..];
    AddAssign(luminance, l + 2, error);
    ghost var p2 := luminance[..];
    AddAssign(luminance, l + width - 1, error);
    ghost var p3 := luminance[..];
    AddAssign(luminance, l + width, error);
    ghost var p4 := luminance[..];
    AddAssign(luminance, l + width + 1, error);
    ghost var p5 := luminance[..];
    AddAssign(luminance, l + 2 * width, error);
    AtkinsonVisit(plane, p1, p2, p3, p4, p5, luminance[..], l, width, error);
  }

  /** `grayscale` (main.ts:6-12). The luminance is stored with `fill`, so
      each colour byte receives ToUint8Clamp of the exact `N / 1000`. */
  method Grayscale(image: ImageData)
    requires image.Valid() && IsBytes(image.data[..])
    modifies image.data
    ensures IsBytes(image.data[..])
    ensures image.data[..] == Grayscaled(old(image.data[..]))
    ensures SameAlpha(old(image.data[..]), image.data[..])
  {
    var data := image.data;
    ghost var s, n := data[..], image.width * image.height;
    ghost var v := LuminancePlane(s);
    var i := 0;
    ghost var p := 0;
    while i < data.Length
      invariant i == 4 * p && p <= n && data.Length == 4 * n
      invariant forall k :: 0 <= k < i ==> data[k] == Paint(s, v)[k]
      invariant forall k :: i <= k < data.Length ==> data[k] == s[k]
    {
      var luminance := Luminance(data[i], data[i + 1], data[i + 2]);
      assert luminance == PixelLuminance(s, p);
      FillPixel(data, s, v, i, p, luminance);
      i, p := i + 4, p + 1;
    }
    EqualPointwise(data[..], Paint(s, v));
    PaintSameAlpha(s, v);
  }

  /** `threshold` (main.ts:21-29). The comparison `luminance < threshold`
      of the exact luminance `N / 1000` is `N < 1000 * threshold`. */
  method Threshold(image: ImageData, threshold: int)
    requires image.Valid() && IsBytes(image.data[..])
    modifies image.data
    ensures IsBytes(image.data[..])
    ensures image.data[..] == Thresholded(old(image.data[..]), threshold)
    ensures SameAlpha(old(image.data[..]), image.data[..])
  {
    var data := image.data;
    ghost var s, n := data[..], image.width * image.height;
    ghost var v := ThresholdValues(s, threshold);
    var i := 0;
    ghost var p := 0;
    while i < data.Length
      invariant i == 4 * p && p <= n && data.Length == 4 * n
      invariant forall k :: 0 <= k < i ==> data[k] == Paint(s, v)[k]
      invariant forall k :: i <= k < data.Length ==> data[k] == s[k]
    {
      var luminance := Luminance(data[i], data[i + 1], data[i + 2]);
      var value := if luminance < 1000 * threshold then 0 else 255;
      assert luminance == PixelLuminance(s, p);
      ClampInteger(value);
      FillPixel(data, s, v, i, p, Integer(value));
      i, p := i + 4, p + 1;
    }
    EqualPointwise(data[..], Paint(s, v));
    PaintSameAlpha(s, v);
  }

  /** `bayer` (main.ts:38-56). The pixel at byte offset i has column
      `x == i / 4 % width` and row `y == floor(i / 4 / width)`; with the
      exact luminance `N / 1000`, `floor((luminance + bias) / 2)` is
      `floor((N + 1000 * bias) / 2000)`. */
  method Bayer(image: ImageData, threshold: int)
    requires image.Valid() && IsBytes(image.data[..])
    modifies image.data
    ensures IsBytes(image.data[..])
    ensures image.data[..] == BayerDithered(old(image.data[..]), image.width, threshold)
    ensures SameAlpha(old(image.data[..]), image.data[..])
  {
    var data := image.data;
    ghost var s, n := data[..], image.width * image.height;
    if image.width == 0 {
      assert n == 0;
    }
    ghost var v := BayerValues(s, image.width, threshold);
    var i := 0;
    ghost var p := 0;
    while i < data.Length
      invariant i == 4 * p && p <= n && data.Length == 4 * n
      invariant forall k :: 0 <= k < i ==> data[k] == Paint(s, v)[k]
      invariant forall k :: i <= k < data.Length ==> data[k] == s[k]
    {
      var luminance := Luminance(data[i], data[i + 1], data[i + 2]);
      assert luminance == PixelLuminance(s, p) && i / 4 == p;
      var x := i / 4 % image.width;
      var y := i / 4 / image.width;
      var mapped := (luminance + 1000 * ThresholdMap[x % 4][y % 4]) / 2000;
      var value := if mapped < threshold then 0 else 255;
      assert value == v[p];
      ClampInteger(value);
      FillPixel(data, s, v, i, p, Integer(value));
      i, p := i + 4, p + 1;
    }
    EqualPointwise(data[..], Paint(s, v));
    PaintSameAlpha(s, v);
  }

  /** Pass 1 of `floydsteinberg` and `atkinson` (main.ts:65-70 and
      main.ts:91-96): a fresh Uint8ClampedArray of `width * height` bytes
      receiving the luminance of every pixel. */
  method LuminancePass(image: ImageData) returns (luminance: array<int>)
    requires image.Valid()
    ensures fresh(luminance)
    ensures luminance[..] == LuminancePlane(image.data[..])
  {
    var data := image.data;
    ghost var s, n := data[..], image.width * image.height;
    ghost var plane := LuminancePlane(s);
    luminance := new int[image.width * image.height](_ => 0);
    var l, i := 0, 0;
    while i < data.Length
      invariant i == 4 * l && l <= n && data.Length == 4 * n && luminance.Length == n
      invariant forall j :: 0 <= j < l ==> luminance[j] == plane[j]
    {
      assert Luminance(data[i], data[i + 1], data[i + 2]) == PixelLuminance(s, l);
      luminance[l] := ToUint8Clamp(Luminance(data[i], data[i + 1], data[i + 2]));
      l, i := l + 1, i + 4;
    }
    EqualPointwise(luminance[..], plane);
  }

  /** One iteration of pass 2 of `floydsteinberg` (main.ts:72-81) at cell l and
      byte offset i: the pixel is painted black or white from its plane
      byte and the quantisation error is spread, so the painted prefix
      grows by one pixel and the plane becomes the plane of cell l + 1. */
  method VisitFloydSteinberg(data: array<int>, luminance: array<int>, width: int, i: nat, l: nat,
                        ghost s: seq<int>, ghost p0: seq<int>)
    requires data != luminance
    requires data.Length == |s| == 4 * |p0| && i == 4 * l && l < |p0|
    requires luminance[..] == PlaneAt(p0, FloydSteinbergKernel(width), l)
    requires forall k :: 0 <= k < i ==> data[k] == Paint(s, DiffusedValues(p0, FloydSteinbergKernel(width)))[k]
    requires forall k :: i <= k < data.Length ==> data[k] == s[k]
    modifies data, luminance
    ensures luminance[..] == PlaneAt(p0, FloydSteinbergKernel(width), l + 1)
    ensures forall k :: 0 <= k < i + 4 ==> data[k] == Paint(s, DiffusedValues(p0, FloydSteinbergKernel(width)))[k]
    ensures forall k :: i + 4 <= k < data.Length ==> data[k] == s[k]
  {
    ghost var v := DiffusedValues(p0, FloydSteinbergKernel(width));
    var value := if luminance[l] < 129 then 0 else 255;
    var error := (luminance[l] - value) / 16;
    DiffusedValueAt(p0, FloydSteinbergKernel(width), l);
    ClampInteger(value);
    FillPixel(data, s, v, i, l, Integer(value));
    SpreadFloydSteinberg(luminance, l, width, error);
  }

  /** `floydsteinberg` (main.ts:63-82). */
  method FloydSteinberg(image: ImageData)
    requires image.Valid() && IsBytes(image.data[..])
    modifies image.data
    ensures IsBytes(image.data[..])
    ensures image.data[..] == FloydSteinbergDithered(old(image.data[..]), image.width)
    ensures SameAlpha(old(image.data[..]), image.data[..])
  {
    ghost var s := image.data[..];
    var luminance := LuminancePass(image);
    DiffusedValuesBytes(luminance[..], FloydSteinbergKernel(image.width));
    PaintSameAlpha(s, DiffusedValues(luminance[..], FloydSteinbergKernel(image.width)));
    FloydSteinbergPass(image.data, luminance, image.width);
  }

  /** Pass 2 of `floydsteinberg` (main.ts:72-81): the raster scan over the plane
      built by pass 1. */
  method FloydSteinbergPass(data: array<int>, luminance: array<int>, width: int)
    requires data != luminance && data.Length == 4 * luminance.Length
    modifies data, luminance
    ensures data[..] == Paint(old(data[..]), DiffusedValues(old(luminance[..]), FloydSteinbergKernel(width)))
  {
    ghost var s, p0, n := data[..], luminance[..], luminance.Length;
    ghost var v := DiffusedValues(p0, FloydSteinbergKernel(width));
    var l, i := 0, 0;
    while i < data.Length
      invariant i == 4 * l && l <= n && data.Length == 4 * n && luminance.Length == n
      invariant luminance[..] == PlaneAt(p0, FloydSteinbergKernel(width), l)
      invariant forall k :: 0 <= k < i ==> data[k] == Paint(s, v)[k]
      invariant forall k :: i <= k < data.Length ==> data[k] == s[k]
    {
      VisitFloydSteinberg(data, luminance, width, i, l, s, p0);
      l, i := l + 1, i + 4;
    }
    EqualPointwise(data[..], Paint(s, v));
  }

  /** One iteration of pass 2 of `atkinson` (main.ts:98-109) at cell l and
      byte offset i: the pixel is painted black or white from its plane
      byte and the quantisation error is spread, so the painted prefix
      grows by one pixel and the plane becomes the plane of cell l + 1. */
  method VisitAtkinson(data: array<int>, luminance: array<int>, width: int, i: nat, l: nat,
                        ghost s: seq<int>, ghost p0: seq<int>)
    requires data != luminance
    requires data.Length == |s| == 4 * |p0| && i == 4 * l && l < |p0|
    requires luminance[..] == PlaneAt(p0, AtkinsonKernel(width), l)
    requires forall k :: 0 <= k < i ==> data[k] == Paint(s, DiffusedValues(p0, AtkinsonKernel(width)))[k]
    requires forall k :: i <= k < data.Length ==> data[k] == s[k]
    modifies data, luminance
    ensures luminance[..] == PlaneAt(p0, AtkinsonKernel(width), l + 1)
    ensures forall k :: 0 <= k < i + 4 ==> data[k] == Paint(s, DiffusedValues(p0, AtkinsonKernel(width)))[k]
    ensures forall k :: i + 4 <= k < data.Length ==> data[k] == s[k]
  {
    ghost var v := DiffusedValues(p0, AtkinsonKernel(width));
    var value := if luminance[l] < 129 then 0 else 255;
    var error := (luminance[l] - value) / 8;
    DiffusedValueAt(p0, AtkinsonKernel(width), l);
    ClampInteger(value);
    FillPixel(data, s, v, i, l, Integer(value));
    SpreadAtkinson(luminance, l, width, error);
  }

  /** `atkinson` (main.ts:89-110). */
  method Atkinson(image: ImageData)
    requires image.Valid() && IsBytes(image.data[..])
    modifies image.data
    ensures IsBytes(image.data[..])
    ensures image.data[..] == AtkinsonDithered(old(image.data[..]), image.width)
    ensures SameAlpha(old(image.data[..]), image.data[..])
  {
    ghost var s := image.data[..];
    var luminance := LuminancePass(image);
    DiffusedValuesBytes(luminance[..], AtkinsonKernel(image.width));
    PaintSameAlpha(s, DiffusedValues(luminance[..], AtkinsonKernel(image.width)));
    AtkinsonPass(image.data, luminance, image.width);
  }

  /** Pass 2 of `atkinson` (main.ts:98-109): the raster scan over the plane
      built by pass 1. */
  method AtkinsonPass(data: array<int>, luminance: array<int>, width: int)
    requires data != luminance && data.Length == 4 * luminance.Length
    modifies data, luminance
    ensures data[..] == Paint(old(data[..]), DiffusedValues(old(luminance[..]), AtkinsonKernel(width)))
  {
    ghost var s, p0, n := data[..], luminance[..], luminance.Length;
    ghost var v := DiffusedValues(p0, AtkinsonKernel(width));
    var l, i := 0, 0;
    while i < data.Length
      invariant i == 4 * l && l <= n && data.Length == 4 * n && luminance.Length == n
      invariant luminance[..] == PlaneAt(p0, AtkinsonKernel(width), l)
      invariant forall k :: 0 <= k < i ==> data[k] == Paint(s, v)[k]
      invariant forall k :: i <= k < data.Length ==> data[k] == s[k]
    {
      VisitAtkinson(data, luminance, width, i, l, s, p0);
      l, i := l + 1, i + 4;
    }
    EqualPointwise(data[..], Paint(s, v));
  }
}
