/** What each transform of the dither engine computes, as functions on the
    byte sequence of an RGBA pixel buffer (row-major, 4 bytes per pixel,
    no padding) and, for the error diffusers, on the scratch luminance
    plane (one byte per pixel).

    Luminance is kept exact: `Luminance(r, g, b) == N` stands for the
    number `N / 1000 == 0.299 r + 0.587 g + 0.114 b`. */
module DitherSpec {
  import opened Uint8Clamped

  /** 1000 times the luminance `0.299 r + 0.587 g + 0.114 b`. The weights
      sum to exactly 1, so a gray pixel has its own value as luminance. */
  function Luminance(r: int, g: int, b: int): (n: int)
    ensures IsByte(r) && IsByte(g) && IsByte(b) ==> 0 <= n <= 255000
    ensures r == g == b ==> n == 1000 * r
  {
    299 * r + 587 * g + 114 * b
  }

  /** 1000 times the luminance of pixel p of an RGBA buffer. */
  function PixelLuminance(s: seq<int>, p: nat): (n: int)
    requires 4 * p + 2 < |s|
    ensures IsBytes(s) ==> 0 <= n <= 255000
  {
    Luminance(s[4 * p], s[4 * p + 1], s[4 * p + 2])
  }

  /** The buffer after `fill(v[p], 4p, 4p + 3)` for every pixel p, where
      v[p] is already a byte: R, G and B of pixel p become v[p], the alpha
      byte stays. */
  function Paint(s: seq<int>, v: seq<int>): (r: seq<int>)
    requires |s| == 4 * |v|
    ensures |r| == |s|
    ensures IsBytes(s) && IsBytes(v) ==> IsBytes(r)
  {
    seq(|s|, k requires 0 <= k < |s| => if k % 4 == 3 then s[k] else v[k / 4])
  }

  /** Byte k of a painted buffer. */
  lemma PaintAt(s: seq<int>, v: seq<int>, k: nat)
    requires |s| == 4 * |v| && k < |s|
    ensures k / 4 < |v|
    ensures Paint(s, v)[k] == if k % 4 == 3 then s[k] else v[k / 4]
  {
  }

  /** Two buffers of the same length with the same alpha byte in every
      pixel. */
  predicate SameAlpha(a: seq<int>, b: seq<int>) {
    |a| == |b| && forall k :: 0 <= k < |a| && k % 4 == 3 ==> a[k] == b[k]
  }

  /** Painting writes colour bytes only. */
  lemma PaintSameAlpha(s: seq<int>, v: seq<int>)
    requires |s| == 4 * |v|
    ensures SameAlpha(s, Paint(s, v))
  {
    forall k | 0 <= k < |s| && k % 4 == 3
      ensures Paint(s, v)[k] == s[k]
    {
      PaintAt(s, v, k);
    }
  }

  /** The step of every loop over the buffer: once the pixels before p are
      painted and pixel p has had its colour bytes filled with `v[p]`, the
      pixels up to and including p are painted. */
  lemma PaintStep(s: seq<int>, v: seq<int>, before: seq<int>, after: seq<int>, p: nat)
    requires |s| == 4 * |v| && p < |v| && |before| == |s| && |after| == |s|
    requires forall k :: 0 <= k < 4 * p ==> before[k] == Paint(s, v)[k]
    requires forall k :: 4 * p <= k < |s| ==> before[k] == s[k]
    requires forall k :: 0 <= k < |s| && !(4 * p <= k < 4 * p + 3) ==> after[k] == before[k]
    requires forall k :: 4 * p <= k < 4 * p + 3 ==> after[k] == v[p]
    ensures forall k :: 0 <= k < 4 * p + 4 ==> after[k] == Paint(s, v)[k]
    ensures forall k :: 4 * p + 4 <= k < |s| ==> after[k] == s[k]
  {
    forall k | 4 * p <= k < 4 * p + 4
      ensures after[k] == Paint(s, v)[k]
    {
      assert k / 4 == p && (k % 4 == 3 <==> k == 4 * p + 3);
    }
  }

  /** One clamped byte per pixel: the luminance `N / 1000` stored into a
      Uint8ClampedArray. This is pass 1 of both error diffusers, and the
      value `grayscale` fills each pixel with. */
  function LuminancePlane(s: seq<int>): (plane: seq<int>)
    requires |s| % 4 == 0
    ensures |plane| == |s| / 4 && IsBytes(plane)
  {
    seq(|s| / 4, l requires 0 <= l < |s| / 4 => ToUint8Clamp(PixelLuminance(s, l)))
  }

  /** `grayscale`: every pixel's R, G and B become its luminance, rounded
      and clamped as the byte store does; alpha is kept. */
  function Grayscaled(s: seq<int>): (r: seq<int>)
    requires |s| % 4 == 0
    ensures |r| == |s| && (IsBytes(s) ==> IsBytes(r))
  {
    Paint(s, LuminancePlane(s))
  }

  /** `luminance < threshold ? 0 : 255` with luminance `n / 1000`: black
      exactly when the luminance is strictly below the threshold. */
  function ThresholdValue(n: int, t: int): (v: int)
    ensures v == 0 || v == 255
    ensures v == 0 <==> (n as real) / 1000.0 < t as real
  {
    if n < 1000 * t then 0 else 255
  }

  /** The byte `threshold` fills each pixel with. */
  function ThresholdValues(s: seq<int>, t: int): (v: seq<int>)
    requires |s| % 4 == 0
    ensures |v| == |s| / 4 && IsBytes(v)
  {
    seq(|s| / 4, p requires 0 <= p < |s| / 4 => ThresholdValue(PixelLuminance(s, p), t))
  }

  /** `threshold`: a pixel becomes black when its luminance is strictly
      below t, white otherwise; alpha is kept. */
  function Thresholded(s: seq<int>, t: int): (r: seq<int>)
    requires |s| % 4 == 0
    ensures |r| == |s| && (IsBytes(s) ==> IsBytes(r))
  {
    Paint(s, ThresholdValues(s, t))
  }

  /** The 4x4 ordered-dither table of `bayer`, first index first. */
  const ThresholdMap: seq<seq<int>> :=
    [ [15, 135, 45, 165],
      [195, 75, 225, 105],
      [60, 180, 30, 150],
      [240, 120, 210, 90] ]

  /** `thresholdMap[x % 4][y % 4]`: every bias is a multiple of 15 in
      15..240. */
  function BayerBias(x: nat, y: nat): (b: int)
    ensures 15 <= b <= 240 && b % 15 == 0
  {
    var row := ThresholdMap[x % 4];
    assert row in ThresholdMap;
    row[y % 4]
  }

  /** The bias of pixel p in an image w pixels wide: the pixel lies in
      column `p % w` and row `p / w`. */
  function PixelBias(p: nat, w: nat): (b: int)
    requires w > 0
    ensures 15 <= b <= 240
  {
    BayerBias(p % w, p / w)
  }

  /** `map = floor((luminance + bias) / 2); map < threshold ? 0 : 255` with
      luminance `n / 1000`, that is `map == floor((n + 1000 * bias) / 2000)`. */
  function BayerValue(n: int, bias: int, t: int): (v: int)
    ensures v == 0 || v == 255
    ensures v == 255 <==> n + 1000 * bias >= 2000 * t
    ensures v == 0 <==> (((n as real) / 1000.0 + bias as real) / 2.0).Floor < t
  {
    assert ((n as real) / 1000.0 + bias as real) / 2.0 == (n + 1000 * bias) as real / 2000.0;
    var mapped := (n + 1000 * bias) / 2000;
    if mapped < t then 0 else 255
  }

  /** The byte `bayer` fills pixel p with. */
  function BayerValues(s: seq<int>, w: nat, t: int): (v: seq<int>)
    requires |s| % 4 == 0 && (w == 0 ==> |s| == 0)
    ensures |v| == |s| / 4 && IsBytes(v)
  {
    seq(|s| / 4, p requires 0 <= p < |s| / 4 =>
                   BayerValue(PixelLuminance(s, p), PixelBias(p, w), t))
  }

  /** `bayer`: every pixel becomes black or white by its own luminance
      biased by its place in the ordered-dither table; alpha is kept. */
  function BayerDithered(s: seq<int>, w: nat, t: int): (r: seq<int>)
    requires |s| % 4 == 0 && (w == 0 ==> |s| == 0)
    ensures |r| == |s| && (IsBytes(s) ==> IsBytes(r))
  {
    Paint(s, BayerValues(s, w, t))
  }

  /** One statement `luminance[l + offset] += error * weight`. */
  datatype Tap = Tap(offset: int, weight: int)

  /** An error-diffusion kernel: the divisor of the error and the taps, in
      the order the source applies them. */
  datatype Kernel = Kernel(divisor: int, taps: seq<Tap>)

  /** The sum of the weights of a list of taps. */
  function TotalWeight(taps: seq<Tap>): (r: int) {
    if taps == [] then 0 else taps[0].weight + TotalWeight(taps[1..])
  }

  /** Floyd-Steinberg: right 7, next row left 3, below 5, next row right 1,
      all sixteenths, so the whole error is handed on. */
  function FloydSteinbergKernel(w: int): (k: Kernel)
    ensures k.divisor == 16 && |k.taps| == 4
    ensures TotalWeight(k.taps) == k.divisor
  {
    var taps := [Tap(1, 7), Tap(w - 1, 3), Tap(w, 5), Tap(w + 1, 1)];
    assert TotalWeight(taps[3..]) == 1;
    assert TotalWeight(taps[2..]) == 6;
    assert TotalWeight(taps[1..]) == 9;
    Kernel(16, taps)
  }

  /** Atkinson: one eighth to each of six cells, so only 6 of the 8
      eighths of the error are handed on. */
  function AtkinsonKernel(w: int): (k: Kernel)
    ensures k.divisor == 8 && |k.taps| == 6
    ensures TotalWeight(k.taps) == 6
  {
    var taps := [Tap(1, 1), Tap(2, 1), Tap(w - 1, 1), Tap(w, 1), Tap(w + 1, 1), Tap(2 * w, 1)];
    assert TotalWeight(taps[5..]) == 1;
    assert TotalWeight(taps[4..]) == 2;
    assert TotalWeight(taps[3..]) == 3;
    assert TotalWeight(taps[2..]) == 4;
    assert TotalWeight(taps[1..]) == 5;
    Kernel(8, taps)
  }

  /** `luminance[l] < 129 ? 0 : 255`: black or white, black exactly below
      129. On a byte the value painted is within 128 below and 126 above
      the cell. */
  function Quantize(c: int): (v: int)
    ensures v == 0 || v == 255
    ensures v == 0 <==> c < 129
    ensures IsByte(c) ==> -126 <= c - v <= 128
  {
    if c < 129 then 0 else 255
  }

  /** `Math.floor((luminance[l] - value) / d)`: the largest integer whose
      d-fold does not exceed the difference. */
  function QuantError(c: int, d: int): (err: int)
    requires d > 0
    ensures d * err <= c - Quantize(c) < d * err + d
  {
    (c - Quantize(c)) / d
  }

  /** Taps j, j + 1, ... of the kernel applied in order to the plane, each a
      clamped store that is ignored when its index falls outside the plane. */
  function Spread(plane: seq<int>, l: int, e: int, taps: seq<Tap>, j: nat): (r: seq<int>)
    ensures |r| == |plane|
    decreases |taps| - j
  {
    if j >= |taps| then plane
    else Spread(AddAt(plane, l + taps[j].offset, e * taps[j].weight), l, e, taps, j + 1)
  }

  /** The scan's visit of cell l: quantise it and spread its error. */
  function Visit(plane: seq<int>, l: nat, kern: Kernel): (r: seq<int>)
    requires l < |plane| && kern.divisor > 0
    ensures |r| == |plane|
  {
    Spread(plane, l, QuantError(plane[l], kern.divisor), kern.taps, 0)
  }

  /** The scratch plane when the raster scan reaches cell k, that is after
      cells 0 .. k - 1 have been visited. */
  function PlaneAt(p0: seq<int>, kern: Kernel, k: nat): (p: seq<int>)
    requires k <= |p0| && kern.divisor > 0
    ensures |p| == |p0|
    decreases k
  {
    if k == 0 then p0 else Visit(PlaneAt(p0, kern, k - 1), k - 1, kern)
  }

  /** The output bytes of cells 0 .. k - 1: each cell's plane value
      quantised at the moment the scan visits it. */
  function ScanValues(p0: seq<int>, kern: Kernel, k: nat): (v: seq<int>)
    requires k <= |p0| && kern.divisor > 0
    ensures |v| == k
    decreases k
  {
    if k == 0 then [] else ScanValues(p0, kern, k - 1) + [Quantize(PlaneAt(p0, kern, k - 1)[k - 1])]
  }

  /** The output byte of every cell. */
  function DiffusedValues(p0: seq<int>, kern: Kernel): (v: seq<int>)
    requires kern.divisor > 0
    ensures |v| == |p0|
  {
    ScanValues(p0, kern, |p0|)
  }

  /** Cell l of a scan that has got past it is the quantised plane value
      the scan found there. */
  lemma {:induction false} ScanValueAt(p0: seq<int>, kern: Kernel, k: nat, l: nat)
    requires l < k <= |p0| && kern.divisor > 0
    ensures ScanValues(p0, kern, k)[l] == Quantize(PlaneAt(p0, kern, l)[l])
    decreases k
  {
    if l < k - 1 {
      ScanValueAt(p0, kern, k - 1, l);
    }
  }

  /** Byte l of the output is the quantised plane value at the visit of
      cell l; every output byte is black or white. */
  lemma DiffusedValueAt(p0: seq<int>, kern: Kernel, l: nat)
    requires l < |p0| && kern.divisor > 0
    ensures DiffusedValues(p0, kern)[l] == Quantize(PlaneAt(p0, kern, l)[l])
    ensures DiffusedValues(p0, kern)[l] == 0 || DiffusedValues(p0, kern)[l] == 255
  {
    ScanValueAt(p0, kern, |p0|, l);
  }

  lemma DiffusedValuesBytes(p0: seq<int>, kern: Kernel)
    requires kern.divisor > 0
    ensures IsBytes(DiffusedValues(p0, kern))
  {
    forall l | 0 <= l < |p0|
      ensures IsByte(DiffusedValues(p0, kern)[l])
    {
      DiffusedValueAt(p0, kern, l);
    }
  }


  /** Applying tap j is the first step of spreading from tap j. */
  lemma SpreadStep(plane: seq<int>, q: seq<int>, l: int, e: int, taps: seq<Tap>, j: nat, k: int, delta: int)
    requires j < |taps| && k == l + taps[j].offset && delta == e * taps[j].weight
    requires q == AddAt(plane, k, delta)
    ensures Spread(plane, l, e, taps, j) == Spread(q, l, e, taps, j + 1)
  {
  }

  /** The four statements that spread the error e of cell l in the
      Floyd-Steinberg scan, run in source order, each a clamped `+=` that is
      ignored outside the plane, spread e with the kernel's taps: p1 .. p4
      are the planes after each of them. */
  lemma FloydSteinbergVisit(plane: seq<int>, p1: seq<int>, p2: seq<int>, p3: seq<int>, p4: seq<int>,
                            l: nat, w: int, e: int)
    requires p1 == AddAt(plane, l + 1, e * 7)
    requires p2 == AddAt(p1, l + w - 1, e * 3)
    requires p3 == AddAt(p2, l + w, e * 5)
    requires p4 == AddAt(p3, l + w + 1, e * 1)
    ensures p4 == Spread(plane, l, e, FloydSteinbergKernel(w).taps, 0)
  {
    var taps := [Tap(1, 7), Tap(w - 1, 3), Tap(w, 5), Tap(w + 1, 1)];
    assert FloydSteinbergKernel(w).taps == taps;
    SpreadStep(plane, p1, l, e, taps, 0, l + 1, e * 7);
    SpreadStep(p1, p2, l, e, taps, 1, l + w - 1, e * 3);
    SpreadStep(p2, p3, l, e, taps, 2, l + w, e * 5);
    SpreadStep(p3, p4, l, e, taps, 3, l + w + 1, e * 1);
    assert Spread(p4, l, e, taps, 4) == p4;
  }

  /** The first three of the six Atkinson statements, in source order. */
  lemma AtkinsonFirstHalf(plane: seq<int>, p1: seq<int>, p2: seq<int>, p3: seq<int>, l: int, w: int, e: int)
    requires p1 == AddAt(plane, l + 1, e)
    requires p2 == AddAt(p1, l + 2, e)
    requires p3 == AddAt(p2, l + w - 1, e)
    ensures Spread(plane, l, e, AtkinsonKernel(w).taps, 0) == Spread(p3, l, e, AtkinsonKernel(w).taps, 3)
  {
    var taps := [Tap(1, 1), Tap(2, 1), Tap(w - 1, 1), Tap(w, 1), Tap(w + 1, 1), Tap(2 * w, 1)];
    assert AtkinsonKernel(w).taps == taps;
    SpreadStep(plane, p1, l, e, taps, 0, l + 1, e);
    SpreadStep(p1, p2, l, e, taps, 1, l + 2, e);
    SpreadStep(p2, p3, l, e, taps, 2, l + w - 1, e);
  }

  /** The last three of the six Atkinson statements, in source order. */
  lemma AtkinsonSecondHalf(p3: seq<int>, p4: seq<int>, p5: seq<int>, p6: seq<int>, l: int, w: int, e: int)
    requires p4 == AddAt(p3, l + w, e)
    requires p5 == AddAt(p4, l + w + 1, e)
    requires p6 == AddAt(p5, l + 2 * w, e)
    ensures Spread(p3, l, e, AtkinsonKernel(w).taps, 3) == p6
  {
    var taps := [Tap(1, 1), Tap(2, 1), Tap(w - 1, 1), Tap(w, 1), Tap(w + 1, 1), Tap(2 * w, 1)];
    assert AtkinsonKernel(w).taps == taps;
    SpreadStep(p3, p4, l, e, taps, 3, l + w, e);
    SpreadStep(p4, p5, l, e, taps, 4, l + w + 1, e);
    SpreadStep(p5, p6, l, e, taps, 5, l + 2 * w, e);
    assert Spread(p6, l, e, taps, 6) == p6;
  }

  /** The six statements that spread the error e of cell l in the
      Atkinson scan, run in source order, spread e with the kernel's taps:
      p1 .. p6 are the planes after each of them. */
  lemma AtkinsonVisit(plane: seq<int>, p1: seq<int>, p2: seq<int>, p3: seq<int>, p4: seq<int>,
                      p5: seq<int>, p6: seq<int>, l: nat, w: int, e: int)
    requires p1 == AddAt(plane, l + 1, e)
    requires p2 == AddAt(p1, l + 2, e)
    requires p3 == AddAt(p2, l + w - 1, e)
    requires p4 == AddAt(p3, l + w, e)
    requires p5 == AddAt(p4, l + w + 1, e)
    requires p6 == AddAt(p5, l + 2 * w, e)
    ensures p6 == Spread(plane, l, e, AtkinsonKernel(w).taps, 0)
  {
    AtkinsonFirstHalf(plane, p1, p2, p3, l, w, e);
    AtkinsonSecondHalf(p3, p4, p5, p6, l, w, e);
  }

  /** Pass 1 builds the plane from the buffer, pass 2 scans it and paints
      every pixel black or white. */
  function ErrorDiffused(s: seq<int>, kern: Kernel): (r: seq<int>)
    requires |s| % 4 == 0 && kern.divisor > 0
    ensures |r| == |s|
  {
    Paint(s, DiffusedValues(LuminancePlane(s), kern))
  }

  /** `floydsteinberg`. */
  function FloydSteinbergDithered(s: seq<int>, w: int): (r: seq<int>)
    requires |s| % 4 == 0
    ensures |r| == |s|
  {
    ErrorDiffused(s, FloydSteinbergKernel(w))
  }

  /** `atkinson`. */
  function AtkinsonDithered(s: seq<int>, w: int): (r: seq<int>)
    requires |s| % 4 == 0
    ensures |r| == |s|
  {
    ErrorDiffused(s, AtkinsonKernel(w))
  }
}
