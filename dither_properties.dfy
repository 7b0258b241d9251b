/** What the transforms promise, stated about the functions that the
    methods of module Dither are proved to compute. */
module DitherProperties {
  import opened Uint8Clamped
  import opened DitherSpec

  /** Pixel p of a painted buffer: its three colour bytes are v[p], its
      alpha byte is the original one. */
  lemma PaintPixel(s: seq<int>, v: seq<int>, p: nat)
    requires |s| == 4 * |v| && p < |v|
    ensures 4 * p + 3 < |s|
    ensures Paint(s, v)[4 * p] == v[p] && Paint(s, v)[4 * p + 1] == v[p] && Paint(s, v)[4 * p + 2] == v[p]
    ensures Paint(s, v)[4 * p + 3] == s[4 * p + 3]
  {
    PaintAt(s, v, 4 * p);
    PaintAt(s, v, 4 * p + 1);
    PaintAt(s, v, 4 * p + 2);
    PaintAt(s, v, 4 * p + 3);
  }

  // ---------------------------------------------------------------------
  // Alpha and length

  /** None of the five transforms changes the length of the buffer or any
      alpha byte (offset 3 of a pixel). */
  lemma AlphaKept(s: seq<int>, w: nat, t: int)
    requires |s| % 4 == 0 && (w == 0 ==> |s| == 0)
    ensures SameAlpha(s, Grayscaled(s))
    ensures SameAlpha(s, Thresholded(s, t))
    ensures SameAlpha(s, BayerDithered(s, w, t))
    ensures SameAlpha(s, FloydSteinbergDithered(s, w))
    ensures SameAlpha(s, AtkinsonDithered(s, w))
  {
    PaintSameAlpha(s, LuminancePlane(s));
    PaintSameAlpha(s, ThresholdValues(s, t));
    PaintSameAlpha(s, BayerValues(s, w, t));
    PaintSameAlpha(s, DiffusedValues(LuminancePlane(s), FloydSteinbergKernel(w)));
    PaintSameAlpha(s, DiffusedValues(LuminancePlane(s), AtkinsonKernel(w)));
  }

  // ---------------------------------------------------------------------
  // grayscale

  /** After `grayscale`, R, G and B of pixel p all hold the byte store of
      that pixel's original luminance. */
  lemma GrayscaledPixel(s: seq<int>, p: nat)
    requires |s| % 4 == 0 && p < |s| / 4
    ensures 4 * p + 3 < |s|
    ensures Grayscaled(s)[4 * p] == ToUint8Clamp(PixelLuminance(s, p))
    ensures Grayscaled(s)[4 * p + 1] == ToUint8Clamp(PixelLuminance(s, p))
    ensures Grayscaled(s)[4 * p + 2] == ToUint8Clamp(PixelLuminance(s, p))
    ensures Grayscaled(s)[4 * p + 3] == s[4 * p + 3]
  {
    PaintPixel(s, LuminancePlane(s), p);
  }

  /** The luminance plane of a grayscaled buffer is the luminance plane of
      the original: a gray pixel of byte value v has luminance exactly v
      because the weights sum to one. */
  lemma GrayscaledLuminance(s: seq<int>)
    requires |s| % 4 == 0
    ensures LuminancePlane(Grayscaled(s)) == LuminancePlane(s)
  {
    var g, v := Grayscaled(s), LuminancePlane(s);
    forall p | 0 <= p < |s| / 4
      ensures LuminancePlane(g)[p] == v[p]
    {
      PaintPixel(s, v, p);
      assert PixelLuminance(g, p) == Integer(v[p]);
      ClampInteger(v[p]);
    }
  }

  /** `grayscale` is idempotent. */
  lemma GrayscaleIdempotent(s: seq<int>)
    requires |s| % 4 == 0
    ensures Grayscaled(Grayscaled(s)) == Grayscaled(s)
  {
    var g, v := Grayscaled(s), LuminancePlane(s);
    GrayscaledLuminance(s);
    forall k | 0 <= k < |s|
      ensures Paint(g, v)[k] == Paint(s, v)[k]
    {
      PaintAt(g, v, k);
      PaintAt(s, v, k);
    }
  }

  // ---------------------------------------------------------------------
  // threshold

  /** After `threshold`, pixel p is black when its luminance is strictly
      below t and white otherwise, on all three colour bytes. */
  lemma ThresholdedPixel(s: seq<int>, t: int, p: nat)
    requires |s| % 4 == 0 && p < |s| / 4
    ensures 4 * p + 3 < |s|
    ensures var c := Thresholded(s, t)[4 * p];
      (c == 0 <==> PixelLuminance(s, p) < 1000 * t) && (c == 255 <==> PixelLuminance(s, p) >= 1000 * t)
    ensures Thresholded(s, t)[4 * p + 1] == Thresholded(s, t)[4 * p]
    ensures Thresholded(s, t)[4 * p + 2] == Thresholded(s, t)[4 * p]
    ensures Thresholded(s, t)[4 * p + 3] == s[4 * p + 3]
  {
    PaintPixel(s, ThresholdValues(s, t), p);
  }

  /** Raising the threshold only turns white pixels black. */
  lemma ThresholdMonotone(s: seq<int>, t1: int, t2: int, p: nat)
    requires |s| % 4 == 0 && p < |s| / 4 && t1 <= t2
    ensures 4 * p < |s|
    ensures Thresholded(s, t2)[4 * p] <= Thresholded(s, t1)[4 * p]
  {
    ThresholdedPixel(s, t1, p);
    ThresholdedPixel(s, t2, p);
  }

  /** On a byte buffer black pixels stay black and white pixels stay white,
      whatever the threshold, so applying `threshold` twice is applying it
      once. */
  lemma ThresholdIdempotent(s: seq<int>, t: int)
    requires |s| % 4 == 0 && IsBytes(s)
    ensures Thresholded(Thresholded(s, t), t) == Thresholded(s, t)
  {
    var r, v := Thresholded(s, t), ThresholdValues(s, t);
    assert ThresholdValues(r, t) == v by {
      forall p | 0 <= p < |s| / 4
        ensures ThresholdValues(r, t)[p] == v[p]
      {
        PaintPixel(s, v, p);
        assert PixelLuminance(r, p) == 1000 * v[p];
      }
    }
    forall k | 0 <= k < |s|
      ensures Paint(r, v)[k] == Paint(s, v)[k]
    {
      PaintAt(r, v, k);
      PaintAt(s, v, k);
    }
  }

  // ---------------------------------------------------------------------
  // bayer

  /** The Bayer decision is a threshold at 2t of the luminance raised by
      the table bias. */
  lemma BayerIsBiasedThreshold(n: int, bias: int, t: int)
    ensures BayerValue(n, bias, t) == ThresholdValue(n + 1000 * bias, 2 * t)
  {
  }

  /** After `bayer`, pixel p, in column p % w and row p / w, is white when
      `floor((luminance + bias) / 2) >= t` and black otherwise. */
  lemma BayerDitheredPixel(s: seq<int>, w: nat, t: int, p: nat)
    requires |s| % 4 == 0 && w > 0 && p < |s| / 4
    ensures 4 * p + 3 < |s|
    ensures BayerDithered(s, w, t)[4 * p] == 255 <==> PixelLuminance(s, p) + 1000 * PixelBias(p, w) >= 2000 * t
    ensures BayerDithered(s, w, t)[4 * p] == 0 <==> PixelLuminance(s, p) + 1000 * PixelBias(p, w) < 2000 * t
    ensures BayerDithered(s, w, t)[4 * p + 1] == BayerDithered(s, w, t)[4 * p]
    ensures BayerDithered(s, w, t)[4 * p + 2] == BayerDithered(s, w, t)[4 * p]
    ensures BayerDithered(s, w, t)[4 * p + 3] == s[4 * p + 3]
  {
    PaintPixel(s, BayerValues(s, w, t), p);
  }

  /** On a byte buffer, a threshold of at most 7 leaves every pixel white
      and one of at least 248 leaves every pixel black, whatever the
      bias. */
  lemma BayerExtremes(s: seq<int>, w: nat, t: int, p: nat)
    requires |s| % 4 == 0 && IsBytes(s) && w > 0 && p < |s| / 4
    ensures 4 * p < |s|
    ensures t <= 7 ==> BayerDithered(s, w, t)[4 * p] == 255
    ensures t >= 248 ==> BayerDithered(s, w, t)[4 * p] == 0
  {
    BayerDitheredPixel(s, w, t, p);
    assert IsByte(s[4 * p]) && IsByte(s[4 * p + 1]) && IsByte(s[4 * p + 2]);
  }

  // ---------------------------------------------------------------------
  // Error diffusion

  /** Every tap offset is at least 1, so that a visit writes only ahead of
      the visited cell. */
  predicate Forward(kern: Kernel) {
    forall j :: 0 <= j < |kern.taps| ==> kern.taps[j].offset >= 1
  }

  /** Both kernels only push forward once the image is at least two pixels
      wide; at width 1 the tap `l + width - 1` is the visited cell itself. */
  lemma KernelsForward(w: int)
    ensures Forward(FloydSteinbergKernel(w)) <==> w >= 2
    ensures Forward(AtkinsonKernel(w)) <==> w >= 2
  {
    assert FloydSteinbergKernel(w).taps[1].offset == w - 1;
    assert AtkinsonKernel(w).taps[2].offset == w - 1;
  }

  /** On a byte cell the error of either kernel is bounded: by 8 for
      sixteenths, by 16 for eighths, non-negative for a cell quantised to
      black and non-positive for one quantised to white. */
  lemma QuantErrorBounds(c: int)
    requires IsByte(c)
    ensures -8 <= QuantError(c, 16) <= 8 && -16 <= QuantError(c, 8) <= 16
    ensures c < 129 ==> QuantError(c, 16) >= 0 && QuantError(c, 8) >= 0
    ensures c >= 129 ==> QuantError(c, 16) <= 0 && QuantError(c, 8) <= 0
  {
  }

  /** Spreading keeps the plane a plane of bytes. */
  lemma {:induction false} SpreadBytes(plane: seq<int>, l: int, e: int, taps: seq<Tap>, j: nat)
    requires IsBytes(plane)
    ensures IsBytes(Spread(plane, l, e, taps, j))
    decreases |taps| - j
  {
    if j < |taps| {
      AddAtIndex(plane, l + taps[j].offset, e * taps[j].weight);
      SpreadBytes(AddAt(plane, l + taps[j].offset, e * taps[j].weight), l, e, taps, j + 1);
    }
  }

  /** Every cell of the scratch plane stays a byte throughout the scan. */
  lemma {:induction false} PlaneAtBytes(p0: seq<int>, kern: Kernel, k: nat)
    requires k <= |p0| && kern.divisor > 0 && IsBytes(p0)
    ensures IsBytes(PlaneAt(p0, kern, k))
    decreases k
  {
    if k > 0 {
      PlaneAtBytes(p0, kern, k - 1);
      SpreadBytes(PlaneAt(p0, kern, k - 1), k - 1,
                  QuantError(PlaneAt(p0, kern, k - 1)[k - 1], kern.divisor), kern.taps, 0);
    }
  }

  /** The plane of a buffer's luminance stays a plane of bytes through the
      scan of either kernel. */
  lemma LuminancePlaneAtBytes(s: seq<int>, kern: Kernel, k: nat)
    requires |s| % 4 == 0 && kern.divisor > 0 && k <= |s| / 4
    ensures IsBytes(PlaneAt(LuminancePlane(s), kern, k))
  {
    PlaneAtBytes(LuminancePlane(s), kern, k);
  }

  /** A cell that no remaining tap targets keeps its value. */
  lemma {:induction false} SpreadUntouched(plane: seq<int>, l: int, e: int, taps: seq<Tap>, j: nat, k: int)
    requires 0 <= k < |plane|
    requires forall i :: j <= i < |taps| ==> l + taps[i].offset != k
    ensures Spread(plane, l, e, taps, j)[k] == plane[k]
    decreases |taps| - j
  {
    if j < |taps| {
      AddAtIndex(plane, l + taps[j].offset, e * taps[j].weight);
      SpreadUntouched(AddAt(plane, l + taps[j].offset, e * taps[j].weight), l, e, taps, j + 1, k);
    }
  }

  /** No two taps target the same cell. */
  predicate DistinctOffsets(taps: seq<Tap>) {
    forall i, i' :: 0 <= i < |taps| && 0 <= i' < |taps| && i != i' ==> taps[i].offset != taps[i'].offset
  }

  /** A cell targeted by exactly one of the remaining taps gets the clamped
      sum of its value and the weighted error. */
  lemma {:induction false} SpreadTarget(plane: seq<int>, l: int, e: int, taps: seq<Tap>, j: nat, i: nat)
    requires j <= i < |taps| && 0 <= l + taps[i].offset < |plane|
    requires forall i' :: j <= i' < |taps| && i' != i ==> taps[i'].offset != taps[i].offset
    ensures Spread(plane, l, e, taps, j)[l + taps[i].offset]
            == Clamp(plane[l + taps[i].offset] + e * taps[i].weight)
    decreases |taps| - j
  {
    var q := AddAt(plane, l + taps[j].offset, e * taps[j].weight);
    AddAtIndex(plane, l + taps[j].offset, e * taps[j].weight);
    if j == i {
      SpreadUntouched(q, l, e, taps, j + 1, l + taps[i].offset);
    } else {
      SpreadTarget(q, l, e, taps, j + 1, i);
    }
  }

  /** The targets of one Floyd-Steinberg visit of cell l that no other tap
      of the visit hits: each one inside the plane gets its clamped share of
      the error; targets past the end of the plane are dropped. The tap
      `l + 1` is alone from width 3 on, `l + width - 1` at every width but
      2, `l + width` from width 2 on and `l + width + 1` always. */
  lemma FloydSteinbergVisitTargets(plane: seq<int>, l: nat, w: int)
    requires l < |plane| && w >= 1
    ensures var e, r := QuantError(plane[l], 16), Visit(plane, l, FloydSteinbergKernel(w));
      (w >= 3 && l + 1 < |plane| ==> r[l + 1] == Clamp(plane[l + 1] + 7 * e)) &&
      (w != 2 && l + w - 1 < |plane| ==> r[l + w - 1] == Clamp(plane[l + w - 1] + 3 * e)) &&
      (w >= 2 && l + w < |plane| ==> r[l + w] == Clamp(plane[l + w] + 5 * e)) &&
      (l + w + 1 < |plane| ==> r[l + w + 1] == Clamp(plane[l + w + 1] + e))
  {
    var e := QuantError(plane[l], 16);
    var taps := [Tap(1, 7), Tap(w - 1, 3), Tap(w, 5), Tap(w + 1, 1)];
    assert FloydSteinbergKernel(w).taps == taps;
    assert w >= 3 && l + 1 < |plane| ==>
           Spread(plane, l, e, taps, 0)[l + taps[0].offset]
           == Clamp(plane[l + taps[0].offset] + e * taps[0].weight) by {
      if w >= 3 && l + 1 < |plane| { SpreadTarget(plane, l, e, taps, 0, 0); }
    }
    assert w != 2 && l + w - 1 < |plane| ==>
           Spread(plane, l, e, taps, 0)[l + taps[1].offset]
           == Clamp(plane[l + taps[1].offset] + e * taps[1].weight) by {
      if w != 2 && l + w - 1 < |plane| { SpreadTarget(plane, l, e, taps, 0, 1); }
    }
    assert w >= 2 && l + w < |plane| ==>
           Spread(plane, l, e, taps, 0)[l + taps[2].offset]
           == Clamp(plane[l + taps[2].offset] + e * taps[2].weight) by {
      if w >= 2 && l + w < |plane| { SpreadTarget(plane, l, e, taps, 0, 2); }
    }
    assert l + w + 1 < |plane| ==>
           Spread(plane, l, e, taps, 0)[l + taps[3].offset]
           == Clamp(plane[l + taps[3].offset] + e * taps[3].weight) by {
      if l + w + 1 < |plane| { SpreadTarget(plane, l, e, taps, 0, 3); }
    }
  }

  /** One Floyd-Steinberg visit of cell l leaves every cell that is not one
      of its four targets alone, whatever the width. */
  lemma FloydSteinbergVisitUntouched(plane: seq<int>, l: nat, w: int)
    requires l < |plane|
    ensures var r := Visit(plane, l, FloydSteinbergKernel(w));
      forall k :: 0 <= k < |plane| && k != l + 1 && k != l + w - 1 && k != l + w && k != l + w + 1
                  ==> r[k] == plane[k]
  {
    var e := QuantError(plane[l], 16);
    var taps := [Tap(1, 7), Tap(w - 1, 3), Tap(w, 5), Tap(w + 1, 1)];
    assert FloydSteinbergKernel(w).taps == taps;
    forall k | 0 <= k < |plane| && k != l + 1 && k != l + w - 1 && k != l + w && k != l + w + 1
      ensures Visit(plane, l, FloydSteinbergKernel(w))[k] == plane[k]
    {
      SpreadUntouched(plane, l, e, taps, 0, k);
    }
  }

  /** The six Atkinson taps, each of weight 1; for an image at least four
      pixels wide no two of them target the same cell. */
  lemma AtkinsonTaps(w: int)
    ensures var taps := AtkinsonKernel(w).taps;
      |taps| == 6 &&
      taps[0].offset == 1 && taps[1].offset == 2 && taps[2].offset == w - 1 &&
      taps[3].offset == w && taps[4].offset == w + 1 && taps[5].offset == 2 * w &&
      (forall i :: 0 <= i < 6 ==> taps[i].weight == 1) &&
      (w >= 4 ==> DistinctOffsets(taps))
  {
  }

  /** The targets of one Atkinson visit, for an image at least four pixels
      wide: each target inside the plane gets the clamped sum with one
      eighth of the error. */
  lemma AtkinsonVisitTargets(plane: seq<int>, l: nat, w: int)
    requires l < |plane| && w >= 4
    ensures var e, r := QuantError(plane[l], 8), Visit(plane, l, AtkinsonKernel(w));
      (l + 1 < |plane| ==> r[l + 1] == Clamp(plane[l + 1] + e)) &&
      (l + 2 < |plane| ==> r[l + 2] == Clamp(plane[l + 2] + e)) &&
      (l + w - 1 < |plane| ==> r[l + w - 1] == Clamp(plane[l + w - 1] + e)) &&
      (l + w < |plane| ==> r[l + w] == Clamp(plane[l + w] + e)) &&
      (l + w + 1 < |plane| ==> r[l + w + 1] == Clamp(plane[l + w + 1] + e)) &&
      (l + 2 * w < |plane| ==> r[l + 2 * w] == Clamp(plane[l + 2 * w] + e))
  {
    var taps := AtkinsonKernel(w).taps;
    var e := QuantError(plane[l], 8);
    AtkinsonTaps(w);
    if l + 1 < |plane| { SpreadTarget(plane, l, e, taps, 0, 0); }
    if l + 2 < |plane| { SpreadTarget(plane, l, e, taps, 0, 1); }
    if l + w - 1 < |plane| { SpreadTarget(plane, l, e, taps, 0, 2); }
    if l + w < |plane| { SpreadTarget(plane, l, e, taps, 0, 3); }
    if l + w + 1 < |plane| { SpreadTarget(plane, l, e, taps, 0, 4); }
    if l + 2 * w < |plane| { SpreadTarget(plane, l, e, taps, 0, 5); }
  }

  /** One Atkinson visit of cell l leaves every cell that is not one of its
      six targets alone, whatever the width. */
  lemma AtkinsonVisitUntouched(plane: seq<int>, l: nat, w: int)
    requires l < |plane|
    ensures var r := Visit(plane, l, AtkinsonKernel(w));
      forall k :: 0 <= k < |plane| && k != l + 1 && k != l + 2 && k != l + w - 1 && k != l + w &&
                  k != l + w + 1 && k != l + 2 * w
                  ==> r[k] == plane[k]
  {
    var taps := AtkinsonKernel(w).taps;
    var e := QuantError(plane[l], 8);
    AtkinsonTaps(w);
    forall k | 0 <= k < |plane| && k != l + 1 && k != l + 2 && k != l + w - 1 && k != l + w &&
               k != l + w + 1 && k != l + 2 * w
      ensures Visit(plane, l, AtkinsonKernel(w))[k] == plane[k]
    {
      SpreadUntouched(plane, l, e, taps, 0, k);
    }
  }

  /** A visit with a forward kernel leaves the visited cell and every cell
      before it alone. */
  lemma VisitForward(plane: seq<int>, l: nat, kern: Kernel, k: nat)
    requires l < |plane| && kern.divisor > 0 && Forward(kern) && k <= l
    ensures Visit(plane, l, kern)[k] == plane[k]
  {
    SpreadUntouched(plane, l, QuantError(plane[l], kern.divisor), kern.taps, 0, k);
  }

  /** With a forward kernel, once the scan has reached cell l the cell
      never changes again. */
  lemma {:induction false} VisitedCellFinal(p0: seq<int>, kern: Kernel, l: nat, m: nat)
    requires l <= m <= |p0| && kern.divisor > 0 && Forward(kern)
    ensures l < |p0| ==> PlaneAt(p0, kern, m)[l] == PlaneAt(p0, kern, l)[l]
    decreases m
  {
    if m > l {
      VisitedCellFinal(p0, kern, l, m - 1);
      if l < |p0| {
        VisitForward(PlaneAt(p0, kern, m - 1), m - 1, kern, l);
      }
    }
  }

  /** With a forward kernel, the output of each pixel is its cell of the
      final plane quantised. */
  lemma DiffusedFromFinalPlane(p0: seq<int>, kern: Kernel, l: nat)
    requires l < |p0| && kern.divisor > 0 && Forward(kern)
    ensures DiffusedValues(p0, kern)[l] == Quantize(PlaneAt(p0, kern, |p0|)[l])
  {
    DiffusedValueAt(p0, kern, l);
    VisitedCellFinal(p0, kern, l, |p0|);
  }

  /** At width 1 the Floyd-Steinberg tap `l + width - 1` writes back into
      the cell just visited: a cell of 120 is output black, yet the plane
      is left holding 141, which would quantise to white. */
  lemma WidthOneWriteBack()
    ensures PlaneAt([120], FloydSteinbergKernel(1), 1) == [141]
    ensures DiffusedValues([120], FloydSteinbergKernel(1)) == [0]
    ensures Quantize(141) == 255
  {
    var kern := FloydSteinbergKernel(1);
    var p1 := AddAt([120], 1, 7 * 7);
    var p2 := AddAt(p1, 0, 7 * 3);
    var p3 := AddAt(p2, 1, 7 * 5);
    var p4 := AddAt(p3, 2, 7 * 1);
    assert p4 == [141];
    FloydSteinbergVisit([120], p1, p2, p3, p4, 0, 1, 7);
    assert PlaneAt([120], kern, 1) == Visit([120], 0, kern);
    DiffusedValueAt([120], kern, 0);
  }

  /** After either error diffuser, pixel p is black when its cell of the
      scratch plane was below 129 at the moment the scan reached it, white
      otherwise; alpha is kept. */
  lemma ErrorDiffusedPixel(s: seq<int>, kern: Kernel, p: nat)
    requires |s| % 4 == 0 && kern.divisor > 0 && p < |s| / 4
    ensures 4 * p + 3 < |s|
    ensures var c := ErrorDiffused(s, kern)[4 * p];
      var cell := PlaneAt(LuminancePlane(s), kern, p)[p];
      (c == 0 <==> cell < 129) && (c == 255 <==> cell >= 129)
    ensures ErrorDiffused(s, kern)[4 * p + 1] == ErrorDiffused(s, kern)[4 * p]
    ensures ErrorDiffused(s, kern)[4 * p + 2] == ErrorDiffused(s, kern)[4 * p]
    ensures ErrorDiffused(s, kern)[4 * p + 3] == s[4 * p + 3]
  {
    var v := DiffusedValues(LuminancePlane(s), kern);
    PaintPixel(s, v, p);
    DiffusedValueAt(LuminancePlane(s), kern, p);
  }
}
