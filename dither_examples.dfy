/** The cases of the test suite, each run on a fresh 1x1 image whose red
    byte is set to 255 (a transparent red pixel). Every method returns the
    bytes the case inspects. */
module DitherExamples {
  import opened Uint8Clamped
  import opened DitherSpec
  import opened DitherProperties
  import opened Dither

  /** A fresh 1x1 image holding the pixel (r, 0, 0, a). */
  method Pixel(r: int, a: int) returns (image: ImageData)
    requires IsByte(r) && IsByte(a)
    ensures fresh(image) && fresh(image.data) && image.Valid() && image.width == 1 && image.height == 1
    ensures image.data[..] == [r, 0, 0, a]
  {
    image := new ImageData(1, 1);
    image.data[0] := r;
    image.data[3] := a;
  }

  /** A red pixel turns gray 76: its luminance 76.245 rounds down. */
  method GrayscaleRed() returns (r: int, g: int, b: int)
    ensures r == 76 && g == 76 && b == 76
  {
    var image := Pixel(255, 0);
    Grayscale(image);
    GrayscaledPixel([255, 0, 0, 0], 0);
    r, g, b := image.data[0], image.data[1], image.data[2];
  }

  /** A red pixel is white against threshold 76 and black against 77. */
  method ThresholdRed(t: int) returns (r: int, g: int, b: int)
    ensures t <= 76 ==> r == 255 && g == 255 && b == 255
    ensures t >= 77 ==> r == 0 && g == 0 && b == 0
  {
    var image := Pixel(255, 0);
    Threshold(image, t);
    ThresholdedPixel([255, 0, 0, 0], t, 0);
    r, g, b := image.data[0], image.data[1], image.data[2];
  }

  /** A red pixel at the origin has bias 15 and map value 45: white against
      threshold 40, black against 77. */
  method BayerRed(t: int) returns (r: int, g: int, b: int)
    ensures t <= 45 ==> r == 255 && g == 255 && b == 255
    ensures t >= 46 ==> r == 0 && g == 0 && b == 0
  {
    var image := Pixel(255, 0);
    Bayer(image, t);
    BayerDitheredPixel([255, 0, 0, 0], 1, t, 0);
    r, g, b := image.data[0], image.data[1], image.data[2];
  }

  /** Floyd-Steinberg turns a red pixel black. */
  method FloydSteinbergRed() returns (r: int, g: int, b: int)
    ensures r == 0 && g == 0 && b == 0
  {
    var image := Pixel(255, 0);
    FloydSteinberg(image);
    ErrorDiffusedPixel([255, 0, 0, 0], FloydSteinbergKernel(1), 0);
    r, g, b := image.data[0], image.data[1], image.data[2];
  }

  /** Atkinson turns a red pixel black. */
  method AtkinsonRed() returns (r: int, g: int, b: int)
    ensures r == 0 && g == 0 && b == 0
  {
    var image := Pixel(255, 0);
    Atkinson(image);
    ErrorDiffusedPixel([255, 0, 0, 0], AtkinsonKernel(1), 0);
    r, g, b := image.data[0], image.data[1], image.data[2];
  }

  /** The five transforms in the order of the alpha test, on any image:
      every alpha byte survives the whole run. */
  method AllTransforms(image: ImageData)
    requires image.Valid() && IsBytes(image.data[..])
    modifies image.data
    ensures IsBytes(image.data[..])
    ensures SameAlpha(old(image.data[..]), image.data[..])
  {
    Atkinson(image);
    Bayer(image, 0);
    FloydSteinberg(image);
    Grayscale(image);
    Threshold(image, 0);
  }

  /** A pixel of alpha 133 keeps that alpha through all five transforms. */
  method AlphaSurvives() returns (alpha: int)
    ensures alpha == 133
  {
    var image := Pixel(0, 133);
    AllTransforms(image);
    alpha := image.data[3];
  }
}
