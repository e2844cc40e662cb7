/** The image steps of takePhoto (script.js:84-95): grayscale, dither, and
    re-expand the binary result into opaque RGBA image data. */
module Photo {
  import opened JsNumbers
  import opened GrayscaleReducer
  import opened Diffusion
  import opened Ditherer

  /** RGBA image data showing a one-channel image: each value copied into
      the three colour samples, alpha fully opaque. */
  function Rgba(result: seq<int>): (data: seq<int>)
    ensures |data| == 4 * |result|
  {
    seq(4 * |result|, k requires 0 <= k < 4 * |result| => if k % 4 == 3 then 255 else result[k / 4])
  }

  /** The image data takePhoto puts on the canvas for captured pixels. */
  function Frame(pixels: seq<int>, width: nat, height: nat): (data: seq<int>)
    requires 4 * (width * height) <= |pixels|
    ensures |data| == 4 * (width * height)
    ensures forall k :: 0 <= k < |data| ==> data[k] == 0 || data[k] == 255
  {
    Rgba(Dither(Grayscale(pixels, width * height), width, height))
  }

  /** The re-expansion loop (script.js:89-94): writes `(v, v, v, 255)` into
      the four samples of each pixel, through the clamping stores of the
      canvas's `Uint8ClampedArray`. */
  method ExpandToRgba(result: array<int>, outputData: array<int>)
    requires result != outputData
    requires 4 * result.Length <= outputData.Length
    requires forall i :: 0 <= i < result.Length ==> IsByte(result[i])
    modifies outputData
    ensures forall i :: 0 <= i < result.Length ==>
      outputData[4 * i] == result[i] && outputData[4 * i + 1] == result[i] &&
      outputData[4 * i + 2] == result[i] && outputData[4 * i + 3] == 255
    ensures outputData[..4 * result.Length] == Rgba(result[..])
    ensures outputData[4 * result.Length..] == old(outputData[4 * result.Length..])
  {
    ghost var want := Rgba(result[..]);
    var i := 0;
    while i < result.Length
      invariant 0 <= i <= result.Length
      invariant forall k :: 0 <= k < 4 * i ==> outputData[k] == want[k]
      invariant forall k :: 4 * i <= k < outputData.Length ==> outputData[k] == old(outputData[k])
    {
      outputData[i * 4 + 0] := ClampUint8(result[i]);
      outputData[i * 4 + 1] := ClampUint8(result[i]);
      outputData[i * 4 + 2] := ClampUint8(result[i]);
      outputData[i * 4 + 3] := ClampUint8(255);
      i := i + 1;
    }
    assert outputData[..4 * result.Length] == want;
  }

  /** Lines 84-95 of takePhoto over plain buffers: `pixels` is the canvas
      image data, the result the fresh image data put back on the canvas. */
  method ProcessFrame(pixels: array<int>, width: nat, height: nat) returns (outputData: array<int>)
    requires 4 * (width * height) <= pixels.Length
    requires forall i :: 0 <= i < pixels.Length ==> IsByte(pixels[i])
    ensures outputData.Length == 4 * (width * height)
    ensures outputData[..] == Frame(pixels[..], width, height)
    ensures forall i :: 0 <= i < width * height ==>
      (outputData[4 * i] == 0 || outputData[4 * i] == 255) &&
      outputData[4 * i + 1] == outputData[4 * i] && outputData[4 * i + 2] == outputData[4 * i] &&
      outputData[4 * i + 3] == 255
  {
    var gray := ToGrayscale(pixels, width, height);
    forall k | 0 <= k < width * height
      ensures IsByte(gray[k])
    {
      GrayscaleIsTruncatedMean(pixels[..], width * height, k);
    }
    var result := ErrorDiffusion1CH(gray, width, height);
    outputData := NewTypedArray(4 * (width * height));
    ExpandToRgba(result, outputData);
    assert gray[..width * height] == gray[..];
    assert outputData[..] == outputData[..4 * result.Length];
  }

  /** Re-expansion is undone by grayscale reduction. */
  lemma GrayscaleOfRgba(result: seq<int>)
    ensures Grayscale(Rgba(result), |result|) == result
  {
    var data := Rgba(result);
    forall i | 0 <= i < |result|
      ensures Grayscale(data, |result|)[i] == result[i]
    {
      assert (4 * i) / 4 == i && (4 * i + 1) / 4 == i && (4 * i + 2) / 4 == i;
      assert (4 * i) % 4 == 0 && (4 * i + 1) % 4 == 1 && (4 * i + 2) % 4 == 2;
    }
  }

  /** Processing the processed frame again changes nothing: the dithered
      image is black and white, which grayscale keeps and the ditherer
      leaves alone. */
  lemma FrameIdempotent(pixels: seq<int>, width: nat, height: nat)
    requires 4 * (width * height) <= |pixels|
    ensures |Frame(pixels, width, height)| == 4 * (width * height)
    ensures Frame(Frame(pixels, width, height), width, height) == Frame(pixels, width, height)
  {
    var d := Dither(Grayscale(pixels, width * height), width, height);
    GrayscaleOfRgba(d);
    BinaryFixpoint(d, width, height);
  }

  /** Four white pixels re-expand to sixteen samples of 255. */
  lemma WhiteRgba()
    ensures |Rgba([255, 255, 255, 255])| == 16
    ensures forall k :: 0 <= k < 16 ==> Rgba([255, 255, 255, 255])[k] == 255
  {
    var frame := Rgba([255, 255, 255, 255]);
    forall k | 0 <= k < 16
      ensures frame[k] == 255
    {
      assert k / 4 < 4;
    }
  }

  /** The all-white 2 x 2 frame comes out all white: its grayscale is four
      255s, which the ditherer keeps and re-expansion turns back into the
      same sixteen samples. */
  lemma WhiteFrame()
    ensures Grayscale(Rgba([255, 255, 255, 255]), 4) == [255, 255, 255, 255]
    ensures Frame(Rgba([255, 255, 255, 255]), 2, 2) == Rgba([255, 255, 255, 255])
  {
    var white := [255, 255, 255, 255];
    GrayscaleOfRgba(white);
    WhiteTwoByTwo();
  }
}
