/** The grayscale reducer: one intensity byte per pixel of an interleaved
    RGBA buffer, the truncated mean of the three colour samples. */
module GrayscaleReducer {
  import opened JsNumbers

  /** Intensity of one pixel: the mean of its colour samples, rounded down. */
  function Gray(r: int, g: int, b: int): (v: int)
    ensures IsByte(r) && IsByte(g) && IsByte(b) ==> IsByte(v)
  {
    (r + g + b) / 3
  }

  /** The intensity buffer for the first `n` pixels of an RGBA buffer. */
  function Grayscale(rgba: seq<int>, n: nat): (gray: seq<int>)
    requires 4 * n <= |rgba|
    ensures |gray| == n
  {
    seq(n, i requires 0 <= i < n => Gray(rgba[4 * i], rgba[4 * i + 1], rgba[4 * i + 2]))
  }

  /** Each intensity is the truncated mean of its pixel's colour samples,
      and of three bytes it is itself a byte. */
  lemma GrayscaleIsTruncatedMean(rgba: seq<int>, n: nat, i: nat)
    requires 4 * n <= |rgba| && i < n
    ensures var sum := rgba[4 * i] + rgba[4 * i + 1] + rgba[4 * i + 2];
      3 * Grayscale(rgba, n)[i] <= sum < 3 * Grayscale(rgba, n)[i] + 3
    ensures (forall j :: 0 <= j < 4 * n ==> IsByte(rgba[j])) ==> IsByte(Grayscale(rgba, n)[i])
  {
  }

  /** The alpha sample of a pixel has no effect on its intensity. */
  lemma AlphaIgnored(rgba: seq<int>, other: seq<int>, n: nat)
    requires 4 * n <= |rgba| && |other| == |rgba|
    requires forall i :: 0 <= i < |rgba| && i % 4 != 3 ==> other[i] == rgba[i]
    ensures Grayscale(other, n) == Grayscale(rgba, n)
  {
    forall i | 0 <= i < n
      ensures Grayscale(other, n)[i] == Grayscale(rgba, n)[i]
    {
      assert (4 * i) % 4 == 0 && (4 * i + 1) % 4 == 1 && (4 * i + 2) % 4 == 2;
    }
  }

  /** The store `output[i] = (r + g + b) / 3 | 0` of byte samples writes
      their truncated mean, unchanged by the `Uint8Array`. */
  lemma StoreGray(r: int, g: int, b: int)
    requires IsByte(r) && IsByte(g) && IsByte(b)
    ensures ToUint8(TruncDiv(r + g + b, 3)) == Gray(r, g, b)
    ensures IsByte(Gray(r, g, b))
  {
  }

  /** toGrayscale (script.js:102-111): fills a fresh `Uint8Array` of
      width*height entries; the `/ 3 | 0` truncates and the store wraps
      modulo 256, which never matters for byte input. */
  method ToGrayscale(rgba: array<int>, width: nat, height: nat) returns (output: array<int>)
    requires 4 * (width * height) <= rgba.Length
    requires forall i :: 0 <= i < 4 * (width * height) ==> IsByte(rgba[i])
    ensures fresh(output)
    ensures output.Length == width * height
    ensures output[..] == Grayscale(rgba[..], width * height)
  {
    // The zeros of the fresh Uint8Array are all overwritten by the loop.
    var n := width * height;
    ghost var gray := Grayscale(rgba[..], n);
    output := new int[n];
    var i := 0;
    while i < n
      invariant 0 <= i <= n && output.Length == n
      invariant forall k :: 0 <= k < i ==> output[k] == gray[k]
    {
      var r := rgba[i * 4];
      var g := rgba[i * 4 + 1];
      var b := rgba[i * 4 + 2];
      var v := ToUint8(TruncDiv(r + g + b, 3));
      assert v == gray[i] by {
        StoreGray(r, g, b);
      }
      output[i] := v;
      i := i + 1;
    }
    assert output[..] == gray;
  }
}
