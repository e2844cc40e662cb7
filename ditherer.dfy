/** errorDiffusion1CH (script.js:113-132): the raster-order error-diffusion
    ditherer over a signed 16-bit working buffer. */
module Ditherer {
  import opened JsNumbers
  import opened Raster
  import opened Diffusion
  import opened DiffusionBounds

  /** Thresholds each pixel of `u8array` at 128 in raster order, pushing
      5/16, 3/16, 5/16 and 3/16 of the error (each truncated toward zero)
      to the right, bottom-left, bottom and bottom-right neighbours. Every
      store into the `Int16Array` and the `Uint8Array` is written with its
      wrap-around; for byte input none of them wraps. */
  method ErrorDiffusion1CH(u8array: array<int>, width: nat, height: nat) returns (output: array<int>)
    requires width * height <= u8array.Length
    requires forall i :: 0 <= i < width * height ==> IsByte(u8array[i])
    ensures fresh(output)
    ensures output.Length == width * height
    ensures output[..] == Dither(u8array[..width * height], width, height)
    ensures forall i :: 0 <= i < output.Length ==> output[i] == 0 || output[i] == 255
  {
    var n := width * height;
    ghost var g := u8array[..n];
    assert AllBytes(g);
    var buffer := CopyToInt16(u8array, n);
    output := NewTypedArray(n);
    var y := 0;
    while y < height
      invariant 0 <= y <= height && buffer.Length == n && output.Length == n
      invariant Reached(buffer[..], output[..], g, width, height, 0, y)
    {
      DitherRow(buffer, output, g, width, height, y);
      y := y + 1;
      RowStep(g, width, height, y);
    }
    assert Idx(width, 0, height) == n;
    assert output[..] == output[..n];
  }

  /** The arrays hold the scan's state at (x, y): the whole working buffer,
      the output for every pixel visited so far, and the zeros the fresh
      `Uint8Array` starts with at every pixel not yet visited. */
  ghost predicate Reached(buffer: seq<int>, output: seq<int>, g: seq<int>, width: nat, height: nat, x: nat, y: nat)
    requires |g| == width * height && IsPos(width, height, x, y)
  {
    buffer == State(g, width, height, x, y) &&
    Idx(width, x, y) <= |output| && output[..Idx(width, x, y)] == Out(g, width, height, x, y) &&
    forall k :: Idx(width, x, y) <= k < |output| ==> output[k] == 0
  }

  /** `new Int16Array(n).map((_, i) => u8array[i])` (script.js:114): a
      fresh signed 16-bit copy of the first `n` entries; bytes fit unchanged. */
  method CopyToInt16(u8array: array<int>, n: nat) returns (buffer: array<int>)
    requires n <= u8array.Length
    requires forall i :: 0 <= i < n ==> IsByte(u8array[i])
    ensures fresh(buffer)
    ensures buffer[..] == u8array[..n]
  {
    buffer := new int[n](i requires 0 <= i < n reads u8array => ToInt16(u8array[i]));
  }

  /** One pass of the inner loop (script.js:118-129): visits row y from left
      to right, taking the working buffer and the output from the scan's
      state at the start of the row to its state at the end of the row. */
  method DitherRow(buffer: array<int>, output: array<int>, ghost g: seq<int>, width: nat, height: nat, y: nat)
    requires buffer != output
    requires |g| == width * height && AllBytes(g) && y < height
    requires buffer.Length == width * height && output.Length == width * height
    requires Reached(buffer[..], output[..], g, width, height, 0, y)
    modifies buffer, output
    ensures Reached(buffer[..], output[..], g, width, height, width, y)
  {
    var x := 0;
    while x < width
      invariant 0 <= x <= width
      invariant Reached(buffer[..], output[..], g, width, height, x, y)
    {
      VisitPixel(buffer, output, g, width, height, x, y);
      x := x + 1;
    }
  }

  /** The body of the inner loop (script.js:119-128) for pixel (x, y):
      thresholds its working value into the output and pushes the error to
      its neighbours, taking the scan from (x, y) to the next pixel. */
  method VisitPixel(buffer: array<int>, output: array<int>, ghost g: seq<int>, width: nat, height: nat, x: nat, y: nat)
    requires buffer != output
    requires |g| == width * height && AllBytes(g) && x < width && y < height
    requires buffer.Length == width * height && output.Length == width * height
    requires Reached(buffer[..], output[..], g, width, height, x, y)
    modifies buffer, output
    ensures Reached(buffer[..], output[..], g, width, height, x + 1, y)
  {
    OutStep(g, width, height, x, y);
    ghost var before := output[..];
    var idx := y * width + x;
    var oldPixel := buffer[idx];
    var newPixel := if oldPixel >= 128 then 255 else 0;
    var error := oldPixel - newPixel;
    output[idx] := ToUint8(newPixel);
    assert output[..idx] == before[..idx];
    assert output[..idx + 1] == output[..idx] + [output[idx]];
    assert buffer[..] == State(g, width, height, x, y);
    WorkingValuesBounded(g, width, height, x, y);
    PushError(buffer, width, height, x, y, error);
  }

  /** The four guarded pushes of the loop body (script.js:125-128): the
      error of pixel (x, y) goes to each neighbour whose bounds test passes,
      in the source's order, each store into the `Int16Array` written with
      its wrap-around. The working values are in range, so none wraps. */
  method PushError(buffer: array<int>, width: nat, height: nat, x: nat, y: nat, error: int)
    requires buffer.Length == width * height
    requires x < width && y < height
    requires forall j :: 0 <= j < buffer.Length ==> -127 <= buffer[j] <= 382
    requires Idx(width, x, y) < width * height && error == Error(buffer[Idx(width, x, y)])
    modifies buffer
    ensures buffer[..] == Diffuse(old(buffer[..]), width, height, x, y)
  {
    NeighbourIdx(width, height, x, y);
    ghost var s := buffer[..];
    var idx := y * width + x;
    ShareBound(5, error);
    ShareBound(3, error);
    ghost var right, left, below := x + 1 < width, 1 <= x, y + 1 < height;
    ghost var s1 := AddIf(s, right, idx + 1, Share(5, error));
    ghost var s2 := AddIf(s1, left && below, idx + width - 1, Share(3, error));
    ghost var s3 := AddIf(s2, below, idx + width, Share(5, error));
    ghost var s4 := AddIf(s3, right && below, idx + width + 1, Share(3, error));
    assert s4 == Spread(s, idx, width, right, left, below);
    if x + 1 < width {
      buffer[idx + 1] := ToInt16(buffer[idx + 1] + TruncDiv(5 * error, 16));
    }
    assert buffer[..] == s1;
    if x >= 1 && y + 1 < height {
      buffer[idx + width - 1] := ToInt16(buffer[idx + width - 1] + TruncDiv(3 * error, 16));
    }
    assert buffer[..] == s2;
    if y + 1 < height {
      assert s2[idx + width] == s[idx + width];
      buffer[idx + width] := ToInt16(buffer[idx + width] + TruncDiv(5 * error, 16));
    }
    assert buffer[..] == s3;
    if x + 1 < width && y + 1 < height {
      assert s3[idx + width + 1] == s[idx + width + 1];
      buffer[idx + width + 1] := ToInt16(buffer[idx + width + 1] + TruncDiv(3 * error, 16));
    }
    assert buffer[..] == s4;
  }
}
