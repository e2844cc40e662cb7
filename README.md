# Halftone camera: image pipeline

A browser page captures a camera frame and turns it into a black-and-white
halftone image for printing. This project models, in Dafny, the integer
image pipeline in `script.js` and proves what it computes:

- **Grayscale reduction** (`toGrayscale`, script.js:102-111). One intensity
  byte per pixel of an interleaved RGBA buffer: the mean of the three colour
  samples, truncated by `/ 3 | 0`.
- **Error-diffusion ditherer** (`errorDiffusion1CH`, script.js:113-132).
  - The intensities are copied into a signed 16-bit working buffer.
  - The pixels are visited in raster order and each is thresholded at 128.
  - The quantisation error is pushed to the right, bottom-left, bottom and
    bottom-right neighbours, with weights 5, 3, 5 and 3 out of 16.
  - Each share is truncated toward zero by `| 0`.
  - A neighbour that would lie outside the image is skipped.
- **Re-expansion** (script.js:88-94). The binary result is written back as
  opaque RGBA `(v, v, v, 255)`.

The three routines are methods over `array<int>` with `while` loops, as in
the source:

- `GrayscaleReducer.ToGrayscale`;
- `Ditherer.ErrorDiffusion1CH`, whose nested loops are split into
  `DitherRow` (the inner loop), `VisitPixel` (its body) and `PushError`
  (the four guarded `+=`);
- `Photo.ExpandToRgba`;
- `Photo.ProcessFrame`, which chains the three as takePhoto does.

Each method is proved against a pure specification function, and the
properties are proved about those functions:

- `Grayscale`;
- `Dither`, defined through `Scan`, the working buffer and the output at
  every point of the raster scan;
- `Rgba`.

JavaScript's integer behaviour is written out in `JsNumbers`:

- quotients truncated toward zero;
- the wrap-around of `Int16Array` and `Uint8Array` stores;
- the clamping of the canvas's `Uint8ClampedArray`.

The model proves that for byte input none of these stores ever wraps or
clamps. Modelling the buffers as unbounded integers is therefore faithful.

Two points follow the code as written:

- `script.js` never checks a buffer's length against width × height × channels,
  so there is no error result for mismatched dimensions. The model instead
  requires the buffers to be long enough (`<=`, since the code only ever
  reads the first width × height pixels).
- The kernel is the 4-neighbour 5/3/5/3 kernel described above, not the
  7/3/5/1 Floyd–Steinberg kernel; the model uses the code's kernel.

## Model

| member | source | states |
|---|---|---|
| JsNumbers.TruncDiv | script.js:108 | `a / d \| 0` for d > 0: the quotient truncated toward zero, bounded on both sides for either sign of `a` |
| JsNumbers.TruncDivOdd | script.js:125-128 | truncation is symmetric about zero: the share of −e is minus the share of e |
| JsNumbers.TruncDivIsNotFloor | script.js:125 | −620 / 16 truncates to −38, where Euclidean division gives −39 |
| JsNumbers.ToInt16 | script.js:114 | a store into an `Int16Array` keeps the value modulo 2^16 inside [−32768, 32767], and leaves an in-range value unchanged |
| JsNumbers.ToUint8 | script.js:108 | a store into a `Uint8Array` keeps the value modulo 256, and leaves a byte unchanged |
| JsNumbers.NewTypedArray | script.js:115 | `new Uint8Array(n)` gives a fresh array of n elements, all 0; the model allocates the fresh image data of `createImageData` (script.js:88) the same way |
| JsNumbers.ClampUint8 | script.js:90-93 | a store into the image data clamps to [0, 255] and leaves a byte unchanged |
| Raster.IdxInRange | script.js:119 | `idx = y * width + x` of an in-image pixel is inside the width·height buffer |
| Raster.IdxInjective | script.js:119 | distinct pixels of the image have distinct indices |
| Raster.IdxMono | script.js:117-119 | raster visiting order and index order agree |
| Raster.IdxOnto | script.js:119 | every index of the buffer is the index of a pixel of the image |
| Raster.NeighbourIdx | script.js:125-128 | the four neighbour indices are idx+1, idx+width−1, idx+width and idx+width+1, and each is inside the buffer whenever its bounds test passes |
| GrayscaleReducer.Gray | script.js:105-108 | the intensity of a pixel with byte colour samples is itself a byte |
| GrayscaleReducer.Grayscale | script.js:103-108 | the intensity buffer has one entry per pixel |
| GrayscaleReducer.GrayscaleIsTruncatedMean | script.js:103-108 | entry i is the truncated mean of samples 4i, 4i+1 and 4i+2; for byte samples it is a byte |
| GrayscaleReducer.AlphaIgnored | script.js:105-108 | the alpha samples have no effect on the result |
| GrayscaleReducer.StoreGray | script.js:108 | for byte samples, `(r + g + b) / 3 \| 0` stored into the `Uint8Array` is their Euclidean mean, unchanged by the store |
| GrayscaleReducer.ToGrayscale | script.js:102-111 | returns a fresh (`fresh(output)`) buffer of width·height entries holding the intensity of every pixel |
| Diffusion.Threshold | script.js:121 | the new pixel is 0 or 255, and it is 255 exactly when the working value is at least 128 |
| Diffusion.Error | script.js:122 | the error is below the working value exactly when the pixel went white; for a working value in [−127, 382] it lies in [−127, 127] |
| Diffusion.Share | script.js:125-128 | `(weight * error) / 16 \| 0`: the quotient of weight·error by 16 truncated toward zero, bounded on both sides for either sign |
| Diffusion.Spread | script.js:125-128 | the four guarded `+=` of the error at idx, in the source's order, keep the buffer's length; cell by cell they are stated by `SpreadAt` and `SpreadFrame` |
| Diffusion.Diffuse | script.js:119-128 | the working buffer after visiting (x, y) keeps its width·height length; what changes is stated by `DiffuseFrame` and `DiffuseAtCell` |
| Diffusion.SpreadAt | script.js:125-128 | cell by cell, the four guarded pushes add exactly the shares aimed at that cell |
| Diffusion.SpreadFrame | script.js:125-128 | the pushes leave every cell up to idx unchanged, add exactly the truncated 5/16 or 3/16 share to each enabled neighbour, and leave every other cell, a disabled neighbour included, unchanged |
| Diffusion.DiffuseFrame | script.js:119-128 | visiting (x, y) writes only forward: cells up to idx keep their values, each neighbour whose bounds test passes gets exactly its truncated share, and every other cell keeps its value, including a neighbour index whose bounds test fails (so idx + 1 at the end of a row, the first pixel of the next row, is left alone) |
| Diffusion.DiffuseAtCell | script.js:125-128 | in image coordinates, each cell gains the share of its kernel weight (5 right, 3 bottom-left, 5 below, 3 bottom-right, 0 elsewhere and outside the image), so there is no wrap-around from one row to the next |
| Diffusion.Scan | script.js:117-130 | when the scan reaches (x, y), the output written so far has one entry per visited pixel, each 0 or 255 |
| Diffusion.State | script.js:114-128 | the working buffer when the scan reaches (x, y) has width·height entries |
| Diffusion.Out | script.js:115-123 | the output when the scan reaches (x, y) has one entry per pixel visited so far |
| Diffusion.OutStep | script.js:120-123 | visiting (x, y) appends the thresholded working value of its cell to the output |
| Diffusion.RowStep | script.js:117-118 | the end of row y and the start of row y + 1 are the same state of the scan |
| Diffusion.Dither | script.js:113-132 | the ditherer's result has width·height entries, each exactly 0 or 255 |
| Diffusion.OutKeepsPast | script.js:123 | visiting a pixel only appends to the output: every entry written before it keeps its value |
| Diffusion.OutAgrees | script.js:123 | an output entry, once written, is the same at every later point of the scan |
| Diffusion.OutPrefix | script.js:123 | the output written at one point of the scan is a prefix of the output at any later point: no output cell is rewritten |
| Diffusion.DitherAt | script.js:120-123 | output pixel (x, y) is 255 exactly when its working value at the moment the scan visits it is ≥ 128, and 0 exactly when it is < 128; the error is that value minus the output |
| Diffusion.DiffuseKeepsPast | script.js:125-128 | visiting (x, y) leaves every cell up to its own index alone |
| Diffusion.VisitKeepsPast | script.js:119-128 | a cell before the scan position is left alone by every later visit |
| Diffusion.Settled | script.js:119-128 | a visited working cell never changes again |
| Diffusion.DiffuseOfBinary | script.js:120-128 | a 0 or 255 value carries no error, so visiting it in a binary buffer changes nothing |
| Diffusion.StateOfBinary | script.js:117-130 | the scan never changes a binary working buffer |
| Diffusion.OutOfBinaryStep | script.js:120-123 | visiting a pixel of a binary image appends its own value to the output |
| Diffusion.OutOfBinary | script.js:117-130 | on a binary image, the output written so far copies the input |
| Diffusion.BinaryFixpoint | script.js:113-132 | an image that is already black and white is returned unchanged |
| Diffusion.SinglePixel | script.js:113-132 | a 1 × 1 image has no neighbours, so it is just thresholded |
| Diffusion.SinglePixelBright | script.js:121 | [200] dithers to [255] |
| Diffusion.SinglePixelDark | script.js:121 | [50] dithers to [0] |
| Diffusion.ThreeByOne | script.js:113-132 | a 3 × 1 row of 100s: the working buffer becomes [100, 131, 100] and then [100, 131, 62] (−38.75 truncated to −38), and the result is [0, 255, 0] |
| Diffusion.WhiteTwoByTwo | script.js:113-132 | four 255 intensities in a 2 × 2 image dither to four 255s |
| DiffusionBounds.InWeight | script.js:125-128 | the kernel weight a cell can have received from visited pixels is between 0 and 16 |
| DiffusionBounds.ShareBound | script.js:125-128 | for an error in [−127, 127], a share is at most 127/16 per unit of weight, and at most 39 in size |
| DiffusionBounds.InWeightStep | script.js:125-128 | visiting a pixel adds to each unvisited cell's received weight exactly the kernel weight that pixel gives it |
| DiffusionBounds.InitialBounded | script.js:114 | the range invariant holds for the copied intensities at position (0, 0), before the scan starts |
| DiffusionBounds.DiffuseKeepsCell | script.js:120-128 | one visit keeps the range invariant for each cell |
| DiffusionBounds.DiffuseKeepsBounded | script.js:120-128 | one visit keeps the range invariant for the whole buffer |
| DiffusionBounds.RowWrapBounded | script.js:117-118 | moving to the next row keeps the range invariant |
| DiffusionBounds.StateBounded | script.js:117-130 | for byte input, the range invariant holds at every point of the scan |
| DiffusionBounds.BoundedAt | script.js:120-128 | under the invariant, every cell lies in [−127, 382] |
| DiffusionBounds.WorkingValuesBounded | script.js:114 | for byte input, every working value at every point of the scan lies in [−127, 382], so the `Int16Array` never wraps |
| DiffusionBounds.ErrorBounded | script.js:120-122 | for byte input, every quantisation error lies in [−127, 127] |
| Ditherer.ErrorDiffusion1CH | script.js:113-132 | returns a fresh (`fresh(output)`) width·height buffer equal to `Dither` of the input, so every entry is 0 or 255 |
| Ditherer.CopyToInt16 | script.js:114 | the working buffer is a fresh copy of the first width·height intensities |
| Ditherer.DitherRow | script.js:118-129 | one pass of the inner loop takes the working buffer and the output from the scan's state at the start of row y to its state at the end of the row; output cells of later rows keep the 0 of the fresh `Uint8Array` |
| Ditherer.VisitPixel | script.js:119-128 | one pass of the loop body writes the thresholded value of pixel (x, y) to the output and diffuses its error, taking both buffers from the scan's state at (x, y) to its state at the next pixel; output cells after idx keep the 0 of the fresh `Uint8Array` |
| Ditherer.PushError | script.js:125-128 | the four guarded `+=` stores leave the working buffer equal to the diffusion step of pixel (x, y); none of the 16-bit stores wraps |
| Photo.Rgba | script.js:88-94 | the re-expanded image data has four samples per pixel |
| Photo.Frame | script.js:84-94 | the image data put back on the canvas has four samples per pixel, each 0 or 255 |
| Photo.ExpandToRgba | script.js:88-94 | for each pixel i, samples 4i, 4i+1 and 4i+2 hold result[i] and sample 4i+3 holds 255; the rest of the image data is unchanged |
| Photo.ProcessFrame | script.js:84-95 | the image data put back on the canvas is the re-expanded dither of the grayscale of the captured pixels; every pixel is opaque black or opaque white |
| Photo.GrayscaleOfRgba | script.js:88-94 | grayscale reduction undoes re-expansion |
| Photo.FrameIdempotent | script.js:84-95 | processing an already processed frame gives the same frame again |
| Photo.WhiteRgba | script.js:88-94 | four white pixels re-expand to sixteen samples of 255 |
| Photo.WhiteFrame | script.js:84-94 | an all-white 2 × 2 frame has grayscale four 255s and comes out of the pipeline unchanged |

## Left out

- Camera acquisition (`getUserMedia`), DOM lookups and alerts (script.js:1-21, 42-51) are browser I/O.
- `resizeCanvas` and the target-height computation (script.js:23-40, 54-59) are floating-point maths and canvas side effects.
- The centre-crop rectangle and `drawImage` (script.js:61-81) use floating-point aspect ratios and the canvas rendering API.
- The date string (script.js:97-99) depends on the clock and only sets DOM text.
- `printCanvas` and `printFromCanvas` (script.js:134-170) are canvas drawing and a function from a file that is not part of this model.
- `getImageData`, `createImageData` and `putImageData` are not modelled as calls.
  - The captured pixels are an array passed in.
  - `createImageData` is a fresh zeroed array of 4·width·height samples.
  - The result is the array handed back.
- Reads past the end of a typed array are not modelled. Such a read yields `undefined` in JavaScript, which stores as 0. The methods instead require buffers long enough for width·height pixels.
- No `InvalidDimensions` error path is modelled, because the code has none.
- Samples outside [0, 255] are not modelled. The buffers are typed byte arrays, so the methods require byte input.
- The `| 0` conversion to a 32-bit integer is modelled only as truncation toward zero. Its 32-bit wrap-around is left out, because the operands never exceed a few thousand in absolute value.
- Negative or fractional canvas dimensions are not modelled. Width and height are natural numbers.
