/** The error-diffusion ditherer as a function of its input: the working
    buffer at each point of the raster scan, and the binary output. */
module Diffusion {
  import opened JsNumbers
  import opened Raster

  /** Thresholding at 128. */
  function Threshold(v: int): (r: int)
    ensures r == 0 || r == 255
    ensures r == 255 <==> 128 <= v
  {
    if v >= 128 then 255 else 0
  }

  /** The part `(weight * error) / 16 | 0` of a quantisation error. */
  function Share(weight: int, error: int): (r: int)
    ensures 0 <= weight * error ==> 0 <= r * 16 <= weight * error < r * 16 + 16
    ensures weight * error < 0 ==> r * 16 - 16 < weight * error <= r * 16 <= 0
  {
    TruncDiv(weight * error, 16)
  }

  /** Quantisation error of a working value. */
  function Error(v: int): (e: int)
    ensures -127 <= v <= 382 ==> -127 <= e <= 127
    ensures 128 <= v <==> e < v
  {
    v - Threshold(v)
  }

  /** `s` with `v` added at index `j` when `guard` holds: one `buffer[j] += v`
      behind its bounds test. */
  function AddIf(s: seq<int>, guard: bool, j: int, v: int): (t: seq<int>)
    requires guard ==> 0 <= j < |s|
    ensures |t| == |s|
  {
    if guard then s[j := s[j] + v] else s
  }

  /** Pushes the error of the value at `idx` to the cells `idx + 1` (when
      `right`), `idx + w - 1` (when `left` and `below`), `idx + w` (when
      `below`) and `idx + w + 1` (when `right` and `below`), in that order. */
  function Spread(s: seq<int>, idx: nat, w: nat, right: bool, left: bool, below: bool): (t: seq<int>)
    requires idx < |s|
    requires right ==> idx + 1 < |s|
    requires below ==> idx + w < |s| && (right ==> idx + w + 1 < |s|) && (left ==> 1 <= w)
    ensures |t| == |s|
  {
    var error := Error(s[idx]);
    var s1 := AddIf(s, right, idx + 1, Share(5, error));
    var s2 := AddIf(s1, left && below, idx + w - 1, Share(3, error));
    var s3 := AddIf(s2, below, idx + w, Share(5, error));
    AddIf(s3, right && below, idx + w + 1, Share(3, error))
  }

  /** Spread cell by cell: each cell gains the shares aimed at it. */
  lemma SpreadAt(s: seq<int>, idx: nat, w: nat, right: bool, left: bool, below: bool, k: nat)
    requires idx < |s|
    requires right ==> idx + 1 < |s|
    requires below ==> idx + w < |s| && (right ==> idx + w + 1 < |s|) && (left ==> 1 <= w)
    requires k < |s|
    ensures var e := Error(s[idx]);
      Spread(s, idx, w, right, left, below)[k] == s[k]
        + (if right && k == idx + 1 then Share(5, e) else 0)
        + (if left && below && k == idx + w - 1 then Share(3, e) else 0)
        + (if below && k == idx + w then Share(5, e) else 0)
        + (if right && below && k == idx + w + 1 then Share(3, e) else 0)
  {
  }

  /** The working buffer after pixel (x, y) has been thresholded and its
      error pushed right, bottom-left, bottom and bottom-right, each push
      guarded by its bounds test. */
  function Diffuse(s: seq<int>, w: nat, h: nat, x: nat, y: nat): (t: seq<int>)
    requires |s| == w * h && x < w && y < h
    ensures |t| == |s|
  {
    NeighbourIdx(w, h, x, y);
    Spread(s, Idx(w, x, y), w, x + 1 < w, 1 <= x, y + 1 < h)
  }

  /** Scan positions: (x, y) with x <= width in a row, or (0, height) once
      every row is done. Position (width, y) and (0, y + 1) name the same
      moment of the scan. */
  predicate IsPos(w: nat, h: nat, x: nat, y: nat) { (y < h && x <= w) || (y == h && x == 0) }

  /** The two buffers of the scan: the signed working values and the
      output written so far. */
  datatype Progress = Progress(buffer: seq<int>, output: seq<int>)

  /** The scan when it reaches position (x, y): every pixel before it in
      raster order has been thresholded into the output, in raster order,
      and has pushed its error into the working buffer. */
  function Scan(g: seq<int>, w: nat, h: nat, x: nat, y: nat): (p: Progress)
    requires |g| == w * h && IsPos(w, h, x, y)
    ensures |p.buffer| == w * h && |p.output| == Idx(w, x, y)
    ensures forall i :: 0 <= i < |p.output| ==> p.output[i] == 0 || p.output[i] == 255
    decreases y, x
  {
    if x > 0 then
      var p := Scan(g, w, h, x - 1, y);
      NeighbourIdx(w, h, x - 1, y);
      Progress(Diffuse(p.buffer, w, h, x - 1, y), p.output + [Threshold(p.buffer[Idx(w, x - 1, y)])])
    else if y > 0 then
      assert Idx(w, 0, y) == Idx(w, w, y - 1) by { assert y * w == (y - 1) * w + w; }
      Scan(g, w, h, w, y - 1)
    else Progress(g, [])
  }

  /** The working buffer when the scan reaches (x, y). */
  function State(g: seq<int>, w: nat, h: nat, x: nat, y: nat): (s: seq<int>)
    requires |g| == w * h && IsPos(w, h, x, y)
    ensures |s| == w * h
  {
    Scan(g, w, h, x, y).buffer
  }

  /** The output written by the time the scan reaches (x, y): one 0 or 255
      per visited pixel. */
  function Out(g: seq<int>, w: nat, h: nat, x: nat, y: nat): (o: seq<int>)
    requires |g| == w * h && IsPos(w, h, x, y)
    ensures |o| == Idx(w, x, y)
  {
    Scan(g, w, h, x, y).output
  }

  /** Visiting pixel (x, y) appends its thresholded working value to the output. */
  lemma OutStep(g: seq<int>, w: nat, h: nat, x: nat, y: nat)
    requires |g| == w * h && x < w && y < h
    ensures Idx(w, x, y) < w * h && Idx(w, x + 1, y) == Idx(w, x, y) + 1
    ensures Out(g, w, h, x + 1, y) == Out(g, w, h, x, y) + [Threshold(State(g, w, h, x, y)[Idx(w, x, y)])]
  {
    IdxInRange(w, h, x, y);
  }

  /** The end of row y - 1 is the start of row y. */
  lemma RowStep(g: seq<int>, w: nat, h: nat, y: nat)
    requires |g| == w * h && 0 < y <= h
    ensures Idx(w, 0, y) == Idx(w, w, y - 1)
    ensures State(g, w, h, 0, y) == State(g, w, h, w, y - 1)
    ensures Out(g, w, h, 0, y) == Out(g, w, h, w, y - 1)
  {
    assert y * w == (y - 1) * w + w;
  }

  /** The binary image errorDiffusion1CH returns for intensities `g`. */
  function Dither(g: seq<int>, w: nat, h: nat): (r: seq<int>)
    requires |g| == w * h
    ensures |r| == w * h
    ensures forall i :: 0 <= i < |r| ==> r[i] == 0 || r[i] == 255
  {
    Out(g, w, h, 0, h)
  }

  /** Spread writes strictly forward: cells up to `idx` keep their values,
      each enabled neighbour gets exactly its share of the error, and every
      other cell, a disabled neighbour included, keeps its value. */
  lemma SpreadFrame(s: seq<int>, idx: nat, w: nat, right: bool, left: bool, below: bool)
    requires idx < |s|
    requires right ==> idx + 1 < |s|
    requires below ==> idx + w < |s| && (right ==> idx + w + 1 < |s|) && (left ==> 1 <= w)
    requires 1 <= w && (right ==> 2 <= w) && (left ==> 2 <= w) && (left && right ==> 3 <= w)
    ensures var t, e := Spread(s, idx, w, right, left, below), Error(s[idx]);
      && (forall j :: 0 <= j <= idx ==> t[j] == s[j])
      && (forall j ::
            (0 <= j < |s| && !(right && j == idx + 1) && !(left && below && j == idx + w - 1) &&
             !(below && j == idx + w) && !(right && below && j == idx + w + 1)) ==> t[j] == s[j])
      && (right ==> t[idx + 1] == s[idx + 1] + Share(5, e))
      && (left && below ==> t[idx + w - 1] == s[idx + w - 1] + Share(3, e))
      && (below ==> t[idx + w] == s[idx + w] + Share(5, e))
      && (right && below ==> t[idx + w + 1] == s[idx + w + 1] + Share(3, e))
  {
    forall k | 0 <= k < |s| {
      SpreadAt(s, idx, w, right, left, below, k);
    }
  }

  /** One diffusion step writes strictly forward: cells up to the visited
      pixel keep their values, each neighbour whose bounds test passes gets
      exactly its share of the error, and every other cell keeps its value,
      including a neighbour index whose bounds test fails (at the end of a
      row, idx + 1 is the first pixel of the next row and is left alone). */
  lemma DiffuseFrame(s: seq<int>, w: nat, h: nat, x: nat, y: nat)
    requires |s| == w * h && x < w && y < h
    ensures var idx := Idx(w, x, y);
      && idx < |s|
      && (x + 1 < w ==> idx + 1 < |s|)
      && (y + 1 < h ==> idx + w < |s|)
      && (x + 1 < w && y + 1 < h ==> idx + w + 1 < |s|)
    ensures var idx, t, e := Idx(w, x, y), Diffuse(s, w, h, x, y), Error(s[Idx(w, x, y)]);
      && (forall j :: 0 <= j <= idx ==> t[j] == s[j])
      && (forall j ::
            (0 <= j < |s| && !(x + 1 < w && j == idx + 1) && !(1 <= x && y + 1 < h && j == idx + w - 1) &&
             !(y + 1 < h && j == idx + w) && !(x + 1 < w && y + 1 < h && j == idx + w + 1)) ==> t[j] == s[j])
      && (x + 1 < w ==> t[idx + 1] == s[idx + 1] + Share(5, e))
      && (1 <= x && y + 1 < h ==> t[idx + w - 1] == s[idx + w - 1] + Share(3, e))
      && (y + 1 < h ==> t[idx + w] == s[idx + w] + Share(5, e))
      && (x + 1 < w && y + 1 < h ==> t[idx + w + 1] == s[idx + w + 1] + Share(3, e))
  {
    NeighbourIdx(w, h, x, y);
    var idx := Idx(w, x, y);
    assert Diffuse(s, w, h, x, y) == Spread(s, idx, w, x + 1 < w, 1 <= x, y + 1 < h);
    SpreadFrame(s, idx, w, x + 1 < w, 1 <= x, y + 1 < h);
  }

  /** Kernel weight that pixel (x, y) gives to cell (cx, cy): 5/16 right,
      3/16 bottom-left, 5/16 below, 3/16 bottom-right; 0 elsewhere, and 0
      where the neighbour would lie outside the image. */
  function Weight(w: nat, h: nat, x: nat, y: nat, cx: nat, cy: nat): int
  {
    if cx == x + 1 && cy == y && x + 1 < w then 5
    else if cx + 1 == x && cy == y + 1 && y + 1 < h then 3
    else if cx == x && cy == y + 1 && y + 1 < h then 5
    else if cx == x + 1 && cy == y + 1 && x + 1 < w && y + 1 < h then 3
    else 0
  }

  /** The diffusion step cell by cell, in image coordinates: no wrap-around
      from the end of one row to the start of the next. */
  lemma DiffuseAtCell(s: seq<int>, w: nat, h: nat, x: nat, y: nat, cx: nat, cy: nat)
    requires |s| == w * h && x < w && y < h && cx < w && cy < h
    ensures Idx(w, x, y) < w * h && Idx(w, cx, cy) < w * h
    ensures Diffuse(s, w, h, x, y)[Idx(w, cx, cy)]
      == s[Idx(w, cx, cy)] + Share(Weight(w, h, x, y, cx, cy), Error(s[Idx(w, x, y)]))
  {
    NeighbourIdx(w, h, x, y);
    IdxInRange(w, h, cx, cy);
    var c := Idx(w, cx, cy);
    SpreadAt(s, Idx(w, x, y), w, x + 1 < w, 1 <= x, y + 1 < h, c);
    if x + 1 < w && c == Idx(w, x, y) + 1 { IdxInjective(w, cx, cy, x + 1, y); }
    if 1 <= x && y + 1 < h && c == Idx(w, x, y) + w - 1 { IdxInjective(w, cx, cy, x - 1, y + 1); }
    if y + 1 < h && c == Idx(w, x, y) + w { IdxInjective(w, cx, cy, x, y + 1); }
    if x + 1 < w && y + 1 < h && c == Idx(w, x, y) + w + 1 { IdxInjective(w, cx, cy, x + 1, y + 1); }
  }

  /** Positions of the scan, ordered: `p1` is reached no later than `p2`. */
  predicate NoLater(x1: nat, y1: nat, x2: nat, y2: nat) { Before(x1, y1, x2, y2) || (x1 == x2 && y1 == y2) }

  /** Step of OutAgrees: visiting (x, y) leaves the output written so far alone. */
  lemma OutKeepsPast(g: seq<int>, w: nat, h: nat, x1: nat, y1: nat, x: nat, y: nat, i: nat)
    requires |g| == w * h && x1 <= w && 0 < x <= w && y < h
    requires NoLater(x1, y1, x - 1, y) && i < Idx(w, x1, y1)
    ensures i < Idx(w, x - 1, y) && Out(g, w, h, x, y)[i] == Out(g, w, h, x - 1, y)[i]
  {
    IdxMono(w, x1, y1, x - 1, y);
    OutStep(g, w, h, x - 1, y);
  }

  /** Output cell i, once written by the time the scan reaches (x1, y1), is
      the same at every later point (x2, y2). */
  lemma {:induction false} OutAgrees(g: seq<int>, w: nat, h: nat, x1: nat, y1: nat, x2: nat, y2: nat, i: nat)
    requires |g| == w * h && IsPos(w, h, x1, y1) && IsPos(w, h, x2, y2)
    requires NoLater(x1, y1, x2, y2) && i < Idx(w, x1, y1)
    ensures i < Idx(w, x2, y2) && Out(g, w, h, x2, y2)[i] == Out(g, w, h, x1, y1)[i]
    decreases y2, x2
  {
    if x1 == x2 && y1 == y2 {
    } else if x2 > 0 {
      OutAgrees(g, w, h, x1, y1, x2 - 1, y2, i);
      OutKeepsPast(g, w, h, x1, y1, x2, y2, i);
    } else {
      OutAgrees(g, w, h, x1, y1, w, y2 - 1, i);
      RowStep(g, w, h, y2);
    }
  }

  /** The output only grows: what is written by one point of the scan is a
      prefix of what is written by any later point, so no output cell is
      rewritten once set. */
  lemma OutPrefix(g: seq<int>, w: nat, h: nat, x1: nat, y1: nat, x2: nat, y2: nat)
    requires |g| == w * h && IsPos(w, h, x1, y1) && IsPos(w, h, x2, y2)
    requires NoLater(x1, y1, x2, y2)
    ensures Out(g, w, h, x1, y1) <= Out(g, w, h, x2, y2)
  {
    IdxMono(w, x1, y1, x2, y2);
    var o1, o2 := Out(g, w, h, x1, y1), Out(g, w, h, x2, y2);
    forall i | 0 <= i < |o1|
      ensures o2[i] == o1[i]
    {
      OutAgrees(g, w, h, x1, y1, x2, y2, i);
    }
    assert o1 == o2[..|o1|];
  }

  /** The threshold rule: output pixel (x, y) is 255 exactly when its working
      value, at the moment the scan visits it, is at least 128, and 0
      otherwise. */
  lemma DitherAt(g: seq<int>, w: nat, h: nat, x: nat, y: nat)
    requires |g| == w * h && x < w && y < h
    ensures Idx(w, x, y) < w * h && |Dither(g, w, h)| == w * h
    ensures var idx, old_pixel := Idx(w, x, y), State(g, w, h, x, y)[Idx(w, x, y)];
      && (Dither(g, w, h)[idx] == 255 <==> old_pixel >= 128)
      && (Dither(g, w, h)[idx] == 0 <==> old_pixel < 128)
      && Error(old_pixel) == old_pixel - Dither(g, w, h)[idx]
  {
    OutStep(g, w, h, x, y);
    OutAgrees(g, w, h, x + 1, y, 0, h, Idx(w, x, y));
  }

  /** Step of Settled: visiting (x, y) leaves every cell up to its own alone. */
  lemma DiffuseKeepsPast(s: seq<int>, w: nat, h: nat, x: nat, y: nat, k: nat)
    requires |s| == w * h && x < w && y < h && k <= Idx(w, x, y)
    ensures k < |s| && Diffuse(s, w, h, x, y)[k] == s[k]
  {
    DiffuseFrame(s, w, h, x, y);
  }

  /** Step of Settled: a cell before (x1, y1) is left alone by the visit of
      any pixel (x - 1, y) no earlier than (x1, y1). */
  lemma VisitKeepsPast(g: seq<int>, w: nat, h: nat, x1: nat, y1: nat, x: nat, y: nat, j: nat)
    requires |g| == w * h && x1 <= w && 0 < x <= w && y < h
    requires NoLater(x1, y1, x - 1, y) && j < Idx(w, x1, y1)
    ensures j < w * h && State(g, w, h, x, y)[j] == State(g, w, h, x - 1, y)[j]
  {
    IdxMono(w, x1, y1, x - 1, y);
    DiffuseKeepsPast(State(g, w, h, x - 1, y), w, h, x - 1, y, j);
  }

  /** A visited cell of the working buffer is never written again: cell j,
      once the scan has passed it at (x1, y1), keeps its value at every
      later point (x2, y2). */
  lemma {:induction false} Settled(g: seq<int>, w: nat, h: nat, x1: nat, y1: nat, x2: nat, y2: nat, j: nat)
    requires |g| == w * h && IsPos(w, h, x1, y1) && IsPos(w, h, x2, y2)
    requires NoLater(x1, y1, x2, y2) && j < Idx(w, x1, y1) && j < w * h
    ensures State(g, w, h, x2, y2)[j] == State(g, w, h, x1, y1)[j]
    decreases y2, x2
  {
    if x1 == x2 && y1 == y2 {
    } else if x2 > 0 {
      Settled(g, w, h, x1, y1, x2 - 1, y2, j);
      VisitKeepsPast(g, w, h, x1, y1, x2, y2, j);
    } else {
      Settled(g, w, h, x1, y1, w, y2 - 1, j);
      RowStep(g, w, h, y2);
    }
  }

  /** Step of BinaryFixpoint: a buffer of 0s and 255s carries no error, so
      visiting any of its pixels changes nothing. */
  lemma DiffuseOfBinary(g: seq<int>, w: nat, h: nat, x: nat, y: nat)
    requires |g| == w * h && x < w && y < h
    requires forall i :: 0 <= i < |g| ==> g[i] == 0 || g[i] == 255
    ensures Diffuse(g, w, h, x, y) == g
  {
    NeighbourIdx(w, h, x, y);
    var idx := Idx(w, x, y);
    assert Error(g[idx]) == 0;
    assert Share(5, 0) == 0 && Share(3, 0) == 0;
    forall k | 0 <= k < |g|
      ensures Diffuse(g, w, h, x, y)[k] == g[k]
    {
      SpreadAt(g, idx, w, x + 1 < w, 1 <= x, y + 1 < h, k);
    }
  }

  /** Step of BinaryFixpoint: the scan never changes a buffer of 0s and 255s. */
  lemma {:induction false} StateOfBinary(g: seq<int>, w: nat, h: nat, x: nat, y: nat)
    requires |g| == w * h && IsPos(w, h, x, y)
    requires forall i :: 0 <= i < |g| ==> g[i] == 0 || g[i] == 255
    ensures State(g, w, h, x, y) == g
    decreases y, x
  {
    if x > 0 {
      StateOfBinary(g, w, h, x - 1, y);
      DiffuseOfBinary(g, w, h, x - 1, y);
    } else if y > 0 {
      StateOfBinary(g, w, h, w, y - 1);
    }
  }

  /** Step of BinaryFixpoint: visiting (x - 1, y) of a binary image appends
      its own value to the output. */
  lemma OutOfBinaryStep(g: seq<int>, w: nat, h: nat, x: nat, y: nat)
    requires |g| == w * h && 0 < x <= w && y < h
    requires forall i :: 0 <= i < |g| ==> g[i] == 0 || g[i] == 255
    requires Idx(w, x - 1, y) <= |g| && Out(g, w, h, x - 1, y) == g[..Idx(w, x - 1, y)]
    ensures Idx(w, x, y) <= |g| && Out(g, w, h, x, y) == g[..Idx(w, x, y)]
  {
    var px := x - 1;
    OutStep(g, w, h, px, y);
    StateOfBinary(g, w, h, px, y);
    var idx := Idx(w, px, y);
    assert Threshold(g[idx]) == g[idx];
    assert g[..idx + 1] == g[..idx] + [g[idx]];
  }

  /** Step of BinaryFixpoint: the output written so far copies the input. */
  lemma {:induction false} OutOfBinary(g: seq<int>, w: nat, h: nat, x: nat, y: nat)
    requires |g| == w * h && IsPos(w, h, x, y)
    requires forall i :: 0 <= i < |g| ==> g[i] == 0 || g[i] == 255
    ensures Idx(w, x, y) <= |g| && Out(g, w, h, x, y) == g[..Idx(w, x, y)]
    decreases y, x
  {
    if x > 0 {
      OutOfBinary(g, w, h, x - 1, y);
      OutOfBinaryStep(g, w, h, x, y);
    } else if y > 0 {
      OutOfBinary(g, w, h, w, y - 1);
      RowStep(g, w, h, y);
    }
  }

  /** An image that is already black and white is a fixed point of the
      ditherer. */
  lemma BinaryFixpoint(g: seq<int>, w: nat, h: nat)
    requires |g| == w * h
    requires forall i :: 0 <= i < |g| ==> g[i] == 0 || g[i] == 255
    ensures Dither(g, w, h) == g
  {
    OutOfBinary(g, w, h, 0, h);
  }

  /** A single pixel has no neighbours: it is just thresholded. */
  lemma SinglePixel(v: int)
    ensures Dither([v], 1, 1) == [Threshold(v)]
  {
    assert Out([v], 1, 1, 1, 0) == [Threshold(v)];
  }

  /** Single pixels on either side of the threshold. */
  lemma SinglePixelBright()
    ensures Dither([200], 1, 1) == [255]
  {
    SinglePixel(200);
  }

  lemma SinglePixelDark()
    ensures Dither([50], 1, 1) == [0]
  {
    SinglePixel(50);
  }

  /** Three pixels of intensity 100 in one row: 100 goes to 0 and pushes 31
      right; 131 goes to 255 and pushes -38 (-38.75 truncated) right; 62 goes
      to 0. */
  lemma ThreeByOne()
    ensures State([100, 100, 100], 3, 1, 1, 0) == [100, 131, 100]
    ensures State([100, 100, 100], 3, 1, 2, 0) == [100, 131, 62]
    ensures Dither([100, 100, 100], 3, 1) == [0, 255, 0]
  {
  }

  /** An all-white 2 x 2 image stays white under the ditherer. */
  lemma WhiteTwoByTwo()
    ensures Dither([255, 255, 255, 255], 2, 2) == [255, 255, 255, 255]
  {
    BinaryFixpoint([255, 255, 255, 255], 2, 2);
  }
}
