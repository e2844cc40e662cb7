/** Range of the ditherer's working values: for byte input every working
    value stays in [-127, 382] and every quantisation error in [-127, 127],
    so the signed 16-bit working buffer never wraps. */
module DiffusionBounds {
  import opened JsNumbers
  import opened Raster
  import opened Diffusion

  /** Total kernel weight (out of 16) that cell (cx, cy) has received from
      the pixels visited before the scan reaches (x, y): 5 from its left
      neighbour, 3 from the pixel above-right, 5 from the pixel above and 3
      from the pixel above-left, each only if that pixel exists. */
  function InWeight(w: nat, cx: nat, cy: nat, x: nat, y: nat): (r: int)
    ensures 0 <= r <= 16
  {
    (if 1 <= cx && Before(cx - 1, cy, x, y) then 5 else 0)
    + (if 1 <= cy && cx + 1 < w && Before(cx + 1, cy - 1, x, y) then 3 else 0)
    + (if 1 <= cy && Before(cx, cy - 1, x, y) then 5 else 0)
    + (if 1 <= cx && 1 <= cy && Before(cx - 1, cy - 1, x, y) then 3 else 0)
  }

  /** The invariant of the scan for one cell, at position (x, y): a visited
      cell holds a value in [-127, 382]; an unvisited one has moved away
      from its intensity by at most 127/16 per unit of weight received. */
  predicate CellBounded(g: seq<int>, s: seq<int>, w: nat, h: nat, cx: nat, cy: nat, x: nat, y: nat)
    requires |g| == w * h && |s| == w * h && cx < w && cy < h
  {
    IdxInRange(w, h, cx, cy);
    var j := Idx(w, cx, cy);
    if Before(cx, cy, x, y) then -127 <= s[j] <= 382
    else -127 * InWeight(w, cx, cy, x, y) <= 16 * (s[j] - g[j]) <= 127 * InWeight(w, cx, cy, x, y)
  }

  predicate Bounded(g: seq<int>, s: seq<int>, w: nat, h: nat, x: nat, y: nat)
  {
    |g| == w * h && |s| == w * h &&
    forall cx: nat, cy: nat :: cx < w && cy < h ==> CellBounded(g, s, w, h, cx, cy, x, y)
  }

  /** A share of an error in [-127, 127] stays within its weight's part of 127. */
  lemma ShareBound(weight: int, e: int)
    requires weight == 0 || weight == 3 || weight == 5
    requires -127 <= e <= 127
    ensures -127 * weight <= 16 * Share(weight, e) <= 127 * weight
    ensures -39 <= Share(weight, e) <= 39
  {
  }

  /** Visiting (x, y) adds to each not-yet-visited cell's received weight
      exactly the kernel weight (x, y) gives it. */
  lemma InWeightStep(w: nat, h: nat, x: nat, y: nat, cx: nat, cy: nat)
    requires x < w && y < h && cx < w && cy < h
    ensures Before(cx, cy, x + 1, y) ==> Weight(w, h, x, y, cx, cy) == 0
    ensures !Before(cx, cy, x + 1, y) ==>
      InWeight(w, cx, cy, x + 1, y) == InWeight(w, cx, cy, x, y) + Weight(w, h, x, y, cx, cy)
  {
  }

  /** The range invariant holds at position (0, 0) for the copied buffer,
      before any pixel has been visited. */
  lemma InitialBounded(g: seq<int>, w: nat, h: nat)
    requires |g| == w * h
    ensures Bounded(g, g, w, h, 0, 0)
  {
    forall cx: nat, cy: nat | cx < w && cy < h
      ensures CellBounded(g, g, w, h, cx, cy, 0, 0)
    {
    }
  }

  /** Visiting pixel (x - 1, y) keeps the invariant for cell (cx, cy), given
      that the visited pixel's error is in [-127, 127]. */
  lemma DiffuseKeepsCell(g: seq<int>, s: seq<int>, w: nat, h: nat, x: nat, y: nat, cx: nat, cy: nat)
    requires AllBytes(g) && |g| == w * h && |s| == w * h && 0 < x <= w && y < h && cx < w && cy < h
    requires CellBounded(g, s, w, h, cx, cy, x - 1, y)
    requires Idx(w, x - 1, y) < w * h && -127 <= Error(s[Idx(w, x - 1, y)]) <= 127
    ensures CellBounded(g, Diffuse(s, w, h, x - 1, y), w, h, cx, cy, x, y)
  {
    var px := x - 1;
    DiffuseAtCell(s, w, h, px, y, cx, cy);
    InWeightStep(w, h, px, y, cx, cy);
    ShareBound(Weight(w, h, px, y, cx, cy), Error(s[Idx(w, px, y)]));
  }

  /** Visiting pixel (x - 1, y) keeps the invariant. */
  lemma DiffuseKeepsBounded(g: seq<int>, s: seq<int>, w: nat, h: nat, x: nat, y: nat)
    requires AllBytes(g) && 0 < x <= w && y < h
    requires Bounded(g, s, w, h, x - 1, y)
    ensures Bounded(g, Diffuse(s, w, h, x - 1, y), w, h, x, y)
  {
    var px := x - 1;
    IdxInRange(w, h, px, y);
    assert CellBounded(g, s, w, h, px, y, px, y);
    forall cx: nat, cy: nat | cx < w && cy < h
      ensures CellBounded(g, Diffuse(s, w, h, px, y), w, h, cx, cy, x, y)
    {
      DiffuseKeepsCell(g, s, w, h, x, y, cx, cy);
    }
  }

  /** Position (width, y - 1) and (0, y) are the same moment of the scan. */
  lemma RowWrapBounded(g: seq<int>, s: seq<int>, w: nat, h: nat, y: nat)
    requires 0 < y <= h
    requires Bounded(g, s, w, h, w, y - 1)
    ensures Bounded(g, s, w, h, 0, y)
  {
    forall cx: nat, cy: nat | cx < w && cy < h
      ensures CellBounded(g, s, w, h, cx, cy, 0, y)
    {
      assert CellBounded(g, s, w, h, cx, cy, w, y - 1);
    }
  }

  /** The invariant holds at every point of the scan. */
  lemma {:induction false} StateBounded(g: seq<int>, w: nat, h: nat, x: nat, y: nat)
    requires |g| == w * h && AllBytes(g) && IsPos(w, h, x, y)
    ensures Bounded(g, State(g, w, h, x, y), w, h, x, y)
    decreases y, x
  {
    if x > 0 {
      StateBounded(g, w, h, x - 1, y);
      DiffuseKeepsBounded(g, State(g, w, h, x - 1, y), w, h, x, y);
    } else if y > 0 {
      StateBounded(g, w, h, w, y - 1);
      RowWrapBounded(g, State(g, w, h, w, y - 1), w, h, y);
    } else {
      InitialBounded(g, w, h);
    }
  }

  /** Under the invariant every cell, visited or not, lies in [-127, 382]. */
  lemma BoundedAt(g: seq<int>, s: seq<int>, w: nat, h: nat, x: nat, y: nat, j: nat)
    requires AllBytes(g) && Bounded(g, s, w, h, x, y) && j < w * h
    ensures -127 <= s[j] <= 382
  {
    IdxOnto(w, h, j);
    var cx, cy := j % w, j / w;
    assert CellBounded(g, s, w, h, cx, cy, x, y);
    assert IsByte(g[j]);
  }

  /** For byte intensities, every working value at every point of the scan
      lies in [-127, 382], well inside the range of a signed 16-bit cell. */
  lemma WorkingValuesBounded(g: seq<int>, w: nat, h: nat, x: nat, y: nat)
    requires |g| == w * h && AllBytes(g) && IsPos(w, h, x, y)
    ensures forall j :: 0 <= j < w * h ==> -127 <= State(g, w, h, x, y)[j] <= 382
  {
    StateBounded(g, w, h, x, y);
    var s := State(g, w, h, x, y);
    forall j | 0 <= j < w * h
      ensures -127 <= s[j] <= 382
    {
      BoundedAt(g, s, w, h, x, y, j);
    }
  }

  /** For byte intensities, every quantisation error lies in [-127, 127]. */
  lemma ErrorBounded(g: seq<int>, w: nat, h: nat, x: nat, y: nat)
    requires |g| == w * h && AllBytes(g) && x < w && y < h
    ensures Idx(w, x, y) < w * h
    ensures -127 <= Error(State(g, w, h, x, y)[Idx(w, x, y)]) <= 127
  {
    IdxInRange(w, h, x, y);
    WorkingValuesBounded(g, w, h, x, y);
  }
}
