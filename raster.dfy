/** Row-major pixel geometry: pixel (x, y) of an image `width` pixels wide
    lives at index y * width + x of a one-channel buffer. */
module Raster {

  function Idx(width: nat, x: nat, y: nat): nat { y * width + x }

  /** Lexicographic raster order: pixel (px, py) is visited before the scan
      reaches position (x, y). */
  predicate Before(px: nat, py: nat, x: nat, y: nat) { py < y || (py == y && px < x) }

  lemma MulMono(a: nat, b: nat, c: nat)
    requires a <= b
    ensures a * c <= b * c
  {
    assert b * c == a * c + (b - a) * c;
  }

  lemma IdxInRange(w: nat, h: nat, x: nat, y: nat)
    requires x < w && y < h
    ensures Idx(w, x, y) < w * h
  {
    MulMono(y + 1, h, w);
    assert (y + 1) * w == y * w + w;
  }

  /** Distinct in-row pixels have distinct indices. */
  lemma IdxInjective(w: nat, x1: nat, y1: nat, x2: nat, y2: nat)
    requires x1 < w && x2 < w
    requires Idx(w, x1, y1) == Idx(w, x2, y2)
    ensures x1 == x2 && y1 == y2
  {
    if y1 < y2 {
      MulMono(y1 + 1, y2, w);
      assert false;
    } else if y2 < y1 {
      MulMono(y2 + 1, y1, w);
      assert false;
    }
  }

  /** Raster order and index order agree. */
  lemma IdxMono(w: nat, x1: nat, y1: nat, x2: nat, y2: nat)
    requires x1 <= w
    requires Before(x1, y1, x2, y2) || (x1 == x2 && y1 == y2)
    ensures Idx(w, x1, y1) <= Idx(w, x2, y2)
  {
    if y1 < y2 {
      MulMono(y1 + 1, y2, w);
    }
  }

  /** Every index of a width*height buffer is the index of some pixel. */
  lemma IdxOnto(w: nat, h: nat, j: nat)
    requires j < w * h
    ensures w > 0 && j % w < w && j / w < h && Idx(w, j % w, j / w) == j
  {
    assert w > 0;
    if j / w >= h {
      MulMono(h, j / w, w);
      assert false;
    }
  }

  /** Indices of the four neighbours that error diffusion reaches from (x, y),
      each one inside the buffer whenever its bounds test passes. */
  lemma NeighbourIdx(w: nat, h: nat, x: nat, y: nat)
    requires x < w && y < h
    ensures Idx(w, x, y) < w * h
    ensures x + 1 < w ==> Idx(w, x + 1, y) == Idx(w, x, y) + 1 < w * h
    ensures 1 <= x && y + 1 < h ==> Idx(w, x - 1, y + 1) == Idx(w, x, y) + w - 1 < w * h
    ensures y + 1 < h ==> Idx(w, x, y + 1) == Idx(w, x, y) + w < w * h
    ensures x + 1 < w && y + 1 < h ==> Idx(w, x + 1, y + 1) == Idx(w, x, y) + w + 1 < w * h
  {
    IdxInRange(w, h, x, y);
    assert (y + 1) * w == y * w + w;
    if x + 1 < w { IdxInRange(w, h, x + 1, y); }
    if y + 1 < h {
      IdxInRange(w, h, x, y + 1);
      if 1 <= x { IdxInRange(w, h, x - 1, y + 1); }
      if x + 1 < w { IdxInRange(w, h, x + 1, y + 1); }
    }
  }
}
