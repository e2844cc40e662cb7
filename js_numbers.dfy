/** Integer semantics of the JavaScript operators and typed-array stores
    that the image pipeline relies on, written out over unbounded `int`. */
module JsNumbers {

  predicate IsByte(v: int) { 0 <= v <= 255 }

  predicate AllBytes(s: seq<int>) { forall i :: 0 <= i < |s| ==> IsByte(s[i]) }

  /** `a / d | 0` for a positive divisor: the quotient truncated toward zero.
      Dafny's own `/` is Euclidean and rounds down when `a` is negative. */
  function TruncDiv(a: int, d: int): (q: int)
    requires d > 0
    ensures 0 <= a ==> 0 <= q * d <= a < q * d + d
    ensures a < 0 ==> q * d - d < a <= q * d <= 0
  {
    DivBounds(if a >= 0 then a else -a, d);
    if a >= 0 then a / d else -((-a) / d)
  }

  lemma DivBounds(n: nat, d: int)
    requires d > 0
    ensures (n / d) * d <= n < (n / d) * d + d && 0 <= n / d
  {
    assert n == d * (n / d) + n % d;
  }

  /** Truncation is symmetric about zero, which is where it parts from flooring. */
  lemma TruncDivOdd(a: int, d: int)
    requires d > 0
    ensures TruncDiv(-a, d) == -TruncDiv(a, d)
  {
  }

  /** One of the shares the ditherer can compute: -124 * 5 / 16 is -38.75,
      which `| 0` makes -38 while Euclidean division gives -39. */
  lemma TruncDivIsNotFloor()
    ensures TruncDiv(-620, 16) == -38 && -620 / 16 == -39
  {
  }

  /** The value an `Int16Array` element holds after `v` is stored into it. */
  function ToInt16(v: int): (r: int)
    ensures -0x8000 <= r < 0x8000
    ensures (v - r) % 0x1_0000 == 0
    ensures -0x8000 <= v < 0x8000 ==> r == v
  {
    (v + 0x8000) % 0x1_0000 - 0x8000
  }

  /** The value a `Uint8Array` element holds after `v` is stored into it. */
  function ToUint8(v: int): (r: int)
    ensures IsByte(r)
    ensures (v - r) % 0x100 == 0
    ensures IsByte(v) ==> r == v
  {
    v % 0x100
  }

  /** The value a `Uint8ClampedArray` element (canvas image data) holds after
      `v` is stored into it. */
  function ClampUint8(v: int): (r: int)
    ensures IsByte(r)
    ensures IsByte(v) ==> r == v
    ensures v < 0 ==> r == 0
    ensures 255 < v ==> r == 255
  {
    if v < 0 then 0 else if v > 255 then 255 else v
  }

  /** `new Uint8Array(n)` and `createImageData`: a fresh typed array of `n`
      elements, every one of them 0. */
  method NewTypedArray(n: nat) returns (a: array<int>)
    ensures fresh(a) && a.Length == n
    ensures forall k :: 0 <= k < n ==> a[k] == 0
  {
    a := new int[n](_ => 0);
  }
}
