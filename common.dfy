/** Values shared by the whole redaction pipeline: pixels and pixel grids,
    integer boxes, exact ratios standing in for the source's float parameters,
    and the error results of the operations that can fail. */
module Common {

  /** One 8-bit colour channel. */
  newtype Channel = c: int | 0 <= c < 256

  /** A 3-channel colour pixel, in the decoder's blue-green-red layout. */
  datatype Pixel = Pixel(blue: Channel, green: Channel, red: Channel)

  /** The value of an image: a sequence of rows. */
  type Grid = seq<seq<Pixel>>

  /** A positive denominator. */
  type PosNat = n: nat | n > 0 witness 1

  /** The exact rational num/den, standing for a float parameter. */
  datatype Ratio = Ratio(num: int, den: PosNat)

  datatype Error = ZeroStep | DecodeFailed

  datatype Result<T> = Ok(value: T) | Err(error: Error)

  datatype Option<T> = None | Some(value: T)

  /** An axis-aligned box: top-left corner and extent, in some coordinate space. */
  datatype Box = Box(x: int, y: int, w: int, h: int)

  function Max(a: int, b: int): (m: int) {
    if a >= b then a else b
  }

  function Min(a: int, b: int): (m: int) {
    if a <= b then a else b
  }

  function Width(g: Grid): (n: nat) {
    if g == [] then 0 else |g[0]|
  }

  /** `g` has `h` rows of `w` pixels each. */
  ghost predicate IsRect(g: Grid, h: int, w: int) {
    |g| == h && forall r :: 0 <= r < |g| ==> |g[r]| == w
  }

  /** Every row of `g` is as long as the first. */
  ghost predicate WellFormed(g: Grid) {
    IsRect(g, |g|, Width(g))
  }

  /** The pixel (r, c) lies inside the box `b`. */
  predicate InBox(b: Box, r: int, c: int) {
    b.y <= r < b.y + b.h && b.x <= c < b.x + b.w
  }

  /** The box lies inside an image of `h` rows and `w` columns. */
  predicate BoxWithin(b: Box, h: int, w: int) {
    0 <= b.x && 0 <= b.w && b.x + b.w <= w && 0 <= b.y && 0 <= b.h && b.y + b.h <= h
  }

  /** The value held by a two-dimensional pixel buffer. */
  function ToGrid(a: array2<Pixel>): (g: Grid)
    reads a
    ensures IsRect(g, a.Length0, a.Length1) && WellFormed(g)
    ensures forall r, c :: 0 <= r < a.Length0 && 0 <= c < a.Length1 ==> g[r][c] == a[r, c]
  {
    seq(a.Length0, r reads a requires 0 <= r < a.Length0 =>
      seq(a.Length1, c reads a requires 0 <= r < a.Length0 && 0 <= c < a.Length1 => a[r, c]))
  }

  /** The sub-grid of rows [b.y, b.y+b.h) and columns [b.x, b.x+b.w):
      numpy's `image[y:y+h, x:x+w]` for a box inside the image. */
  function Crop(g: Grid, b: Box): (s: Grid)
    requires WellFormed(g) && BoxWithin(b, |g|, Width(g))
    ensures IsRect(s, b.h, b.w)
    ensures forall r, c :: 0 <= r < b.h && 0 <= c < b.w ==> s[r][c] == g[b.y + r][b.x + c]
  {
    var s := seq(b.h, r requires 0 <= r < b.h => g[b.y + r][b.x .. b.x + b.w]);
    assert forall r :: 0 <= r < b.h ==> s[r] == g[b.y + r][b.x .. b.x + b.w];
    s
  }

  /** `g` with the region of `b` overwritten by `roi`:
      numpy's `image[y:y+h, x:x+w] = roi`. */
  function Paste(g: Grid, b: Box, roi: Grid): (s: Grid)
    requires WellFormed(g) && BoxWithin(b, |g|, Width(g)) && IsRect(roi, b.h, b.w)
    ensures IsRect(s, |g|, Width(g))
    ensures forall r, c :: 0 <= r < |g| && 0 <= c < Width(g) ==>
      s[r][c] == if InBox(b, r, c) then roi[r - b.y][c - b.x] else g[r][c]
  {
    seq(|g|, r requires 0 <= r < |g| =>
      if b.y <= r < b.y + b.h then g[r][..b.x] + roi[r - b.y] + g[r][b.x + b.w..] else g[r])
  }

  /** Multiplication by a non-negative factor is monotone. */
  lemma MulMono(a: int, b: int, t: nat)
    requires a <= b
    ensures a * t <= b * t
  {
  }

  /** Two grids of the same shape that agree at every pixel are equal. */
  lemma {:induction false} GridExt(g: Grid, s: Grid, h: nat, w: nat)
    requires IsRect(g, h, w) && IsRect(s, h, w)
    requires forall r, c :: 0 <= r < h && 0 <= c < w ==> g[r][c] == s[r][c]
    ensures g == s
  {
    forall r | 0 <= r < h ensures g[r] == s[r] {
      assert forall c :: 0 <= c < w ==> g[r][c] == s[r][c];
    }
  }
}
