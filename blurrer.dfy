/** Region redaction (`PrivacyBlurrer.apply_blur`): every box, in list order,
    is clamped to the image and its region is replaced by a blur of the
    current buffer's pixels there. The blur primitive is a parameter. */
module PrivacyBlurrer {
  import opened Common

  /** A box after clamping: skipped, or a non-empty region inside the image. */
  datatype Clamped = Skipped | Region(box: Box)

  /** The clamp of `apply_blur`: x' = max(0, x), y' = max(0, y),
      w' = min(w, W - x'), h' = min(h, H - y'); skipped when w' <= 0 or h' <= 0.
      The width and height are not reduced by the shift of a negative x or y. */
  function Clamp(b: Box, height: nat, width: nat): (r: Clamped)
    ensures r.Region? ==> BoxWithin(r.box, height, width) && r.box.w > 0 && r.box.h > 0
    ensures r.Skipped? <==> b.w <= 0 || b.h <= 0 || Max(0, b.x) >= width || Max(0, b.y) >= height
    ensures r.Region? ==> r.box.x == Max(0, b.x) && r.box.y == Max(0, b.y)
  {
    var x := Max(0, b.x);
    var y := Max(0, b.y);
    var w := Min(b.w, width - x);
    var h := Min(b.h, height - y);
    if w <= 0 || h <= 0 then Skipped else Region(Box(x, y, w, h))
  }

  /** A box that starts inside the image is clamped to exactly its part in
      the image: a pixel of the image is in the region iff it is in the box. */
  lemma ClampInside(b: Box, height: nat, width: nat, r: int, c: int)
    requires b.x >= 0 && b.y >= 0 && 0 <= r < height && 0 <= c < width
    ensures (Clamp(b, height, width).Region? && InBox(Clamp(b, height, width).box, r, c)) <==> InBox(b, r, c)
  {
  }

  /** A box that starts left of the image keeps its width: the region is
      columns [0, min(w, W)), wider than the box's part in the image. */
  lemma ClampLeftEdge(b: Box, height: nat, width: nat)
    requires b.x < 0 && b.w > 0 && 0 <= b.y < height && b.h > 0 && width > 0
    ensures Clamp(b, height, width).Region?
    ensures Clamp(b, height, width).box.x == 0
    ensures Clamp(b, height, width).box.w == Min(b.w, width)
  {
  }

  /** A box that lies wholly left of the image is not skipped: [-100, 10, 50, 20]
      on a 100 x 100 image blurs columns [0, 50) of rows [10, 30). */
  lemma ClampBoxLeftOfImage()
    ensures Clamp(Box(-100, 10, 50, 20), 100, 100) == Region(Box(0, 10, 50, 20))
  {
  }

  /** The kernel side for a region side n > 0: max(3, (n // 3) | 1), where
      `q | 1` on a non-negative q is q when q is odd and q + 1 when it is even. */
  function Kernel(n: int): (k: int)
    requires n > 0
    ensures k % 2 == 1 && k >= 3 && k >= n / 3
    ensures k - 2 < 3 || k - 2 < n / 3
  {
    var q := n / 3;
    var odd := if q % 2 == 1 then q else q + 1;
    Max(3, odd)
  }

  /** The blur primitive returns a region of the shape it is given. */
  ghost predicate PreservesShape(blur: (Grid, int, int) -> Grid) {
    forall g: Grid, kw: int, kh: int {:trigger blur(g, kw, kh)} ::
      WellFormed(g) ==> IsRect(blur(g, kw, kh), |g|, Width(g))
  }

  /** One box of `apply_blur`: the clamped region is replaced by the blur of
      the grid's pixels there, with kernel (Kernel(w'), Kernel(h')). */
  function RedactBox(g: Grid, b: Box, blur: (Grid, int, int) -> Grid): (s: Grid)
    requires WellFormed(g) && PreservesShape(blur)
    ensures IsRect(s, |g|, Width(g))
    ensures Clamp(b, |g|, Width(g)).Skipped? ==> s == g
  {
    match Clamp(b, |g|, Width(g))
    case Skipped => g
    case Region(rb) =>
      var roi := Crop(g, rb);
      Paste(g, rb, blur(roi, Kernel(rb.w), Kernel(rb.h)))
  }

  /** Pixel (r, c) after one box: the blurred region's pixel inside the clamped
      region, the old pixel everywhere else. */
  lemma RedactBoxAt(g: Grid, b: Box, blur: (Grid, int, int) -> Grid, r: nat, c: nat)
    requires WellFormed(g) && PreservesShape(blur) && r < |g| && c < Width(g)
    ensures RedactBox(g, b, blur)[r][c] == match Clamp(b, |g|, Width(g))
      case Skipped => g[r][c]
      case Region(rb) =>
        if InBox(rb, r, c) then blur(Crop(g, rb), Kernel(rb.w), Kernel(rb.h))[r - rb.y][c - rb.x]
        else g[r][c]
  {
  }

  /** The boxes applied in list order, each to the grid the earlier ones left. */
  function Redact(g: Grid, boxes: seq<Box>, blur: (Grid, int, int) -> Grid): (s: Grid)
    requires WellFormed(g) && PreservesShape(blur)
    ensures IsRect(s, |g|, Width(g))
  {
    if boxes == [] then g
    else RedactBox(Redact(g, boxes[..|boxes| - 1], blur), boxes[|boxes| - 1], blur)
  }

  /** The pixel lies in the clamped region of some box. */
  ghost predicate InSomeRegion(boxes: seq<Box>, height: nat, width: nat, r: int, c: int) {
    exists k :: 0 <= k < |boxes| && Clamp(boxes[k], height, width).Region?
             && InBox(Clamp(boxes[k], height, width).box, r, c)
  }

  /** A pixel outside every clamped region keeps its input value. */
  lemma {:induction false} RedactOutside(g: Grid, boxes: seq<Box>, blur: (Grid, int, int) -> Grid, r: nat, c: nat)
    requires WellFormed(g) && PreservesShape(blur) && r < |g| && c < Width(g)
    requires !InSomeRegion(boxes, |g|, Width(g), r, c)
    ensures Redact(g, boxes, blur)[r][c] == g[r][c]
  {
    if boxes != [] {
      var init := boxes[..|boxes| - 1];
      assert !InSomeRegion(init, |g|, Width(g), r, c) by {
        forall k | 0 <= k < |init|
          ensures !(Clamp(init[k], |g|, Width(g)).Region? && InBox(Clamp(init[k], |g|, Width(g)).box, r, c))
        {
          assert init[k] == boxes[k];
        }
      }
      RedactOutside(g, init, blur, r, c);
      var prev := Redact(g, init, blur);
      assert |prev| == |g| && Width(prev) == Width(g);
      RedactBoxAt(prev, boxes[|boxes| - 1], blur, r, c);
    }
  }

  /** Skipped boxes change nothing: dropping them gives the same result. */
  lemma {:induction false} RedactSkipped(g: Grid, boxes: seq<Box>, b: Box, blur: (Grid, int, int) -> Grid)
    requires WellFormed(g) && PreservesShape(blur) && Clamp(b, |g|, Width(g)).Skipped?
    ensures Redact(g, boxes + [b], blur) == Redact(g, boxes, blur)
  {
    assert (boxes + [b])[..|boxes + [b]| - 1] == boxes;
    var prev := Redact(g, boxes, blur);
    assert |prev| == |g| && Width(prev) == Width(g);
  }

  /** A box entirely right of or below the image changes nothing. */
  lemma BeyondEdgeSkipped(b: Box, height: nat, width: nat)
    requires b.x >= width || b.y >= height
    ensures Clamp(b, height, width).Skipped?
  {
  }

  /** The last box's region holds the blur of what the earlier boxes left
      there: overlapping boxes compound. */
  lemma RedactLast(g: Grid, boxes: seq<Box>, b: Box, blur: (Grid, int, int) -> Grid)
    requires WellFormed(g) && PreservesShape(blur)
    ensures Redact(g, boxes + [b], blur) == RedactBox(Redact(g, boxes, blur), b, blur)
  {
    assert (boxes + [b])[..|boxes + [b]| - 1] == boxes;
  }

  /** One more box of the list. */
  lemma RedactPrefix(g: Grid, boxes: seq<Box>, k: nat, blur: (Grid, int, int) -> Grid)
    requires WellFormed(g) && PreservesShape(blur) && k < |boxes|
    ensures Redact(g, boxes[..k + 1], blur) == RedactBox(Redact(g, boxes[..k], blur), boxes[k], blur)
  {
    assert boxes[..k + 1][..k] == boxes[..k];
  }

  // ---------------------------------------------------------------------------
  // apply_blur on a pixel buffer.
  // ---------------------------------------------------------------------------

  /** One row of the slice assignment: `row` written at row i from column x on. */
  method WriteRow(out: array2<Pixel>, i: nat, x: nat, row: seq<Pixel>)
    requires i < out.Length0 && x + |row| <= out.Length1
    modifies out
    ensures forall a, b :: 0 <= a < out.Length0 && 0 <= b < out.Length1 ==>
      out[a, b] == if a == i && x <= b < x + |row| then row[b - x] else old(out[a, b])
  {
    for c := 0 to |row|
      invariant forall a, b :: 0 <= a < out.Length0 && 0 <= b < out.Length1 ==>
        out[a, b] == if a == i && x <= b < x + c then row[b - x] else old(out[a, b])
    {
      out[i, x + c] := row[c];
    }
  }

  /** `processed_image[y:y+h, x:x+w] = roi`. */
  method WriteRegion(out: array2<Pixel>, b: Box, roi: Grid)
    requires BoxWithin(b, out.Length0, out.Length1) && b.w > 0 && b.h > 0 && IsRect(roi, b.h, b.w)
    modifies out
    ensures ToGrid(out) == Paste(old(ToGrid(out)), b, roi)
  {
    ghost var before := ToGrid(out);
    for r := 0 to b.h
      invariant forall i, j :: 0 <= i < out.Length0 && 0 <= j < out.Length1 ==>
        out[i, j] == if b.y <= i < b.y + r && b.x <= j < b.x + b.w then roi[i - b.y][j - b.x] else before[i][j]
    {
      WriteRow(out, b.y + r, b.x, roi[r]);
    }
    ghost var after := Paste(before, b, roi);
    forall i, j | 0 <= i < out.Length0 && 0 <= j < out.Length1 ensures ToGrid(out)[i][j] == after[i][j] {
    }
    GridExt(ToGrid(out), after, out.Length0, out.Length1);
  }

  /** One pass of the loop of `apply_blur`: clamp the box, and unless it is
      skipped, blur the region of the current buffer and write it back. */
  method BlurBox(out: array2<Pixel>, b: Box, blur: (Grid, int, int) -> Grid)
    requires PreservesShape(blur)
    modifies out
    ensures ToGrid(out) == RedactBox(old(ToGrid(out)), b, blur)
  {
    var height, width := out.Length0, out.Length1;
    ghost var cur := ToGrid(out);
    assert |cur| == height && (height > 0 ==> Width(cur) == width);
    if height == 0 {
      assert Clamp(b, |cur|, Width(cur)).Skipped?;
      return;
    }
    match Clamp(b, height, width)
    case Skipped =>
    case Region(rb) =>
      var roi := Crop(ToGrid(out), rb);
      var blurred := blur(roi, Kernel(rb.w), Kernel(rb.h));
      WriteRegion(out, rb, blurred);
  }

  /** `image.copy()`: a fresh buffer holding the same pixels. */
  method Copy(image: array2<Pixel>) returns (out: array2<Pixel>)
    ensures fresh(out) && out.Length0 == image.Length0 && out.Length1 == image.Length1
    ensures ToGrid(out) == ToGrid(image)
  {
    out := new Pixel[image.Length0, image.Length1]((r, c) reads image =>
      if 0 <= r < image.Length0 && 0 <= c < image.Length1 then image[r, c] else Pixel(0, 0, 0));
    GridExt(ToGrid(out), ToGrid(image), image.Length0, image.Length1);
  }

  /** The loop of `apply_blur`: every box, in list order, redacted in place. */
  method BlurAll(out: array2<Pixel>, boxes: seq<Box>, blur: (Grid, int, int) -> Grid)
    requires PreservesShape(blur)
    modifies out
    ensures ToGrid(out) == Redact(old(ToGrid(out)), boxes, blur)
  {
    ghost var g := ToGrid(out);
    for k := 0 to |boxes|
      invariant ToGrid(out) == Redact(g, boxes[..k], blur)
    {
      BlurBox(out, boxes[k], blur);
      RedactPrefix(g, boxes, k, blur);
    }
    assert boxes[..|boxes|] == boxes;
  }

  /** `PrivacyBlurrer.apply_blur`: a fresh copy of the image with every box
      redacted in list order; the input buffer is left as it was. */
  method ApplyBlur(image: array2<Pixel>, boxes: seq<Box>, blur: (Grid, int, int) -> Grid)
    returns (out: array2<Pixel>)
    requires PreservesShape(blur)
    ensures fresh(out) && out.Length0 == image.Length0 && out.Length1 == image.Length1
    ensures ToGrid(out) == Redact(ToGrid(image), boxes, blur)
    ensures ToGrid(image) == old(ToGrid(image))
  {
    out := Copy(image);
    BlurAll(out, boxes, blur);
  }
}
