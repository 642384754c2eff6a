/** Grid tiling of a large image (`ImageUtils.slice_image`): a row-major walk
    with stride `step` that cuts tiles of at most `tileSize` pixels a side,
    clipped at the right and bottom edges. */
module Slicing {
  import opened Common

  /** A tile: its pixels and the offset of its top-left pixel in the parent image. */
  datatype Tile = Tile(pixels: Grid, xOff: int, yOff: int)

  /** Python's `int()` of the quotient a/d: truncation toward zero. */
  function TruncDiv(a: int, d: PosNat): (q: int)
    ensures a >= 0 ==> q * d <= a < (q + 1) * d
    ensures a < 0 ==> (q - 1) * d < a <= q * d
  {
    if a >= 0 then a / d else -((-a) / d)
  }

  lemma TruncDivPositive(a: int, d: PosNat)
    ensures TruncDiv(a, d) > 0 <==> a >= d
  {
    var q := TruncDiv(a, d);
    if a >= d {
      if q <= 0 {
        MulMono(q + 1, 1, d);
        assert false;
      }
    } else if a >= 0 {
      if q > 0 {
        MulMono(1, q, d);
        assert false;
      }
    }
  }

  /** The stride `int(tile_size * (1 - overlap))`, with the overlap exact. */
  function Step(tileSize: nat, overlap: Ratio): (s: int)
    ensures s > 0 <==> tileSize * (overlap.den - overlap.num) >= overlap.den
    ensures overlap.num >= 0 ==> s <= tileSize
  {
    var a := tileSize * (overlap.den - overlap.num);
    TruncDivPositive(a, overlap.den);
    if overlap.num >= 0 then StepAtMostTile(tileSize, overlap); TruncDiv(a, overlap.den)
    else TruncDiv(a, overlap.den)
  }

  /** A non-negative overlap never makes the stride longer than the tile. */
  lemma StepAtMostTile(tileSize: nat, overlap: Ratio)
    requires overlap.num >= 0
    ensures TruncDiv(tileSize * (overlap.den - overlap.num), overlap.den) <= tileSize
  {
    var q := TruncDiv(tileSize * (overlap.den - overlap.num), overlap.den);
    if q > tileSize {
      MulMono(overlap.den - overlap.num, overlap.den, tileSize);
      MulMono(tileSize + 1, q, overlap.den);
      assert false;
    }
  }

  /** The number of strides 0, d, 2d, ... that are below n: ceil(n / d). */
  function CeilDiv(n: nat, d: PosNat): (q: nat) {
    (n + d - 1) / d
  }

  lemma CeilDivBelow(n: nat, d: PosNat, k: nat)
    ensures k * d < n <==> k < CeilDiv(n, d)
  {
    var q := CeilDiv(n, d);
    if k < q {
      MulMono(k, q - 1, d);
    } else {
      MulMono(q, k, d);
    }
  }

  lemma SmallMultiple(x: int, c: PosNat)
    requires 0 - c < x * c < c
    ensures x == 0
  {
    if x >= 1 {
      MulMono(1, x, c);
    } else if x <= -1 {
      MulMono(x, -1, c);
    }
  }

  lemma RowMajorBelow(k: nat, rows: nat, cols: nat)
    requires k < rows * cols
    ensures cols > 0 && k / cols < rows && k % cols < cols
    ensures k == (k / cols) * cols + k % cols
  {
    var q := k / cols;
    if q >= rows {
      MulMono(rows, q, cols);
    }
  }

  /** The tile at offset (x, y): rows [y, min(y + tileSize, h)) and
      columns [x, min(x + tileSize, w)), clipped at the edge, never padded. */
  function TileAt(g: Grid, tileSize: nat, x: nat, y: nat): (t: Tile)
    requires WellFormed(g) && x < Width(g) && y < |g|
  {
    Tile(Crop(g, Box(x, y, Min(x + tileSize, Width(g)) - x, Min(y + tileSize, |g|) - y)), x, y)
  }

  /** A tile offset: the `x` and `y` of the two nested `range` loops. */
  datatype Offset = Offset(x: nat, y: nat)

  /** The offsets of the grid row at `y`, from column `x` on: x, x + step, ... < w. */
  function RowOffsets(w: nat, step: PosNat, y: nat, x: nat): (os: seq<Offset>)
    decreases w - x
  {
    if x >= w then [] else [Offset(x, y)] + RowOffsets(w, step, y, x + step)
  }

  /** The offsets of the grid rows from `y` on: y, y + step, ... < h, row after row. */
  function OffsetsFrom(h: nat, w: nat, step: PosNat, y: nat): (os: seq<Offset>)
    decreases h - y
  {
    if y >= h then [] else RowOffsets(w, step, y, 0) + OffsetsFrom(h, w, step, y + step)
  }

  lemma {:induction false} RowOffsetsBounds(w: nat, step: PosNat, y: nat, x: nat)
    ensures forall i :: 0 <= i < |RowOffsets(w, step, y, x)| ==>
      x <= RowOffsets(w, step, y, x)[i].x < w && RowOffsets(w, step, y, x)[i].y == y
    decreases w - x
  {
    if x < w {
      RowOffsetsBounds(w, step, y, x + step);
    }
  }

  lemma {:induction false} OffsetsFromBounds(h: nat, w: nat, step: PosNat, y: nat)
    ensures forall i :: 0 <= i < |OffsetsFrom(h, w, step, y)| ==>
      OffsetsFrom(h, w, step, y)[i].x < w && y <= OffsetsFrom(h, w, step, y)[i].y < h
    decreases h - y
  {
    if y < h {
      RowOffsetsBounds(w, step, y, 0);
      OffsetsFromBounds(h, w, step, y + step);
    }
  }

  /** The offsets visited by `slice_image` on an image of h rows and w columns. */
  function GridOffsets(h: nat, w: nat, step: PosNat): (os: seq<Offset>) {
    OffsetsFrom(h, w, step, 0)
  }

  /** The tiles at the offsets `os`, in order. */
  function TilesOf(g: Grid, tileSize: nat, os: seq<Offset>): (ts: seq<Tile>)
    requires WellFormed(g) && forall i :: 0 <= i < |os| ==> os[i].x < Width(g) && os[i].y < |g|
    ensures |ts| == |os|
  {
    if os == [] then [] else TilesOf(g, tileSize, os[..|os| - 1]) + [TileAt(g, tileSize, os[|os| - 1].x, os[|os| - 1].y)]
  }

  lemma {:induction false} TilesOfAt(g: Grid, tileSize: nat, os: seq<Offset>, i: nat)
    requires WellFormed(g) && forall i :: 0 <= i < |os| ==> os[i].x < Width(g) && os[i].y < |g|
    requires i < |os|
    ensures TilesOf(g, tileSize, os)[i] == TileAt(g, tileSize, os[i].x, os[i].y)
  {
    if i < |os| - 1 {
      TilesOfAt(g, tileSize, os[..|os| - 1], i);
    }
  }

  /** Cutting at two runs of offsets gives the tiles of the first run, then those of the second. */
  lemma {:induction false} TilesOfAppend(g: Grid, tileSize: nat, a: seq<Offset>, b: seq<Offset>)
    requires WellFormed(g) && OffsetsWithin(a, |g|, Width(g)) && OffsetsWithin(b, |g|, Width(g))
    ensures OffsetsWithin(a + b, |g|, Width(g))
    ensures TilesOf(g, tileSize, a + b) == TilesOf(g, tileSize, a) + TilesOf(g, tileSize, b)
    decreases |b|
  {
    if b == [] {
      assert a + b == a;
    } else {
      var front := b[..|b| - 1];
      assert (a + b)[..|a + b| - 1] == a + front;
      TilesOfAppend(g, tileSize, a, front);
    }
  }

  /** The tiles of the grid row at `y`, left to right. */
  function RowTiles(g: Grid, tileSize: nat, step: PosNat, y: nat): (ts: seq<Tile>)
    requires WellFormed(g) && y < |g|
  {
    RowOffsetsBounds(Width(g), step, y, 0);
    TilesOf(g, tileSize, RowOffsets(Width(g), step, y, 0))
  }

  /** The tiles of `slice_image`, one per grid offset, in the order visited. */
  function GridTiles(g: Grid, tileSize: nat, step: PosNat): (ts: seq<Tile>)
    requires WellFormed(g)
  {
    OffsetsFromBounds(|g|, Width(g), step, 0);
    TilesOf(g, tileSize, GridOffsets(|g|, Width(g), step))
  }

  /** `ImageUtils.slice_image`. A zero stride is the ValueError of Python's
      `range`; a negative stride makes `range` empty. */
  method SliceImage(image: array2<Pixel>, tileSize: nat, overlap: Ratio) returns (r: Result<seq<Tile>>)
    ensures Step(tileSize, overlap) == 0 <==> r == Err(ZeroStep)
    ensures Step(tileSize, overlap) < 0 ==> r == Ok([])
    ensures Step(tileSize, overlap) > 0 ==> r == Ok(GridTiles(ToGrid(image), tileSize, Step(tileSize, overlap)))
  {
    var step := Step(tileSize, overlap);
    if step == 0 {
      return Err(ZeroStep);
    }
    if step < 0 {
      return Ok([]);
    }
    var tiles := CutTiles(image, tileSize, step);
    return Ok(tiles);
  }

  /** Offsets that lie inside an image of h rows and w columns. */
  ghost predicate OffsetsWithin(os: seq<Offset>, h: nat, w: nat) {
    forall i :: 0 <= i < |os| ==> os[i].x < w && os[i].y < h
  }

  /** The outer loop of `slice_image` for a positive stride: one grid row per pass. */
  method CutTiles(image: array2<Pixel>, tileSize: nat, step: PosNat) returns (tiles: seq<Tile>)
    ensures tiles == GridTiles(ToGrid(image), tileSize, step)
  {
    var h, w := image.Length0, image.Length1;
    ghost var spec := GridOffsets(h, w, step);
    if h == 0 {
      assert spec == [];
      return [];
    }
    ghost var offs: seq<Offset> := [];
    tiles := [];
    var y := 0;
    while y < h
      invariant offs + OffsetsFrom(h, w, step, y) == spec
      invariant OffsetsWithin(offs, h, w)
      invariant tiles == TilesOf(ToGrid(image), tileSize, offs)
    {
      assert OffsetsFrom(h, w, step, y) == RowOffsets(w, step, y, 0) + OffsetsFrom(h, w, step, y + step);
      tiles, offs := CutRow(image, tileSize, step, y, tiles, offs);
      y := y + step;
    }
    assert OffsetsFrom(h, w, step, y) == [];
    ghost var g := ToGrid(image);
    assert |g| == h && Width(g) == w;
    assert offs == GridOffsets(|g|, Width(g), step);
  }

  /** The inner loop of `slice_image`: the tiles of the grid row at `y`,
      appended to `tiles`, the tiles at the offsets `offs` visited before. */
  method CutRow(image: array2<Pixel>, tileSize: nat, step: PosNat, y: nat,
                tiles: seq<Tile>, ghost offs: seq<Offset>)
    returns (tiles': seq<Tile>, ghost offs': seq<Offset>)
    requires y < image.Length0 && OffsetsWithin(offs, image.Length0, image.Length1)
    requires tiles == TilesOf(ToGrid(image), tileSize, offs)
    ensures offs' == offs + RowOffsets(image.Length1, step, y, 0)
    ensures OffsetsWithin(offs', image.Length0, image.Length1)
    ensures tiles' == TilesOf(ToGrid(image), tileSize, offs')
    ensures tiles' == tiles + RowTiles(ToGrid(image), tileSize, step, y)
  {
    var w := image.Length1;
    tiles', offs' := tiles, offs;
    var x := 0;
    while x < w
      invariant offs' + RowOffsets(w, step, y, x) == offs + RowOffsets(w, step, y, 0)
      invariant OffsetsWithin(offs', image.Length0, w)
      invariant tiles' == TilesOf(ToGrid(image), tileSize, offs')
    {
      assert RowOffsets(w, step, y, x) == [Offset(x, y)] + RowOffsets(w, step, y, x + step);
      ghost var before := offs';
      tiles' := tiles' + [TileAt(ToGrid(image), tileSize, x, y)];
      offs' := offs' + [Offset(x, y)];
      assert offs'[..|offs'| - 1] == before && offs'[|offs'| - 1] == Offset(x, y);
      x := x + step;
    }
    assert offs' == offs + RowOffsets(w, step, y, 0) by {
      assert RowOffsets(w, step, y, x) == [];
    }
    RowOffsetsBounds(w, step, y, 0);
    TilesOfAppend(ToGrid(image), tileSize, offs, RowOffsets(w, step, y, 0));
  }

  // ---------------------------------------------------------------------------
  // The closed form of the walk: offset number k sits in grid row k / cols and
  // grid column k % cols, where cols = ceil(w / step).
  // ---------------------------------------------------------------------------

  /** n - m, or 0 when m >= n. */
  function Sub(n: int, m: int): (r: nat) {
    if n > m then n - m else 0
  }

  lemma DivUnique(a: int, d: PosNat, q: int)
    requires q * d <= a < q * d + d
    ensures a / d == q
  {
    assert (a / d - q) * d == (a - q * d) - a % d;
    SmallMultiple(a / d - q, d);
  }

  lemma CeilDivPeel(n: nat, d: PosNat)
    requires n > 0
    ensures CeilDiv(n, d) == 1 + CeilDiv(Sub(n, d), d)
  {
    if n <= d {
      DivUnique(n + d - 1, d, 1);
      DivUnique(d - 1, d, 0);
    } else {
      var m := n - d + d - 1;
      var q := m / d;
      assert q * d <= m < q * d + d;
      assert (q + 1) * d == q * d + d;
      DivUnique(m + d, d, q + 1);
    }
  }

  /** a * b as repeated addition: proofs about the walk that count strides
      with it stay linear. */
  function Mul(a: nat, b: nat): (p: nat) {
    if a == 0 then 0 else b + Mul(a - 1, b)
  }

  lemma {:induction false} MulIsProduct(a: nat, b: nat)
    ensures Mul(a, b) == a * b
  {
    if a > 0 {
      MulIsProduct(a - 1, b);
    }
  }

  lemma MulPeel(r: nat, a: int)
    requires r > 0
    ensures r * a == a + (r - 1) * a
  {
  }

  lemma {:induction false} RowOffsetsLength(w: nat, step: PosNat, y: nat, x: nat)
    ensures |RowOffsets(w, step, y, x)| == CeilDiv(Sub(w, x), step)
    decreases w - x
  {
    if x < w {
      RowOffsetsLength(w, step, y, x + step);
      CeilDivPeel(w - x, step);
      assert Sub(w - x, step) == Sub(w, x + step);
    } else {
      DivUnique(step - 1, step, 0);
    }
  }

  lemma {:induction false} RowOffsetsAt(w: nat, step: PosNat, y: nat, x: nat, i: nat)
    requires x + Mul(i, step) < w
    ensures i < |RowOffsets(w, step, y, x)|
    ensures RowOffsets(w, step, y, x)[i] == Offset(x + Mul(i, step), y)
    decreases i
  {
    if i > 0 {
      RowOffsetsAt(w, step, y, x + step, i - 1);
    }
  }

  lemma {:induction false} OffsetsFromLength(h: nat, w: nat, step: PosNat, y: nat)
    ensures |OffsetsFrom(h, w, step, y)| == CeilDiv(Sub(h, y), step) * CeilDiv(w, step)
    decreases h - y
  {
    if y < h {
      RowOffsetsLength(w, step, y, 0);
      OffsetsFromLength(h, w, step, y + step);
      CeilDivPeel(h - y, step);
      assert Sub(h - y, step) == Sub(h, y + step);
      MulPeel(CeilDiv(Sub(h, y), step), CeilDiv(w, step));
    } else {
      DivUnique(step - 1, step, 0);
    }
  }

  lemma {:induction false} OffsetsFromAtMul(h: nat, w: nat, step: PosNat, y: nat, r: nat, c: nat)
    requires y + Mul(r, step) < h && Mul(c, step) < w
    ensures Mul(r, CeilDiv(w, step)) + c < |OffsetsFrom(h, w, step, y)|
    ensures OffsetsFrom(h, w, step, y)[Mul(r, CeilDiv(w, step)) + c] == Offset(Mul(c, step), y + Mul(r, step))
    decreases r
  {
    var cols := CeilDiv(w, step);
    var row, rest := RowOffsets(w, step, y, 0), OffsetsFrom(h, w, step, y + step);
    assert OffsetsFrom(h, w, step, y) == row + rest;
    RowOffsetsLength(w, step, y, 0);
    assert Sub(w, 0) == w && |row| == cols;
    RowOffsetsAt(w, step, y, 0, c);
    if r == 0 {
      assert (row + rest)[c] == row[c];
    } else {
      var k := Mul(r - 1, cols) + c;
      OffsetsFromAtMul(h, w, step, y + step, r - 1, c);
      assert (row + rest)[cols + k] == rest[k];
    }
  }

  lemma OffsetsFromAt(h: nat, w: nat, step: PosNat, y: nat, r: nat, c: nat)
    requires y + r * step < h && c * step < w
    ensures r * CeilDiv(w, step) + c < |OffsetsFrom(h, w, step, y)|
    ensures OffsetsFrom(h, w, step, y)[r * CeilDiv(w, step) + c] == Offset(c * step, y + r * step)
  {
    MulIsProduct(r, step);
    MulIsProduct(c, step);
    MulIsProduct(r, CeilDiv(w, step));
    OffsetsFromAtMul(h, w, step, y, r, c);
  }

  /** Offset number r * cols + c of the walk from row 0 is (c * step, r * step). */
  lemma GridOffsetsAtIndex(h: nat, w: nat, step: PosNat, r: nat, c: nat, k: nat)
    requires r * step < h && c * step < w && k == r * CeilDiv(w, step) + c
    ensures k < |GridOffsets(h, w, step)| && GridOffsets(h, w, step)[k] == Offset(c * step, r * step)
  {
    OffsetsFromAt(h, w, step, 0, r, c);
  }

  /** Offset number k of the walk is ((k % cols) * step, (k / cols) * step). */
  lemma GridOffsetsAt(h: nat, w: nat, step: PosNat, k: nat)
    requires k < |GridOffsets(h, w, step)|
    ensures CeilDiv(w, step) > 0
    ensures GridOffsets(h, w, step)[k].x == (k % CeilDiv(w, step)) * step
    ensures GridOffsets(h, w, step)[k].y == (k / CeilDiv(w, step)) * step
  {
    var rows, cols := CeilDiv(h, step), CeilDiv(w, step);
    assert k < rows * cols by {
      OffsetsFromLength(h, w, step, 0);
      assert Sub(h, 0) == h;
    }
    RowMajorBelow(k, rows, cols);
    GridOffsetsAtCell(h, w, step, k / cols, k % cols, k);
  }

  /** The offset in grid row r and grid column c of the walk. */
  lemma GridOffsetsAtCell(h: nat, w: nat, step: PosNat, r: nat, c: nat, k: nat)
    requires r < CeilDiv(h, step) && c < CeilDiv(w, step) && k == r * CeilDiv(w, step) + c
    ensures k < |GridOffsets(h, w, step)| && GridOffsets(h, w, step)[k] == Offset(c * step, r * step)
  {
    CeilDivBelow(h, step, r);
    CeilDivBelow(w, step, c);
    GridOffsetsAtIndex(h, w, step, r, c, k);
  }

  /** Row-major numbering is order-preserving: a smaller number is in an
      earlier row, or in the same row further left. */
  lemma RowMajorOrder(a: nat, b: nat, cols: PosNat, step: PosNat)
    requires a < b
    ensures (a / cols) * step < (b / cols) * step
         || ((a / cols) * step == (b / cols) * step && (a % cols) * step < (b % cols) * step)
  {
    var ra, ca, rb, cb := a / cols, a % cols, b / cols, b % cols;
    assert a == ra * cols + ca && b == rb * cols + cb;
    if ra > rb {
      MulMono(rb + 1, ra, cols);
      assert false;
    } else if ra < rb {
      MulMono(ra + 1, rb, step);
    } else {
      MulMono(ca + 1, cb, step);
    }
  }

  /** Offsets come in row-major order. */
  lemma GridOffsetsOrdered(h: nat, w: nat, step: PosNat, a: nat, b: nat)
    requires a < b < |GridOffsets(h, w, step)|
    ensures var os := GridOffsets(h, w, step);
      os[a].y < os[b].y || (os[a].y == os[b].y && os[a].x < os[b].x)
  {
    GridOffsetsAt(h, w, step, a);
    GridOffsetsAt(h, w, step, b);
    RowMajorOrder(a, b, CeilDiv(w, step), step);
  }

  /** What a tile holds: the clipped box at its offset, and the image's pixels there. */
  lemma TileAtContents(g: Grid, tileSize: nat, x: nat, y: nat)
    requires WellFormed(g) && x < Width(g) && y < |g|
    ensures var t := TileAt(g, tileSize, x, y);
      && t.xOff == x && t.yOff == y
      && IsRect(t.pixels, Min(y + tileSize, |g|) - y, Min(x + tileSize, Width(g)) - x)
      && (forall r, c :: 0 <= r < |t.pixels| && 0 <= c < Min(x + tileSize, Width(g)) - x ==>
            t.pixels[r][c] == g[y + r][x + c])
  {
  }

  /** There are ceil(h / step) * ceil(w / step) tiles. */
  lemma TileCount(g: Grid, tileSize: nat, step: PosNat)
    requires WellFormed(g)
    ensures |GridTiles(g, tileSize, step)| == CeilDiv(|g|, step) * CeilDiv(Width(g), step)
  {
    OffsetsFromLength(|g|, Width(g), step, 0);
    assert Sub(|g|, 0) == |g|;
  }

  /** Every grid point (c * step, r * step) inside the image is the offset of
      tile number r * cols + c. */
  lemma TileGridComplete(g: Grid, tileSize: nat, step: PosNat, r: nat, c: nat)
    requires WellFormed(g) && r * step < |g| && c * step < Width(g)
    ensures r * CeilDiv(Width(g), step) + c < |GridTiles(g, tileSize, step)|
    ensures GridTiles(g, tileSize, step)[r * CeilDiv(Width(g), step) + c]
         == TileAt(g, tileSize, c * step, r * step)
  {
    OffsetsFromAt(|g|, Width(g), step, 0, r, c);
    OffsetsFromBounds(|g|, Width(g), step, 0);
    TilesOfAt(g, tileSize, GridOffsets(|g|, Width(g), step), r * CeilDiv(Width(g), step) + c);
  }

  /** Tile number k is the one at offset ((k % cols) * step, (k / cols) * step),
      inside the image. */
  lemma TileOffsets(g: Grid, tileSize: nat, step: PosNat, k: nat)
    requires WellFormed(g) && k < |GridTiles(g, tileSize, step)|
    ensures CeilDiv(Width(g), step) > 0
    ensures var t := GridTiles(g, tileSize, step)[k];
      && 0 <= t.xOff < Width(g) && 0 <= t.yOff < |g|
      && t == TileAt(g, tileSize, t.xOff, t.yOff)
      && t.xOff == (k % CeilDiv(Width(g), step)) * step
      && t.yOff == (k / CeilDiv(Width(g), step)) * step
  {
    var os := GridOffsets(|g|, Width(g), step);
    GridOffsetsAt(|g|, Width(g), step, k);
    OffsetsFromBounds(|g|, Width(g), step, 0);
    TilesOfAt(g, tileSize, os, k);
  }

  /** The box in the parent image that a tile covers. */
  function TileBox(t: Tile): (b: Box) {
    Box(t.xOff, t.yOff, Width(t.pixels), |t.pixels|)
  }

  /** Every tile lies in the image, is at most `tileSize` a side and at least one
      pixel, and holds the image's pixels at its offset. */
  lemma TileContents(g: Grid, tileSize: nat, step: PosNat, k: nat)
    requires WellFormed(g) && k < |GridTiles(g, tileSize, step)|
    ensures var t := GridTiles(g, tileSize, step)[k];
      && WellFormed(t.pixels)
      && BoxWithin(TileBox(t), |g|, Width(g))
      && |t.pixels| == Min(t.yOff + tileSize, |g|) - t.yOff
      && Width(t.pixels) == Min(t.xOff + tileSize, Width(g)) - t.xOff
      && (tileSize > 0 ==> 1 <= |t.pixels| <= tileSize && 1 <= Width(t.pixels) <= tileSize)
      && forall r, c :: 0 <= r < |t.pixels| && 0 <= c < Width(t.pixels) ==>
           t.pixels[r][c] == g[t.yOff + r][t.xOff + c]
  {
    var os := GridOffsets(|g|, Width(g), step);
    OffsetsFromBounds(|g|, Width(g), step, 0);
    TilesOfAt(g, tileSize, os, k);
    TileAtContents(g, tileSize, os[k].x, os[k].y);
  }

  /** Division by the stride finds the multiple at or just below n. */
  lemma DivBounds(n: nat, d: PosNat)
    ensures (n / d) * d <= n < (n / d) * d + d
  {
  }

  /** The tile at grid point (x, y) = (j * step, i * step) holds every pixel
      of the step-sized cell at that point. */
  lemma TileCoversCell(g: Grid, tileSize: nat, step: PosNat, i: nat, j: nat, x: nat, y: nat, r: nat, c: nat)
    requires WellFormed(g) && step <= tileSize && r < |g| && c < Width(g)
    requires x == j * step && y == i * step && y <= r < y + step && x <= c < x + step
    ensures exists k :: 0 <= k < |GridTiles(g, tileSize, step)|
                     && InBox(TileBox(GridTiles(g, tileSize, step)[k]), r, c)
  {
    var k := i * CeilDiv(Width(g), step) + j;
    var t := TileAt(g, tileSize, x, y);
    assert k < |GridTiles(g, tileSize, step)| && GridTiles(g, tileSize, step)[k] == t by {
      TileGridComplete(g, tileSize, step, i, j);
    }
    assert InBox(TileBox(t), r, c) by {
      TileAtContents(g, tileSize, x, y);
    }
  }

  /** With a stride no larger than the tile (overlap >= 0), every pixel of the
      image lies in some tile. */
  lemma TilesCover(g: Grid, tileSize: nat, step: PosNat, r: nat, c: nat)
    requires WellFormed(g) && step <= tileSize && r < |g| && c < Width(g)
    ensures exists k :: 0 <= k < |GridTiles(g, tileSize, step)|
                     && InBox(TileBox(GridTiles(g, tileSize, step)[k]), r, c)
  {
    var i, j := r / step, c / step;
    DivBounds(r, step);
    DivBounds(c, step);
    TileCoversCell(g, tileSize, step, i, j, j * step, i * step, r, c);
  }

  /** Tiles come out in row-major order: an earlier tile is in an earlier grid
      row, or in the same row further left. */
  lemma TilesRowMajor(g: Grid, tileSize: nat, step: PosNat, a: nat, b: nat)
    requires WellFormed(g) && a < b < |GridTiles(g, tileSize, step)|
    ensures var ts := GridTiles(g, tileSize, step);
      ts[a].yOff < ts[b].yOff || (ts[a].yOff == ts[b].yOff && ts[a].xOff < ts[b].xOff)
  {
    var os := GridOffsets(|g|, Width(g), step);
    OffsetsFromBounds(|g|, Width(g), step, 0);
    GridOffsetsOrdered(|g|, Width(g), step, a, b);
    TilesOfAt(g, tileSize, os, a);
    TilesOfAt(g, tileSize, os, b);
    TileAtContents(g, tileSize, os[a].x, os[a].y);
    TileAtContents(g, tileSize, os[b].x, os[b].y);
  }

  /** The default stride: 1024 pixels at overlap 0.2 step by int(819.2) = 819. */
  lemma DefaultStep()
    ensures Step(1024, Ratio(1, 5)) == 819
    ensures Step(1024, Ratio(0, 1)) == 1024
  {
  }

  /** A 2048 x 2048 image cut into 1024-pixel tiles without overlap gives the
      four tiles at (0, 0), (1024, 0), (0, 1024) and (1024, 1024), in that order. */
  lemma SliceFourTiles(g: Grid)
    requires IsRect(g, 2048, 2048)
    ensures var ts := GridTiles(g, 1024, Step(1024, Ratio(0, 1)));
      && |ts| == 4
      && ts[0].xOff == 0 && ts[0].yOff == 0
      && ts[1].xOff == 1024 && ts[1].yOff == 0
      && ts[2].xOff == 0 && ts[2].yOff == 1024
      && ts[3].xOff == 1024 && ts[3].yOff == 1024
  {
    assert Width(g) == 2048;
    DefaultStep();
    TileCount(g, 1024, 1024);
    assert CeilDiv(2048, 1024) == 2;
    TileGridComplete(g, 1024, 1024, 0, 0);
    TileGridComplete(g, 1024, 1024, 0, 1);
    TileGridComplete(g, 1024, 1024, 1, 0);
    TileGridComplete(g, 1024, 1024, 1, 1);
  }

  /** An image no larger than one stride and one tile is a single tile: itself at (0, 0). */
  lemma SingleTile(g: Grid, tileSize: nat, step: PosNat)
    requires WellFormed(g) && 0 < |g| <= step && 0 < Width(g) <= step
    requires |g| <= tileSize && Width(g) <= tileSize
    ensures GridTiles(g, tileSize, step) == [Tile(g, 0, 0)]
  {
    TileCount(g, tileSize, step);
    DivUnique(|g| + step - 1, step, 1);
    DivUnique(Width(g) + step - 1, step, 1);
    TileGridComplete(g, tileSize, step, 0, 0);
    TileAtContents(g, tileSize, 0, 0);
    var t := GridTiles(g, tileSize, step)[0];
    GridExt(t.pixels, g, |g|, Width(g));
  }
}
