/** The redaction job (`JobProcessor`): detect faces and licence plates, on
    overlapping tiles when the image is large, bring every detection back to
    image coordinates, merge the overlapping ones, blur what is left, and
    derive the key under which the result is stored. The two detectors and
    the blur primitive are parameters. */
module JobProcessor {
  import opened Common
  import Slicing
  import Merging
  import PrivacyBlurrer

  /** A detector: boxes, in the coordinates of the grid it is given. */
  type Detector = Grid -> seq<Box>

  /** The defaults `process_image_data` uses. */
  const TileSize: nat := 1024
  const TileOverlap: Ratio := Ratio(1, 5)
  const IouThreshold: Ratio := Ratio(1, 2)

  /** An image is tiled when either side exceeds 2000 pixels. */
  predicate UseTiling(height: nat, width: nat) {
    width > 2000 || height > 2000
  }

  // ---------------------------------------------------------------------------
  // Detections of one tile, mapped back to image coordinates.
  // ---------------------------------------------------------------------------

  /** A tile-local box moved to image coordinates: the tile's offset is added
      to the corner, the extent is unchanged. */
  function Shift(b: Box, xOff: int, yOff: int): (s: Box)
    ensures s.x - xOff == b.x && s.y - yOff == b.y
    ensures s.w == b.w && s.h == b.h
  {
    Box(b.x + xOff, b.y + yOff, b.w, b.h)
  }

  /** Every box of `bs` shifted, in order. */
  function ShiftAll(bs: seq<Box>, xOff: int, yOff: int): (s: seq<Box>)
    ensures |s| == |bs|
    ensures forall i :: 0 <= i < |bs| ==> s[i] == Shift(bs[i], xOff, yOff)
  {
    if bs == [] then [] else ShiftAll(bs[..|bs| - 1], xOff, yOff) + [Shift(bs[|bs| - 1], xOff, yOff)]
  }

  /** The detections of one tile: its faces, then its plates. */
  function TileDetections(t: Slicing.Tile, faces: Detector, plates: Detector): (ds: seq<Box>) {
    ShiftAll(faces(t.pixels), t.xOff, t.yOff) + ShiftAll(plates(t.pixels), t.xOff, t.yOff)
  }

  /** The detections of a sequence of tiles, tile by tile. */
  function TiledDetections(ts: seq<Slicing.Tile>, faces: Detector, plates: Detector): (ds: seq<Box>) {
    if ts == [] then []
    else TiledDetections(ts[..|ts| - 1], faces, plates) + TileDetections(ts[|ts| - 1], faces, plates)
  }

  /** The number of boxes the detectors report for a sequence of tiles. */
  function DetectionCount(ts: seq<Slicing.Tile>, faces: Detector, plates: Detector): (n: nat) {
    if ts == [] then 0
    else DetectionCount(ts[..|ts| - 1], faces, plates)
         + |faces(ts[|ts| - 1].pixels)| + |plates(ts[|ts| - 1].pixels)|
  }

  /** The list `all_boxes` of `process_image_data` for a grid of `width` columns. */
  function Detections(g: Grid, width: nat, faces: Detector, plates: Detector): (ds: seq<Box>)
    requires IsRect(g, |g|, width)
  {
    if UseTiling(|g|, width) then
      Slicing.DefaultStep();
      TiledDetections(Slicing.GridTiles(g, TileSize, Slicing.Step(TileSize, TileOverlap)), faces, plates)
    else
      faces(g) + plates(g)
  }

  /** The boxes that are blurred: the detections after merging. Each of them
      is one of the detections, and there are no more of them. */
  function FinalBoxes(g: Grid, width: nat, faces: Detector, plates: Detector): (fs: seq<Box>)
    requires IsRect(g, |g|, width)
    ensures |fs| <= |Detections(g, width, faces, plates)|
    ensures (fs == []) == (Detections(g, width, faces, plates) == [])
    ensures forall a :: 0 <= a < |fs| ==> fs[a] in Detections(g, width, faces, plates)
  {
    var ds := Detections(g, width, faces, plates);
    Merging.MergeSize(ds, IouThreshold);
    Merging.MergeFromInputs(ds, IouThreshold);
    Merging.MergeSpec(ds, IouThreshold)
  }

  // ---------------------------------------------------------------------------
  // Properties of the detection list.
  // ---------------------------------------------------------------------------

  /** The detections of a concatenation of tile sequences are the
      concatenation of their detections. */
  lemma {:induction false} TiledDetectionsAppend(a: seq<Slicing.Tile>, b: seq<Slicing.Tile>, faces: Detector, plates: Detector)
    ensures TiledDetections(a + b, faces, plates) == TiledDetections(a, faces, plates) + TiledDetections(b, faces, plates)
  {
    if b != [] {
      var b' := b[..|b| - 1];
      assert (a + b)[..|a + b| - 1] == a + b';
      assert (a + b)[|a + b| - 1] == b[|b| - 1];
      TiledDetectionsAppend(a, b', faces, plates);
    } else {
      assert a + b == a;
    }
  }

  /** The detections of tile k sit, as one block, between those of the tiles
      before it and those of the tiles after it. */
  lemma TiledDetectionsBlock(ts: seq<Slicing.Tile>, k: nat, faces: Detector, plates: Detector)
    requires k < |ts|
    ensures TiledDetections(ts, faces, plates)
         == TiledDetections(ts[..k], faces, plates) + TileDetections(ts[k], faces, plates)
            + TiledDetections(ts[k + 1..], faces, plates)
  {
    var front := ts[..k + 1];
    assert ts == front + ts[k + 1..];
    TiledDetectionsAppend(front, ts[k + 1..], faces, plates);
    assert front[..|front| - 1] == ts[..k] && front[|front| - 1] == ts[k];
  }

  /** One detection per box the detectors report, none dropped. */
  lemma {:induction false} TiledDetectionsLength(ts: seq<Slicing.Tile>, faces: Detector, plates: Detector)
    ensures |TiledDetections(ts, faces, plates)| == DetectionCount(ts, faces, plates)
  {
    if ts != [] {
      TiledDetectionsLength(ts[..|ts| - 1], faces, plates);
    }
  }

  /** A large image's detections are its tiles' detections in slicing order:
      tile k's faces then plates, shifted, between those of the tiles before
      and after it, one entry per reported box. */
  lemma LargeImageDetections(g: Grid, width: nat, faces: Detector, plates: Detector, k: nat)
    requires IsRect(g, |g|, width) && UseTiling(|g|, width)
    requires k < |Slicing.GridTiles(g, TileSize, 819)|
    ensures var ds, ts := Detections(g, width, faces, plates), Slicing.GridTiles(g, TileSize, 819);
      && |ds| == DetectionCount(ts, faces, plates)
      && ds == TiledDetections(ts[..k], faces, plates) + TileDetections(ts[k], faces, plates)
               + TiledDetections(ts[k + 1..], faces, plates)
  {
    Slicing.DefaultStep();
    var ts := Slicing.GridTiles(g, TileSize, 819);
    TiledDetectionsLength(ts, faces, plates);
    TiledDetectionsBlock(ts, k, faces, plates);
  }

  /** A large image has one detection per box the detectors report over all
      its tiles. */
  lemma LargeImageDetectionCount(g: Grid, width: nat, faces: Detector, plates: Detector)
    requires IsRect(g, |g|, width) && UseTiling(|g|, width)
    ensures |Detections(g, width, faces, plates)|
      == DetectionCount(Slicing.GridTiles(g, TileSize, 819), faces, plates)
  {
    Slicing.DefaultStep();
    TiledDetectionsLength(Slicing.GridTiles(g, TileSize, 819), faces, plates);
  }

  /** A small image is seen whole: its face boxes, then its plate boxes,
      unshifted. */
  lemma SmallImageDetections(g: Grid, width: nat, faces: Detector, plates: Detector)
    requires IsRect(g, |g|, width) && !UseTiling(|g|, width)
    ensures var ds := Detections(g, width, faces, plates);
      && |ds| == |faces(g)| + |plates(g)|
      && ds[..|faces(g)|] == faces(g)
      && ds[|faces(g)|..] == plates(g)
  {
  }

  /** A box that a detector reports inside a tile is, once shifted, inside the
      image and covers the same pixels there as it does in the tile. */
  lemma RemapSamePixels(g: Grid, tileSize: nat, step: PosNat, k: nat, b: Box)
    requires WellFormed(g) && k < |Slicing.GridTiles(g, tileSize, step)|
    requires var t := Slicing.GridTiles(g, tileSize, step)[k];
      BoxWithin(b, |t.pixels|, Width(t.pixels))
    ensures var t := Slicing.GridTiles(g, tileSize, step)[k];
      && WellFormed(t.pixels)
      && BoxWithin(Shift(b, t.xOff, t.yOff), |g|, Width(g))
      && Crop(t.pixels, b) == Crop(g, Shift(b, t.xOff, t.yOff))
  {
    var t := Slicing.GridTiles(g, tileSize, step)[k];
    Slicing.TileContents(g, tileSize, step, k);
    var s := Shift(b, t.xOff, t.yOff);
    var local, global := Crop(t.pixels, b), Crop(g, s);
    forall r, c | 0 <= r < b.h && 0 <= c < b.w ensures local[r][c] == global[r][c] {
      assert local[r][c] == t.pixels[b.y + r][b.x + c];
    }
    GridExt(local, global, b.h, b.w);
  }

  /** The job only changes pixels that some detector flagged: a pixel outside
      the clamped region of every detection keeps its value. */
  lemma UnflaggedPixelKept(g: Grid, width: nat, faces: Detector, plates: Detector,
                           blur: (Grid, int, int) -> Grid, r: nat, c: nat)
    requires IsRect(g, |g|, width) && PrivacyBlurrer.PreservesShape(blur)
    requires r < |g| && c < width
    requires !PrivacyBlurrer.InSomeRegion(Detections(g, width, faces, plates), |g|, width, r, c)
    ensures PrivacyBlurrer.Redact(g, FinalBoxes(g, width, faces, plates), blur)[r][c] == g[r][c]
  {
    var ds, fs := Detections(g, width, faces, plates), FinalBoxes(g, width, faces, plates);
    assert Width(g) == width;
    assert !PrivacyBlurrer.InSomeRegion(fs, |g|, width, r, c) by {
      forall a | 0 <= a < |fs|
        ensures !(PrivacyBlurrer.Clamp(fs[a], |g|, width).Region?
                  && InBox(PrivacyBlurrer.Clamp(fs[a], |g|, width).box, r, c))
      {
        var i :| 0 <= i < |ds| && ds[i] == fs[a];
      }
    }
    PrivacyBlurrer.RedactOutside(g, fs, blur, r, c);
  }

  // ---------------------------------------------------------------------------
  // process_image_data
  // ---------------------------------------------------------------------------

  /** One more box shifted. */
  lemma ShiftAllStep(bs: seq<Box>, j: nat, xOff: int, yOff: int)
    requires j < |bs|
    ensures ShiftAll(bs[..j + 1], xOff, yOff) == ShiftAll(bs[..j], xOff, yOff) + [Shift(bs[j], xOff, yOff)]
  {
    assert bs[..j + 1][..j] == bs[..j];
  }

  /** One more tile's detections. */
  lemma TiledDetectionsStep(ts: seq<Slicing.Tile>, i: nat, faces: Detector, plates: Detector)
    requires i < |ts|
    ensures TiledDetections(ts[..i + 1], faces, plates)
         == TiledDetections(ts[..i], faces, plates) + TileDetections(ts[i], faces, plates)
  {
    assert ts[..i + 1][..i] == ts[..i];
  }

  /** `all_boxes.append(...)` for every box of a detector's result, shifted by
      the tile's offset. */
  method AppendShifted(all: seq<Box>, bs: seq<Box>, xOff: int, yOff: int) returns (res: seq<Box>)
    ensures res == all + ShiftAll(bs, xOff, yOff)
  {
    res := all;
    for j := 0 to |bs|
      invariant res == all + ShiftAll(bs[..j], xOff, yOff)
    {
      ShiftAllStep(bs, j, xOff, yOff);
      res := res + [Shift(bs[j], xOff, yOff)];
    }
    assert bs[..|bs|] == bs;
  }

  /** The body of the loop over the tiles: the tile's faces, then its plates,
      shifted by the tile's offset, appended to `all`. */
  method AppendTile(all: seq<Box>, t: Slicing.Tile, faces: Detector, plates: Detector) returns (res: seq<Box>)
    ensures res == all + TileDetections(t, faces, plates)
  {
    var faceBoxes := faces(t.pixels);
    res := AppendShifted(all, faceBoxes, t.xOff, t.yOff);
    var plateBoxes := plates(t.pixels);
    res := AppendShifted(res, plateBoxes, t.xOff, t.yOff);
  }

  /** The loop over the tiles, in slicing order. */
  method CollectTiled(tiles: seq<Slicing.Tile>, faces: Detector, plates: Detector) returns (all: seq<Box>)
    ensures all == TiledDetections(tiles, faces, plates)
  {
    all := [];
    for i := 0 to |tiles|
      invariant all == TiledDetections(tiles[..i], faces, plates)
    {
      all := AppendTile(all, tiles[i], faces, plates);
      TiledDetectionsStep(tiles, i, faces, plates);
    }
    assert tiles[..|tiles|] == tiles;
  }

  /** Step 3 of `process_image_data`: the detections of the whole image, or
      of every tile of the default slicing, in image coordinates. */
  method CollectBoxes(image: array2<Pixel>, faces: Detector, plates: Detector) returns (all: seq<Box>)
    ensures all == Detections(ToGrid(image), image.Length1, faces, plates)
  {
    if image.Length1 > 2000 || image.Length0 > 2000 {
      var sliced := Slicing.SliceImage(image, TileSize, TileOverlap);
      Slicing.DefaultStep();
      all := CollectTiled(sliced.value, faces, plates);
    } else {
      all := faces(ToGrid(image)) + plates(ToGrid(image));
    }
  }

  /** `process_image_data`: a fresh image in which the merged detections are
      blurred, and the number of merged detections. */
  method ProcessImageData(image: array2<Pixel>, faces: Detector, plates: Detector,
                          blur: (Grid, int, int) -> Grid)
    returns (processed: array2<Pixel>, count: nat)
    requires PrivacyBlurrer.PreservesShape(blur)
    ensures fresh(processed) && processed.Length0 == image.Length0 && processed.Length1 == image.Length1
    ensures ToGrid(processed)
         == PrivacyBlurrer.Redact(ToGrid(image), FinalBoxes(ToGrid(image), image.Length1, faces, plates), blur)
    ensures count == |FinalBoxes(ToGrid(image), image.Length1, faces, plates)|
  {
    var all := CollectBoxes(image, faces, plates);
    var merged := Merging.MergeBoxes(all, IouThreshold);
    processed := PrivacyBlurrer.ApplyBlur(image, merged, blur);
    count := |merged|;
  }

  // ---------------------------------------------------------------------------
  // process_job: decoding failure and the output key.
  // ---------------------------------------------------------------------------

  /** The last '/'-separated segment of a key: `key.split('/')[-1]`. */
  function LastSegment(key: string): (s: string)
    ensures |s| <= |key| && key[|key| - |s|..] == s
    ensures '/' !in s
    ensures |s| < |key| ==> key[|key| - |s| - 1] == '/'
  {
    if key == [] || key[|key| - 1] == '/' then []
    else LastSegment(key[..|key| - 1]) + [key[|key| - 1]]
  }

  /** `pat` occurs in `s` starting at index i. */
  predicate OccursAt(s: string, pat: string, i: int) {
    0 <= i && i + |pat| <= |s| && s[i..i + |pat|] == pat
  }

  /** `pat` occurs somewhere in `s`. */
  predicate Occurs(s: string, pat: string) {
    exists i :: 0 <= i <= |s| && OccursAt(s, pat, i)
  }

  /** `str.replace(pat, rep)`: every occurrence of `pat`, scanning from the
      left and not overlapping, replaced by `rep`. */
  function ReplaceAll(s: string, pat: string, rep: string): (r: string)
    requires |pat| > 0
    decreases |s|
  {
    if |s| < |pat| then s
    else if s[..|pat|] == pat then rep + ReplaceAll(s[|pat|..], pat, rep)
    else [s[0]] + ReplaceAll(s[1..], pat, rep)
  }

  /** An occurrence in s[1..] is an occurrence in s. */
  lemma OccursInTail(s: string, pat: string)
    requires |s| > 0 && Occurs(s[1..], pat)
    ensures Occurs(s, pat)
  {
    var i :| 0 <= i <= |s[1..]| && OccursAt(s[1..], pat, i);
    assert i + |pat| <= |s| - 1;
    assert s[i + 1..i + 1 + |pat|] == s[1..][i..i + |pat|];
    assert OccursAt(s, pat, i + 1);
  }

  /** Without an occurrence, nothing is replaced. */
  lemma {:induction false} ReplaceAbsent(s: string, pat: string, rep: string)
    requires |pat| > 0 && !Occurs(s, pat)
    ensures ReplaceAll(s, pat, rep) == s
    decreases |s|
  {
    if |s| >= |pat| {
      assert !OccursAt(s, pat, 0);
      if Occurs(s[1..], pat) {
        OccursInTail(s, pat);
      }
      ReplaceAbsent(s[1..], pat, rep);
      assert [s[0]] + s[1..] == s;
    }
  }

  /** A longer replacement never shortens the string, and lengthens it when
      there is something to replace. */
  lemma {:induction false} ReplaceLonger(s: string, pat: string, rep: string)
    requires 0 < |pat| < |rep|
    ensures |ReplaceAll(s, pat, rep)| >= |s|
    ensures Occurs(s, pat) ==> |ReplaceAll(s, pat, rep)| > |s|
    decreases |s|
  {
    if |s| >= |pat| {
      if s[..|pat|] == pat {
        ReplaceLonger(s[|pat|..], pat, rep);
      } else {
        ReplaceLonger(s[1..], pat, rep);
        if Occurs(s, pat) {
          var i :| 0 <= i <= |s| && OccursAt(s, pat, i);
          assert i != 0 && i + |pat| <= |s|;
          assert s[1..][i - 1..i - 1 + |pat|] == s[i..i + |pat|];
          assert OccursAt(s[1..], pat, i - 1);
        }
      }
    } else {
      assert !Occurs(s, pat) by {
        forall i | 0 <= i <= |s| ensures !OccursAt(s, pat, i) {
        }
      }
    }
  }

  /** With a longer replacement, `str.replace` leaves the string as it was
      exactly when the pattern does not occur. */
  lemma ReplaceIdentity(s: string, pat: string, rep: string)
    requires 0 < |pat| < |rep|
    ensures ReplaceAll(s, pat, rep) == s <==> !Occurs(s, pat)
  {
    ReplaceLonger(s, pat, rep);
    if !Occurs(s, pat) {
      ReplaceAbsent(s, pat, rep);
    }
  }

  /** A character in neither the string nor the replacement is not in the result. */
  lemma {:induction false} ReplaceAvoids(s: string, pat: string, rep: string, ch: char)
    requires |pat| > 0 && ch !in s && ch !in rep
    ensures ch !in ReplaceAll(s, pat, rep)
    decreases |s|
  {
    if |s| >= |pat| {
      if s[..|pat|] == pat {
        ReplaceAvoids(s[|pat|..], pat, rep, ch);
      } else {
        ReplaceAvoids(s[1..], pat, rep, ch);
      }
    }
  }

  const Jpg: string := ".jpg"
  const AnonymizedJpg: string := "_anonymized.jpg"

  /** `filename.replace('.jpg', '_anonymized.jpg')`: a name without '/' stays
      without '/'. */
  function AnonymizedName(name: string): (n: string)
    requires '/' !in name
    ensures '/' !in n
  {
    ReplaceAvoids(name, Jpg, AnonymizedJpg, '/');
    ReplaceAll(name, Jpg, AnonymizedJpg)
  }

  /** The key the processed image is stored under: the input key when
      overwriting, else the prefix followed by the key's last segment with
      every ".jpg" turned into "_anonymized.jpg". */
  function OutputKey(key: string, overwrite: bool, prefix: string): (k: string)
    ensures overwrite ==> k == key
    ensures !overwrite ==> |prefix| <= |k| && k[..|prefix|] == prefix && '/' !in k[|prefix|..]
  {
    if overwrite then key
    else
      var name := AnonymizedName(LastSegment(key));
      assert (prefix + name)[|prefix|..] == name;
      prefix + name
  }

  /** A file name without ".jpg" is stored under the prefix unchanged. */
  lemma OutputKeyNoJpg(key: string, prefix: string)
    requires !Occurs(LastSegment(key), Jpg)
    ensures OutputKey(key, false, prefix) == prefix + LastSegment(key)
  {
    ReplaceAbsent(LastSegment(key), Jpg, AnonymizedJpg);
  }

  /** A file name with ".jpg" gets a longer key than the plain prefix + name. */
  lemma OutputKeyRenamed(key: string, prefix: string)
    requires Occurs(LastSegment(key), Jpg)
    ensures |OutputKey(key, false, prefix)| > |prefix| + |LastSegment(key)|
  {
    ReplaceLonger(LastSegment(key), Jpg, AnonymizedJpg);
  }

  /** The last segment is what follows the last '/'. */
  lemma LastSegmentOf(dir: string, name: string)
    requires '/' !in name
    ensures LastSegment(dir + "/" + name) == name
  {
    var key := dir + "/" + name;
    assert key[|key| - |name|..] == name;
    assert key[|key| - |name| - 1] == '/';
  }

  /** A key "dir/name" is stored as the prefix followed by the renamed name. */
  lemma OutputKeyOf(dir: string, name: string, prefix: string)
    requires '/' !in name
    ensures OutputKey(dir + "/" + name, false, prefix) == prefix + AnonymizedName(name)
  {
    LastSegmentOf(dir, name);
  }

  /** "b.jpg" is renamed "b_anonymized.jpg". */
  lemma RenameExample()
    ensures AnonymizedName("b.jpg") == "b_anonymized.jpg"
  {
    assert ReplaceAll(".jpg", Jpg, AnonymizedJpg) == AnonymizedJpg + ReplaceAll("", Jpg, AnonymizedJpg);
    assert ReplaceAll("b.jpg", Jpg, AnonymizedJpg) == "b" + ReplaceAll(".jpg", Jpg, AnonymizedJpg);
  }

  /** Every occurrence is replaced, not only a final extension. */
  lemma RenameEveryOccurrence()
    ensures ReplaceAll(".jpg.jpg", Jpg, AnonymizedJpg) == "_anonymized.jpg_anonymized.jpg"
  {
    assert ReplaceAll(".jpg", Jpg, AnonymizedJpg) == AnonymizedJpg + ReplaceAll("", Jpg, AnonymizedJpg);
    assert ".jpg.jpg"[4..] == ".jpg";
    assert ReplaceAll(".jpg.jpg", Jpg, AnonymizedJpg) == AnonymizedJpg + ReplaceAll(".jpg", Jpg, AnonymizedJpg);
  }

  /** The result of a job: its status, the key written, and the number of
      objects blurred. */
  datatype JobReport = JobReport(status: string, outputKey: string, objects: nat)

  /** `process_job` after the download: a failed decode is an error; otherwise
      the image is processed and the report names the output key and the
      number of merged detections. */
  method ProcessJob(key: string, overwrite: bool, prefix: string, decoded: Option<array2<Pixel>>,
                    faces: Detector, plates: Detector, blur: (Grid, int, int) -> Grid)
    returns (r: Result<JobReport>)
    requires PrivacyBlurrer.PreservesShape(blur)
    ensures decoded.None? <==> r == Err(DecodeFailed)
    ensures decoded.Some? ==>
      r == Ok(JobReport("success", OutputKey(key, overwrite, prefix),
                        |FinalBoxes(ToGrid(decoded.value), decoded.value.Length1, faces, plates)|))
  {
    if decoded.None? {
      return Err(DecodeFailed);
    }
    var processed, count := ProcessImageData(decoded.value, faces, plates, blur);
    var outputKey := OutputKey(key, overwrite, prefix);
    r := Ok(JobReport("success", outputKey, count));
  }
}
