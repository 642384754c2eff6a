/** Merging of overlapping detections (`ImageUtils.merge_boxes`): a greedy
    non-maximum suppression over boxes in corner form, visiting the boxes by
    their bottom edge y2 from the largest down. */
module Merging {
  import opened Common

  /** A box as its corners [x1, y1, x2, y2]. */
  datatype Corners = Corners(x1: int, y1: int, x2: int, y2: int)

  /** [x, y, w, h] to [x, y, x + w, y + h]. */
  function ToCorners(b: Box): (c: Corners)
    ensures c.x2 - c.x1 == b.w && c.y2 - c.y1 == b.h
    ensures FromCorners(c) == b
  {
    Corners(b.x, b.y, b.x + b.w, b.y + b.h)
  }

  /** [x1, y1, x2, y2] back to [x1, y1, x2 - x1, y2 - y1]. */
  function FromCorners(c: Corners): (b: Box)
    ensures b.x + b.w == c.x2 && b.y + b.h == c.y2
  {
    Box(c.x1, c.y1, c.x2 - c.x1, c.y2 - c.y1)
  }

  lemma CornersRoundTrip(c: Corners)
    ensures ToCorners(FromCorners(c)) == c
  {
  }

  /** The area in the inclusive-pixel convention: (x2 - x1 + 1) * (y2 - y1 + 1). */
  function Area(c: Corners): (a: int)
    ensures c.x1 <= c.x2 && c.y1 <= c.y2 ==> a > 0
  {
    (c.x2 - c.x1 + 1) * (c.y2 - c.y1 + 1)
  }

  /** The area of the intersection, each side clamped at zero. */
  function Inter(a: Corners, b: Corners): (n: int)
    ensures n >= 0
  {
    var w := Max(0, Min(a.x2, b.x2) - Max(a.x1, b.x1) + 1);
    var h := Max(0, Min(a.y2, b.y2) - Max(a.y1, b.y1) + 1);
    w * h
  }

  /** `inter / area > thr` in numpy's arithmetic, with exact numbers: a zero
      area makes the quotient +inf when inter > 0 (above every threshold) and
      nan when inter == 0 (above none); a negative area flips the comparison. */
  predicate Exceeds(inter: nat, area: int, thr: Ratio) {
    if area > 0 then inter * thr.den > thr.num * area
    else if area < 0 then inter * thr.den < thr.num * area
    else inter > 0
  }

  /** For a non-zero area, `Exceeds` is the comparison of the exact quotients
      inter / area > num / den. */
  lemma ExceedsQuotient(inter: nat, area: int, thr: Ratio)
    requires area != 0
    ensures Exceeds(inter, area, thr) <==>
      (inter as real) / (area as real) > (thr.num as real) / (thr.den as real)
  {
    var q, t := (inter as real) / (area as real), (thr.num as real) / (thr.den as real);
    assert q * (area as real) == inter as real;
    assert t * (thr.den as real) == thr.num as real;
    if area > 0 {
      assert q > t <==> q * (area as real) * (thr.den as real) > t * (thr.den as real) * (area as real);
    } else {
      assert q > t <==> q * (area as real) * (thr.den as real) < t * (thr.den as real) * (area as real);
    }
  }

  /** The kept box `cs[i]` suppresses the candidate `cs[j]`: their overlap,
      taken over the candidate's area, is above the threshold. */
  predicate Suppresses(cs: seq<Corners>, i: nat, j: nat, thr: Ratio)
    requires i < |cs| && j < |cs|
  {
    Exceeds(Inter(cs[i], cs[j]), Area(cs[j]), thr)
  }

  /** Every index in `s` names one of the boxes. */
  ghost predicate InRange(cs: seq<Corners>, s: seq<nat>) {
    forall a :: 0 <= a < |s| ==> s[a] < |cs|
  }

  ghost predicate Distinct(s: seq<nat>) {
    forall a, b :: 0 <= a < b < |s| ==> s[a] != s[b]
  }

  /** The indices in `s` name boxes of non-decreasing y2. */
  ghost predicate AscendingY2(cs: seq<Corners>, s: seq<nat>)
    requires InRange(cs, s)
  {
    forall a, b :: 0 <= a < b < |s| ==> cs[s[a]].y2 <= cs[s[b]].y2
  }

  /** `order` lists every box exactly once, by non-decreasing y2: what
      `np.argsort(y2)` returns, whichever order it gives equal keys. */
  ghost predicate IsArgsort(cs: seq<Corners>, order: seq<nat>) {
    && |order| == |cs|
    && InRange(cs, order)
    && Distinct(order)
    && AscendingY2(cs, order)
    && forall k :: 0 <= k < |cs| ==> k in order
  }

  // ---------------------------------------------------------------------------
  // A stable argsort: ties in y2 keep their input order.
  // ---------------------------------------------------------------------------

  /** Sorted by y2, ties by index: a total order on the indices. */
  ghost predicate LexSorted(cs: seq<Corners>, s: seq<nat>)
    requires InRange(cs, s)
  {
    forall a, b :: 0 <= a < b < |s| ==>
      cs[s[a]].y2 < cs[s[b]].y2 || (cs[s[a]].y2 == cs[s[b]].y2 && s[a] < s[b])
  }

  /** `s` with `i` inserted after every index whose y2 is at most that of `i`. */
  function InsertByY2(cs: seq<Corners>, s: seq<nat>, i: nat): (r: seq<nat>)
    requires i < |cs| && InRange(cs, s)
    ensures |r| == |s| + 1 && InRange(cs, r)
    ensures forall k :: k in r <==> k in s || k == i
    decreases |s|
  {
    if s == [] || cs[s[|s| - 1]].y2 <= cs[i].y2 then s + [i]
    else InsertByY2(cs, s[..|s| - 1], i) + [s[|s| - 1]]
  }

  lemma {:induction false} InsertByY2Sorted(cs: seq<Corners>, s: seq<nat>, i: nat)
    requires i < |cs| && InRange(cs, s) && LexSorted(cs, s)
    requires forall a :: 0 <= a < |s| ==> s[a] < i
    ensures LexSorted(cs, InsertByY2(cs, s, i))
    decreases |s|
  {
    if s == [] || cs[s[|s| - 1]].y2 <= cs[i].y2 {
    } else {
      var init, last := s[..|s| - 1], s[|s| - 1];
      InsertByY2Sorted(cs, init, i);
      var r0 := InsertByY2(cs, init, i);
      forall a | 0 <= a < |r0|
        ensures cs[r0[a]].y2 < cs[last].y2 || (cs[r0[a]].y2 == cs[last].y2 && r0[a] < last)
      {
        assert r0[a] in init || r0[a] == i;
      }
    }
  }

  /** The stable argsort of the first `n` boxes. */
  function ArgsortPrefix(cs: seq<Corners>, n: nat): (r: seq<nat>)
    requires n <= |cs|
    ensures |r| == n && InRange(cs, r) && LexSorted(cs, r)
    ensures forall k: nat :: k in r <==> k < n
  {
    if n == 0 then []
    else
      var s := ArgsortPrefix(cs, n - 1);
      assert forall a :: 0 <= a < |s| ==> s[a] < n - 1 by {
        forall a | 0 <= a < |s| ensures s[a] < n - 1 {
          assert s[a] in s;
        }
      }
      InsertByY2Sorted(cs, s, n - 1);
      InsertByY2(cs, s, n - 1)
  }

  /** The indices of the boxes by ascending y2, ties by input position. */
  function Argsort(cs: seq<Corners>): (order: seq<nat>)
    ensures IsArgsort(cs, order) && LexSorted(cs, order)
  {
    ArgsortPrefix(cs, |cs|)
  }

  // ---------------------------------------------------------------------------
  // Suppression.
  // ---------------------------------------------------------------------------

  /** The candidates of `rest` that the kept box `cs[i]` does not suppress, in
      their order: the `np.delete` of the overlap positions. */
  function Survivors(cs: seq<Corners>, i: nat, rest: seq<nat>, thr: Ratio): (r: seq<nat>)
    requires i < |cs| && InRange(cs, rest)
    ensures |r| <= |rest| && InRange(cs, r)
    ensures forall k :: k in r <==> k in rest && !Suppresses(cs, i, k, thr)
  {
    if rest == [] then []
    else (if Suppresses(cs, i, rest[0], thr) then [] else [rest[0]]) + Survivors(cs, i, rest[1..], thr)
  }

  /** Deletion keeps the candidates' relative order: the survivors of two runs
      of candidates are the survivors of the first run, then those of the second. */
  lemma {:induction false} SurvivorsAppend(cs: seq<Corners>, i: nat, a: seq<nat>, b: seq<nat>, thr: Ratio)
    requires i < |cs| && InRange(cs, a) && InRange(cs, b)
    ensures InRange(cs, a + b)
    ensures Survivors(cs, i, a + b, thr) == Survivors(cs, i, a, thr) + Survivors(cs, i, b, thr)
    decreases |a|
  {
    if a == [] {
      assert a + b == b;
    } else {
      var head := if Suppresses(cs, i, a[0], thr) then [] else [a[0]];
      assert Survivors(cs, i, a + b, thr) == head + Survivors(cs, i, a[1..] + b, thr) by {
        assert (a + b)[0] == a[0] && (a + b)[1..] == a[1..] + b;
      }
      SurvivorsAppend(cs, i, a[1..], b, thr);
      assert Survivors(cs, i, a, thr) == head + Survivors(cs, i, a[1..], thr);
      AppendAssoc(head, Survivors(cs, i, a[1..], thr), Survivors(cs, i, b, thr));
    }
  }

  lemma AppendAssoc(x: seq<nat>, y: seq<nat>, z: seq<nat>)
    ensures x + (y + z) == (x + y) + z
  {
  }

  /** One more candidate at the end survives at the end, or not at all. */
  lemma SurvivorsSnoc(cs: seq<Corners>, i: nat, rest: seq<nat>, k: nat, thr: Ratio)
    requires i < |cs| && InRange(cs, rest) && k < |cs|
    ensures InRange(cs, rest + [k])
    ensures Survivors(cs, i, rest + [k], thr)
         == Survivors(cs, i, rest, thr) + (if Suppresses(cs, i, k, thr) then [] else [k])
  {
    SurvivorsAppend(cs, i, rest, [k], thr);
    assert [k][1..] == [];
  }

  /** Survivors keep the y2 order of the candidates. */
  lemma {:induction false} SurvivorsAscending(cs: seq<Corners>, i: nat, rest: seq<nat>, thr: Ratio)
    requires i < |cs| && InRange(cs, rest) && AscendingY2(cs, rest)
    ensures AscendingY2(cs, Survivors(cs, i, rest, thr))
  {
    if rest != [] {
      var head, tail := rest[0], rest[1..];
      SurvivorsAscending(cs, i, tail, thr);
      var st := Survivors(cs, i, tail, thr);
      forall b | 0 <= b < |st| ensures cs[head].y2 <= cs[st[b]].y2 {
        assert st[b] in st;
        var c :| 0 <= c < |tail| && tail[c] == st[b];
        assert rest[c + 1] == st[b];
      }
    }
  }

  /** Survivors keep the distinctness of the candidates. */
  lemma {:induction false} SurvivorsDistinct(cs: seq<Corners>, i: nat, rest: seq<nat>, thr: Ratio)
    requires i < |cs| && InRange(cs, rest) && Distinct(rest)
    ensures Distinct(Survivors(cs, i, rest, thr))
  {
    if rest != [] {
      var head, tail := rest[0], rest[1..];
      SurvivorsDistinct(cs, i, tail, thr);
      var st := Survivors(cs, i, tail, thr);
      forall b | 0 <= b < |st| ensures head != st[b] {
        assert st[b] in st;
        assert head !in tail;
      }
    }
  }

  /** No candidate is suppressed: every one survives. */
  lemma {:induction false} SurvivorsAll(cs: seq<Corners>, i: nat, rest: seq<nat>, thr: Ratio)
    requires i < |cs| && InRange(cs, rest)
    requires forall a :: 0 <= a < |rest| ==> !Suppresses(cs, i, rest[a], thr)
    ensures Survivors(cs, i, rest, thr) == rest
  {
    if rest != [] {
      SurvivorsAll(cs, i, rest[1..], thr);
      assert !Suppresses(cs, i, rest[0], thr);
      assert [rest[0]] + rest[1..] == rest;
    }
  }

  /** The picks of the suppression loop started on `idxs`: keep the last
      index, drop the last and every earlier one it suppresses, repeat. */
  function Nms(cs: seq<Corners>, idxs: seq<nat>, thr: Ratio): (picks: seq<nat>)
    requires InRange(cs, idxs)
    ensures |picks| <= |idxs| && InRange(cs, picks)
    ensures (picks == []) == (idxs == [])
    ensures forall k :: k in picks ==> k in idxs
    decreases |idxs|
  {
    if idxs == [] then []
    else
      var last := |idxs| - 1;
      [idxs[last]] + Nms(cs, Survivors(cs, idxs[last], idxs[..last], thr), thr)
  }

  /** The suppression loop of `merge_boxes` over the argsorted indices. */
  method Suppress(cs: seq<Corners>, order: seq<nat>, thr: Ratio) returns (pick: seq<nat>)
    requires InRange(cs, order)
    ensures pick == Nms(cs, order, thr)
  {
    pick := [];
    var idxs := order;
    while |idxs| > 0
      invariant InRange(cs, idxs)
      invariant pick + Nms(cs, idxs, thr) == Nms(cs, order, thr)
      decreases |idxs|
    {
      var last := |idxs| - 1;
      var i := idxs[last];
      var rest := Survivors(cs, i, idxs[..last], thr);
      assert Nms(cs, idxs, thr) == [i] + Nms(cs, rest, thr);
      pick := pick + [i];
      idxs := rest;
    }
  }

  // ---------------------------------------------------------------------------
  // What the picks are.
  // ---------------------------------------------------------------------------

  /** The first pick is the last index: in y2 order, the box of largest y2. */
  lemma NmsFirst(cs: seq<Corners>, idxs: seq<nat>, thr: Ratio)
    requires InRange(cs, idxs) && idxs != []
    ensures Nms(cs, idxs, thr)[0] == idxs[|idxs| - 1]
    ensures AscendingY2(cs, idxs) ==>
      forall c :: 0 <= c < |idxs| ==> cs[idxs[c]].y2 <= cs[Nms(cs, idxs, thr)[0]].y2
  {
  }

  /** No box is picked twice. */
  lemma {:induction false} NmsDistinct(cs: seq<Corners>, idxs: seq<nat>, thr: Ratio)
    requires InRange(cs, idxs) && Distinct(idxs)
    ensures Distinct(Nms(cs, idxs, thr))
    decreases |idxs|
  {
    if idxs != [] {
      var last := |idxs| - 1;
      var i, prefix := idxs[last], idxs[..last];
      var sv := Survivors(cs, i, prefix, thr);
      SurvivorsDistinct(cs, i, prefix, thr);
      NmsDistinct(cs, sv, thr);
      assert i !in prefix;
    }
  }

  /** Picks come by non-increasing y2. */
  lemma {:induction false} NmsDescendingAt(cs: seq<Corners>, idxs: seq<nat>, thr: Ratio, a: nat, b: nat)
    requires InRange(cs, idxs) && AscendingY2(cs, idxs) && a < b < |Nms(cs, idxs, thr)|
    ensures cs[Nms(cs, idxs, thr)[a]].y2 >= cs[Nms(cs, idxs, thr)[b]].y2
    decreases |idxs|
  {
    var last := |idxs| - 1;
    var i, prefix := idxs[last], idxs[..last];
    var sv := Survivors(cs, i, prefix, thr);
    var p, q := Nms(cs, idxs, thr), Nms(cs, sv, thr);
    assert p == [i] + q;
    assert p[b] == q[b - 1];
    if a == 0 {
      assert forall c :: 0 <= c < |prefix| ==> cs[prefix[c]].y2 <= cs[i].y2 by {
        forall c | 0 <= c < |prefix| ensures cs[prefix[c]].y2 <= cs[i].y2 {
          assert prefix[c] == idxs[c];
        }
      }
      assert q[b - 1] in q;
      assert q[b - 1] in prefix;
    } else {
      SurvivorsAscending(cs, i, prefix, thr);
      NmsDescendingAt(cs, sv, thr, a - 1, b - 1);
      assert p[a] == q[a - 1];
    }
  }

  lemma NmsDescending(cs: seq<Corners>, idxs: seq<nat>, thr: Ratio)
    requires InRange(cs, idxs) && AscendingY2(cs, idxs)
    ensures var p := Nms(cs, idxs, thr);
      forall a, b :: 0 <= a < b < |p| ==> cs[p[a]].y2 >= cs[p[b]].y2
  {
    var p := Nms(cs, idxs, thr);
    forall a, b | 0 <= a < b < |p| ensures cs[p[a]].y2 >= cs[p[b]].y2 {
      NmsDescendingAt(cs, idxs, thr, a, b);
    }
  }

  /** No pick is suppressed by an earlier pick. */
  lemma {:induction false} NmsSeparatedAt(cs: seq<Corners>, idxs: seq<nat>, thr: Ratio, a: nat, b: nat)
    requires InRange(cs, idxs) && a < b < |Nms(cs, idxs, thr)|
    ensures !Suppresses(cs, Nms(cs, idxs, thr)[a], Nms(cs, idxs, thr)[b], thr)
    decreases |idxs|
  {
    var last := |idxs| - 1;
    var i, prefix := idxs[last], idxs[..last];
    var sv := Survivors(cs, i, prefix, thr);
    var p, q := Nms(cs, idxs, thr), Nms(cs, sv, thr);
    assert p == [i] + q;
    assert p[b] == q[b - 1];
    if a == 0 {
      assert q[b - 1] in q;
      assert q[b - 1] in sv;
    } else {
      NmsSeparatedAt(cs, sv, thr, a - 1, b - 1);
      assert p[a] == q[a - 1];
    }
  }

  lemma NmsSeparated(cs: seq<Corners>, idxs: seq<nat>, thr: Ratio)
    requires InRange(cs, idxs)
    ensures var p := Nms(cs, idxs, thr);
      forall a, b :: 0 <= a < b < |p| ==> !Suppresses(cs, p[a], p[b], thr)
  {
    var p := Nms(cs, idxs, thr);
    forall a, b | 0 <= a < b < |p| ensures !Suppresses(cs, p[a], p[b], thr) {
      NmsSeparatedAt(cs, idxs, thr, a, b);
    }
  }

  /** Every index is picked or suppressed by a pick. */
  lemma {:induction false} NmsCovers(cs: seq<Corners>, idxs: seq<nat>, thr: Ratio, k: nat)
    requires InRange(cs, idxs) && k in idxs
    ensures k < |cs|
    ensures k in Nms(cs, idxs, thr)
         || exists p :: p in Nms(cs, idxs, thr) && p < |cs| && Suppresses(cs, p, k, thr)
    decreases |idxs|
  {
    var last := |idxs| - 1;
    var i, prefix := idxs[last], idxs[..last];
    var sv := Survivors(cs, i, prefix, thr);
    var p := Nms(cs, idxs, thr);
    assert p[0] == i && p[1..] == Nms(cs, sv, thr);
    if k != i {
      assert k in prefix;
      if !Suppresses(cs, i, k, thr) {
        NmsCovers(cs, sv, thr, k);
        var q :| q in Nms(cs, sv, thr) && (q == k || (q < |cs| && Suppresses(cs, q, k, thr)));
        assert q in p;
      }
    }
  }

  /** No index of `s` suppresses another. */
  ghost predicate NoneSuppressed(cs: seq<Corners>, s: seq<nat>, thr: Ratio)
    requires InRange(cs, s)
  {
    forall a, b :: 0 <= a < |s| && 0 <= b < |s| && a != b ==> !Suppresses(cs, s[a], s[b], thr)
  }

  lemma NoneSuppressedPrefix(cs: seq<Corners>, s: seq<nat>, thr: Ratio)
    requires InRange(cs, s) && s != [] && NoneSuppressed(cs, s, thr)
    ensures var last := |s| - 1;
      && (forall a :: 0 <= a < last ==> !Suppresses(cs, s[last], s[..last][a], thr))
      && NoneSuppressed(cs, s[..|s| - 1], thr)
  {
    var prefix := s[..|s| - 1];
    assert forall a :: 0 <= a < |prefix| ==> prefix[a] == s[a];
  }

  /** `s` back to front. */
  function Reverse(s: seq<nat>): (r: seq<nat>)
    ensures |r| == |s| && forall a :: 0 <= a < |s| ==> r[a] == s[|s| - 1 - a]
  {
    if s == [] then [] else [s[|s| - 1]] + Reverse(s[..|s| - 1])
  }

  /** When no index suppresses another, every box is picked, from the last back. */
  lemma {:induction false} NmsKeepsAll(cs: seq<Corners>, idxs: seq<nat>, thr: Ratio)
    requires InRange(cs, idxs) && NoneSuppressed(cs, idxs, thr)
    ensures Nms(cs, idxs, thr) == Reverse(idxs)
    decreases |idxs|
  {
    if idxs != [] {
      var last := |idxs| - 1;
      var i, prefix := idxs[last], idxs[..last];
      NoneSuppressedPrefix(cs, idxs, thr);
      SurvivorsAll(cs, i, prefix, thr);
      NmsKeepsAll(cs, prefix, thr);
    }
  }

  /** A box suppresses its own duplicate when its sides are non-negative and
      the threshold is below 1. */
  lemma DuplicateSuppressed(c: Corners, thr: Ratio)
    requires c.x1 <= c.x2 && c.y1 <= c.y2 && thr.num < thr.den
    ensures Inter(c, c) == Area(c) > 0
    ensures Exceeds(Inter(c, c), Area(c), thr)
  {
    var area := Area(c);
    assert area > 0 by {
      MulMono(1, c.y2 - c.y1 + 1, c.x2 - c.x1 + 1);
    }
    MulMono(thr.num, thr.den - 1, area);
  }

  // ---------------------------------------------------------------------------
  // merge_boxes.
  // ---------------------------------------------------------------------------

  function CornersOf(boxes: seq<Box>): (cs: seq<Corners>)
    ensures |cs| == |boxes| && forall k :: 0 <= k < |boxes| ==> cs[k] == ToCorners(boxes[k])
  {
    seq(|boxes|, k requires 0 <= k < |boxes| => ToCorners(boxes[k]))
  }

  /** The picks of `merge_boxes`, as indices into `boxes`. */
  function MergePicks(boxes: seq<Box>, thr: Ratio): (p: seq<nat>)
    ensures InRange(CornersOf(boxes), p)
  {
    var cs := CornersOf(boxes);
    Nms(cs, Argsort(cs), thr)
  }

  /** The boxes `merge_boxes` returns, picks first to last. */
  function MergeSpec(boxes: seq<Box>, thr: Ratio): (merged: seq<Box>)
    ensures |merged| == |MergePicks(boxes, thr)|
    ensures forall a :: 0 <= a < |merged| ==> merged[a] == boxes[MergePicks(boxes, thr)[a]]
  {
    var p := MergePicks(boxes, thr);
    seq(|p|, a requires 0 <= a < |p| => boxes[p[a]])
  }

  /** The first loop of `merge_boxes`: every box in corner form. */
  method CornersList(boxes: seq<Box>) returns (cs: seq<Corners>)
    ensures cs == CornersOf(boxes)
  {
    cs := [];
    for k := 0 to |boxes|
      invariant |cs| == k && forall j :: 0 <= j < k ==> cs[j] == ToCorners(boxes[j])
    {
      cs := cs + [ToCorners(boxes[k])];
    }
  }

  /** The last loop of `merge_boxes`: the picked corners back in box form. */
  method BoxesOfPicks(cs: seq<Corners>, pick: seq<nat>) returns (res: seq<Box>)
    requires InRange(cs, pick)
    ensures |res| == |pick| && forall b :: 0 <= b < |pick| ==> res[b] == FromCorners(cs[pick[b]])
  {
    res := [];
    for a := 0 to |pick|
      invariant |res| == a && forall b :: 0 <= b < a ==> res[b] == FromCorners(cs[pick[b]])
    {
      res := res + [FromCorners(cs[pick[a]])];
    }
  }

  /** `ImageUtils.merge_boxes`: no boxes give none; otherwise the boxes
      non-maximum suppression keeps, in the order it picks them. */
  method MergeBoxes(boxes: seq<Box>, thr: Ratio) returns (merged: seq<Box>)
    ensures merged == MergeSpec(boxes, thr)
  {
    if |boxes| == 0 {
      return [];
    }
    var cs := CornersList(boxes);
    var order := Argsort(cs);
    var pick := Suppress(cs, order, thr);
    assert pick == MergePicks(boxes, thr);
    merged := BoxesOfPicks(cs, pick);
    assert forall b :: 0 <= b < |pick| ==> merged[b] == boxes[pick[b]];
  }


  // ---------------------------------------------------------------------------
  // What merge_boxes promises.
  // ---------------------------------------------------------------------------

  /** Nothing comes out only of nothing, and never more boxes than went in. */
  lemma MergeSize(boxes: seq<Box>, thr: Ratio)
    ensures (MergeSpec(boxes, thr) == []) == (boxes == [])
    ensures |MergeSpec(boxes, thr)| <= |boxes|
  {
  }

  /** Every merged box is one of the input boxes, and no input box comes out twice. */
  lemma MergeFromInputs(boxes: seq<Box>, thr: Ratio)
    ensures var p, m := MergePicks(boxes, thr), MergeSpec(boxes, thr);
      && (forall a :: 0 <= a < |m| ==> p[a] < |boxes| && m[a] == boxes[p[a]])
      && (forall a, b :: 0 <= a < b < |p| ==> p[a] != p[b])
  {
    var cs := CornersOf(boxes);
    NmsDistinct(cs, Argsort(cs), thr);
  }

  /** The merged boxes come by non-increasing bottom edge y + h. */
  lemma MergeDescending(boxes: seq<Box>, thr: Ratio)
    ensures var m := MergeSpec(boxes, thr);
      forall a, b :: 0 <= a < b < |m| ==> m[a].y + m[a].h >= m[b].y + m[b].h
  {
    var cs := CornersOf(boxes);
    var p, m := MergePicks(boxes, thr), MergeSpec(boxes, thr);
    NmsDescending(cs, Argsort(cs), thr);
    assert p == Nms(cs, Argsort(cs), thr);
    assert forall a, b :: 0 <= a < b < |p| ==> cs[p[a]].y2 >= cs[p[b]].y2;
    forall a | 0 <= a < |m| ensures m[a].y + m[a].h == cs[p[a]].y2 {
      assert m[a] == boxes[p[a]];
    }
  }

  /** The first merged box has the largest bottom edge y + h of all input boxes. */
  lemma MergeFirstMax(boxes: seq<Box>, thr: Ratio, k: nat)
    requires k < |boxes|
    ensures |MergeSpec(boxes, thr)| > 0
    ensures MergeSpec(boxes, thr)[0].y + MergeSpec(boxes, thr)[0].h >= boxes[k].y + boxes[k].h
  {
    var cs := CornersOf(boxes);
    var order := Argsort(cs);
    var p := MergePicks(boxes, thr);
    assert k in order;
    var c :| 0 <= c < |order| && order[c] == k;
    NmsFirst(cs, order, thr);
    assert cs[order[c]].y2 <= cs[p[0]].y2;
    assert MergeSpec(boxes, thr)[0] == boxes[p[0]];
  }

  /** No merged box overlaps an earlier merged box above the threshold. */
  lemma MergeSeparated(boxes: seq<Box>, thr: Ratio)
    ensures var m := MergeSpec(boxes, thr);
      forall a, b :: 0 <= a < b < |m| ==>
        !Exceeds(Inter(ToCorners(m[a]), ToCorners(m[b])), Area(ToCorners(m[b])), thr)
  {
    var cs := CornersOf(boxes);
    var p, m := MergePicks(boxes, thr), MergeSpec(boxes, thr);
    NmsSeparated(cs, Argsort(cs), thr);
    assert p == Nms(cs, Argsort(cs), thr);
    assert forall a, b :: 0 <= a < b < |p| ==> !Suppresses(cs, p[a], p[b], thr);
    forall a, b | 0 <= a < b < |m|
      ensures !Exceeds(Inter(ToCorners(m[a]), ToCorners(m[b])), Area(ToCorners(m[b])), thr)
    {
      assert ToCorners(m[a]) == cs[p[a]] && ToCorners(m[b]) == cs[p[b]];
      assert !Suppresses(cs, p[a], p[b], thr);
    }
  }

  /** Every input box is merged, or overlaps a merged box above the threshold. */
  lemma MergeCovers(boxes: seq<Box>, thr: Ratio, k: nat)
    requires k < |boxes|
    ensures var m := MergeSpec(boxes, thr);
      boxes[k] in m
      || exists a :: 0 <= a < |m| && Exceeds(Inter(ToCorners(m[a]), ToCorners(boxes[k])), Area(ToCorners(boxes[k])), thr)
  {
    var cs := CornersOf(boxes);
    var order := Argsort(cs);
    var p, m := MergePicks(boxes, thr), MergeSpec(boxes, thr);
    NmsCovers(cs, order, thr, k);
    if k in p {
      var a :| 0 <= a < |p| && p[a] == k;
      assert m[a] == boxes[k];
    } else {
      var q :| q in p && q < |cs| && Suppresses(cs, q, k, thr);
      var a :| 0 <= a < |p| && p[a] == q;
      assert ToCorners(m[a]) == cs[q];
    }
  }

  /** No input box overlaps another above the threshold. */
  ghost predicate BoxesApart(boxes: seq<Box>, thr: Ratio) {
    forall j, k :: 0 <= j < |boxes| && 0 <= k < |boxes| && j != k ==>
      !Exceeds(Inter(ToCorners(boxes[j]), ToCorners(boxes[k])), Area(ToCorners(boxes[k])), thr)
  }

  lemma BoxesApartOrder(boxes: seq<Box>, thr: Ratio)
    requires BoxesApart(boxes, thr)
    ensures NoneSuppressed(CornersOf(boxes), Argsort(CornersOf(boxes)), thr)
  {
    var cs := CornersOf(boxes);
    var order := Argsort(cs);
    forall a, b | 0 <= a < |order| && 0 <= b < |order| && a != b
      ensures !Suppresses(cs, order[a], order[b], thr)
    {
      assert order[a] != order[b];
    }
  }

  /** When no input box overlaps another above the threshold, all are kept. */
  lemma MergeKeepsAll(boxes: seq<Box>, thr: Ratio)
    requires BoxesApart(boxes, thr)
    ensures |MergeSpec(boxes, thr)| == |boxes|
    ensures forall k :: 0 <= k < |boxes| ==> boxes[k] in MergeSpec(boxes, thr)
  {
    var cs := CornersOf(boxes);
    var order := Argsort(cs);
    BoxesApartOrder(boxes, thr);
    NmsKeepsAll(cs, order, thr);
    var p, m := MergePicks(boxes, thr), MergeSpec(boxes, thr);
    assert p == Reverse(order);
    forall k | 0 <= k < |boxes| ensures boxes[k] in m {
      assert k < |cs| && k in order;
      var c :| 0 <= c < |order| && order[c] == k;
      assert p[|order| - 1 - c] == k;
      assert m[|order| - 1 - c] == boxes[k];
    }
  }

  /** The two overlapping boxes of the unit test: the lower one suppresses the other. */
  lemma MergeOverlappingPair()
    ensures MergeSpec([Box(100, 100, 50, 50), Box(105, 105, 45, 45)], Ratio(1, 2)) == [Box(105, 105, 45, 45)]
  {
    var boxes, thr := [Box(100, 100, 50, 50), Box(105, 105, 45, 45)], Ratio(1, 2);
    var cs := CornersOf(boxes);
    assert cs == [Corners(100, 100, 150, 150), Corners(105, 105, 150, 150)];
    assert ArgsortPrefix(cs, 1) == [0];
    assert ArgsortPrefix(cs, 2) == InsertByY2(cs, [0], 1) == [0, 1];
    assert Inter(cs[1], cs[0]) == 46 * 46;
    assert Suppresses(cs, 1, 0, thr);
    assert Survivors(cs, 1, [0], thr) == [];
    assert MergePicks(boxes, thr) == [1];
    var m := MergeSpec(boxes, thr);
    assert |m| == 1 && m[0] == boxes[1];
    assert m == [boxes[1]];
  }

  /** The two separate boxes of the unit test both survive, lower one first. */
  lemma MergeSeparatePair()
    ensures MergeSpec([Box(100, 100, 50, 50), Box(300, 300, 50, 50)], Ratio(1, 2))
         == [Box(300, 300, 50, 50), Box(100, 100, 50, 50)]
  {
    var boxes, thr := [Box(100, 100, 50, 50), Box(300, 300, 50, 50)], Ratio(1, 2);
    var cs := CornersOf(boxes);
    assert cs == [Corners(100, 100, 150, 150), Corners(300, 300, 350, 350)];
    assert ArgsortPrefix(cs, 1) == [0];
    assert ArgsortPrefix(cs, 2) == InsertByY2(cs, [0], 1) == [0, 1];
    assert Inter(cs[1], cs[0]) == 0;
    assert !Suppresses(cs, 1, 0, thr);
    assert Survivors(cs, 1, [0], thr) == [0];
    assert Nms(cs, [0], thr) == [0];
    assert MergePicks(boxes, thr) == [1, 0];
    var m := MergeSpec(boxes, thr);
    assert |m| == 2 && m[0] == boxes[1] && m[1] == boxes[0];
    assert m == [boxes[1], boxes[0]];
  }
}
