/** The centre-form variant of the post-processing (yolo/decode.py): boxes are
    `[label, confidence, x, y, w, h]` exactly as decode_pred emits them. The
    overlap derives the edges itself, with the x edges spread by `h` and the y
    edges by `w`; the suppression ranks by (confidence, y); the rescaling
    multiplies x and h by `img_size[1]/size` and y and w by `img_size[0]/size`. */
module YoloDecode {
  import Geometry
  import Image
  import Suppression
  import Decoding

  type Box = Decoding.Detection

  /** The edges `calc_overlap` derives from a centre-form box: x plus or minus
      half of field 5 (h), y plus or minus half of field 4 (w). */
  function Edges(b: Box): Geometry.Rect
  {
    Geometry.Rect(b.x - b.h / 2.0, b.x + b.h / 2.0, b.y - b.w / 2.0, b.y + b.w / 2.0)
  }

  /** The area calc_overlap gives a box. It is never negative and it is zero
      exactly when one of the extents is not positive. */
  function Area(b: Box): (a: real)
    ensures a >= 0.0
    ensures a == 0.0 <==> b.w <= 0.0 || b.h <= 0.0
  {
    Geometry.Area(Edges(b))
  }

  /** Two boxes have the same derived edges exactly when they have the same
      centre and extents: `Edges` loses nothing but label and confidence. */
  lemma EdgesDetermineGeometry(b1: Box, b2: Box)
    ensures Edges(b1) == Edges(b2) <==> b1.x == b2.x && b1.y == b2.y && b1.w == b2.w && b1.h == b2.h
  {
    if Edges(b1) == Edges(b2) {
      assert (b1.x - b1.h / 2.0) + (b1.x + b1.h / 2.0) == (b2.x - b2.h / 2.0) + (b2.x + b2.h / 2.0);
      assert (b1.y - b1.w / 2.0) + (b1.y + b1.w / 2.0) == (b2.y - b2.w / 2.0) + (b2.y + b2.w / 2.0);
    }
  }

  /** calc_overlap: intersection over union of the two derived rectangles.
      When neither box has area the union is zero and the source divides by
      zero. */
  function Overlap(b1: Box, b2: Box): (v: real)
    requires Geometry.UnionArea(Edges(b1), Edges(b2)) > 0.0
    ensures 0.0 <= v <= 1.0
    ensures v == 0.0 <==> Geometry.Area(Geometry.Intersection(Edges(b1), Edges(b2))) == 0.0
  {
    Geometry.Iou(Edges(b1), Edges(b2))
  }

  /** The union is positive as soon as one of the boxes has area. */
  lemma OverlapDefined(b1: Box, b2: Box)
    requires Area(b1) > 0.0 || Area(b2) > 0.0
    ensures Geometry.UnionArea(Edges(b1), Edges(b2)) > 0.0
  {
    Geometry.UnionAreaBounds(Edges(b1), Edges(b2));
  }

  lemma OverlapSymmetric(b1: Box, b2: Box)
    requires Geometry.UnionArea(Edges(b1), Edges(b2)) > 0.0
    ensures Geometry.UnionArea(Edges(b2), Edges(b1)) > 0.0
    ensures Overlap(b1, b2) == Overlap(b2, b1)
  {
    Geometry.IouSymmetric(Edges(b1), Edges(b2));
  }

  /** Two boxes with positive extents overlap completely exactly when they
      share centre and extents. */
  lemma OverlapOneIffSameGeometry(b1: Box, b2: Box)
    requires b1.w > 0.0 && b1.h > 0.0 && b2.w > 0.0 && b2.h > 0.0
    ensures Geometry.UnionArea(Edges(b1), Edges(b2)) > 0.0
    ensures Overlap(b1, b2) == 1.0 <==> b1.x == b2.x && b1.y == b2.y && b1.w == b2.w && b1.h == b2.h
  {
    Geometry.IouOneIffSame(Edges(b1), Edges(b2));
    EdgesDetermineGeometry(b1, b2);
  }

  /** Boxes whose centres are at least half the summed extents apart along
      one axis do not overlap. */
  lemma OverlapSeparated(b1: Box, b2: Box)
    requires Geometry.UnionArea(Edges(b1), Edges(b2)) > 0.0
    requires b1.x + b1.h / 2.0 <= b2.x - b2.h / 2.0 || b2.x + b2.h / 2.0 <= b1.x - b1.h / 2.0
          || b1.y + b1.w / 2.0 <= b2.y - b2.w / 2.0 || b2.y + b2.w / 2.0 <= b1.y - b1.w / 2.0
    ensures Overlap(b1, b2) == 0.0
  {
    Geometry.IouSeparated(Edges(b1), Edges(b2));
  }

  /** The `overlap > max_overlap` test of the suppression loop. */
  predicate Exceeds(b1: Box, b2: Box, maxOverlap: real)
  {
    Geometry.OverlapExceeds(Edges(b1), Edges(b2), maxOverlap)
  }

  function ExceedsAt(maxOverlap: real): (Box, Box) -> bool
  {
    (b1: Box, b2: Box) => Exceeds(b1, b2, maxOverlap)
  }

  /** The sort key `itemgetter(1, 3)`: confidence, then the y centre. */
  function RankOf(b: Box): Suppression.Rank
  {
    Suppression.Rank(b.confidence, b.y)
  }

  /** `b1` comes no later than `b2` in the descending (confidence, y) order. */
  predicate RanksAtLeast(b1: Box, b2: Box)
  {
    Suppression.AtLeast(RankOf(b1), RankOf(b2))
  }

  /** Default `max_overlap` of non_max_supression. */
  const DefaultMaxOverlap: real := 0.25

  /** non_max_supression: the kept boxes are an ordered selection of the
      stably sorted input, the best-ranked box is kept, no kept box exceeds
      the threshold against a later kept box, and every dropped box is
      exceeded by a kept box ranked at least as high. */
  function NonMaxSuppression(boxes: seq<Box>, maxOverlap: real): (r: seq<Box>)
    ensures |r| <= |boxes|
    ensures boxes == [] <==> r == []
    ensures forall b :: b in r ==> b in boxes
    ensures Suppression.IsSubsequence(r, Suppression.SortByRank(boxes, RankOf))
    ensures forall i, j :: 0 <= i < j < |r| ==> RanksAtLeast(r[i], r[j])
    ensures r != [] ==> forall b :: b in boxes ==> RanksAtLeast(r[0], b)
    ensures forall i, j :: 0 <= i < j < |r| ==> !Exceeds(r[i], r[j], maxOverlap)
    ensures forall b :: b in boxes && b !in r ==>
      exists k :: k in r && Exceeds(k, b, maxOverlap) && RanksAtLeast(k, b)
  {
    Suppression.NonMaxSuppression(boxes, RankOf, ExceedsAt(maxOverlap))
  }

  /** Kept boxes are computed by the greedy scan that keeps a box when no box
      kept before it overlaps it by more than the threshold. */
  lemma NonMaxSuppressionIsGreedy(boxes: seq<Box>, maxOverlap: real)
    ensures NonMaxSuppression(boxes, maxOverlap)
      == Suppression.GreedyScan(Suppression.SortByRank(boxes, RankOf), [], ExceedsAt(maxOverlap))
  {
    Suppression.SuppressIsGreedy(Suppression.SortByRank(boxes, RankOf), ExceedsAt(maxOverlap));
  }

  /** With boxes of positive area the overlap is always defined, so the two
      guarantees of suppression read as plain IoU bounds. */
  lemma NonMaxSuppressionOverlaps(boxes: seq<Box>, maxOverlap: real)
    requires forall b :: b in boxes ==> Area(b) > 0.0
    ensures var r := NonMaxSuppression(boxes, maxOverlap);
      forall i, j :: 0 <= i < j < |r| ==>
        Geometry.UnionArea(Edges(r[i]), Edges(r[j])) > 0.0 && Overlap(r[i], r[j]) <= maxOverlap
    ensures var r := NonMaxSuppression(boxes, maxOverlap);
      forall b :: b in boxes && b !in r ==>
        exists k :: k in r && Geometry.UnionArea(Edges(k), Edges(b)) > 0.0 && Overlap(k, b) > maxOverlap
  {
    var r := NonMaxSuppression(boxes, maxOverlap);
    forall i, j | 0 <= i < j < |r|
      ensures Geometry.UnionArea(Edges(r[i]), Edges(r[j])) > 0.0 && Overlap(r[i], r[j]) <= maxOverlap
    {
      assert r[i] in boxes;
      OverlapDefined(r[i], r[j]);
    }
  }

  /** One box with its x-axis quantities (x, h) multiplied by `sx` and its
      y-axis quantities (y, w) by `sy`. */
  function ScaleBox(b: Box, sx: real, sy: real): Box
  {
    Decoding.Detection(b.name, b.confidence, b.x * sx, b.y * sy, b.w * sy, b.h * sx)
  }

  /** `scale_x`, taken from `img_size[1]`. */
  function ScaleX(size: int, img: Image.Size): (r: real)
    requires size != 0
    ensures r * size as real == img.height as real
    ensures size > 0 && img.height > 0 ==> r > 0.0
  {
    img.height as real / size as real
  }

  /** `scale_y`, taken from `img_size[0]`. */
  function ScaleY(size: int, img: Image.Size): (r: real)
    requires size != 0
    ensures r * size as real == img.width as real
    ensures size > 0 && img.width > 0 ==> r > 0.0
  {
    img.width as real / size as real
  }

  /** scale_boxes: same boxes in the same order, label and confidence kept,
      and the rectangle calc_overlap derives stretched by `img_size[1]/size`
      along x and by `img_size[0]/size` along y. */
  function ScaleBoxes(boxes: seq<Box>, size: int, img: Image.Size): (r: seq<Box>)
    requires size != 0
    ensures |r| == |boxes|
    ensures forall i :: 0 <= i < |r| ==>
      && r[i].name == boxes[i].name
      && r[i].confidence == boxes[i].confidence
      && Edges(r[i]) == Geometry.ScaleRect(Edges(boxes[i]), ScaleX(size, img), ScaleY(size, img))
  {
    var sx, sy := ScaleX(size, img), ScaleY(size, img);
    seq(|boxes|, i requires 0 <= i < |boxes| => ScaleBox(boxes[i], sx, sy))
  }

  /** Scaling to a square image of side `n` and back to side `size` restores
      every box. */
  lemma ScaleBoxesRoundTrip(boxes: seq<Box>, size: int, n: int)
    requires size != 0 && n != 0
    ensures ScaleBoxes(ScaleBoxes(boxes, size, Image.Size(n, n)), n, Image.Size(size, size)) == boxes
  {
    var k := n as real / size as real;
    var k' := size as real / n as real;
    assert k * k' == 1.0;
    var once := ScaleBoxes(boxes, size, Image.Size(n, n));
    var twice := ScaleBoxes(once, n, Image.Size(size, size));
    forall i | 0 <= i < |boxes| ensures twice[i] == boxes[i] {
      var b := boxes[i];
      assert b.x * k * k' == b.x * (k * k');
      assert b.y * k * k' == b.y * (k * k');
      assert b.w * k * k' == b.w * (k * k');
      assert b.h * k * k' == b.h * (k * k');
    }
  }

  /** For a real image the overlap of two scaled boxes is the overlap of the
      original boxes. */
  lemma ScaleBoxesKeepsOverlap(boxes: seq<Box>, size: int, img: Image.Size, i: nat, j: nat)
    requires size > 0 && img.width > 0 && img.height > 0
    requires i < |boxes| && j < |boxes|
    requires Geometry.UnionArea(Edges(boxes[i]), Edges(boxes[j])) > 0.0
    ensures var r := ScaleBoxes(boxes, size, img);
      Geometry.UnionArea(Edges(r[i]), Edges(r[j])) > 0.0 && Overlap(r[i], r[j]) == Overlap(boxes[i], boxes[j])
  {
    var sx, sy := ScaleX(size, img), ScaleY(size, img);
    Geometry.IouScaleInvariant(Edges(boxes[i]), Edges(boxes[j]), sx, sy);
  }

  function Scaler(sx: real, sy: real): Box -> Box
  {
    (b: Box) => ScaleBox(b, sx, sy)
  }

  /** scale_boxes applies the same stretch to every box. */
  lemma ScaleBoxesIsMap(boxes: seq<Box>, size: int, img: Image.Size)
    requires size != 0
    ensures ScaleBoxes(boxes, size, img) == Suppression.Map(boxes, Scaler(ScaleX(size, img), ScaleY(size, img)))
  {}

  /** A positive stretch keeps the (confidence, y) order. */
  lemma ScalerKeepsRank(sx: real, sy: real)
    requires sx > 0.0 && sy > 0.0
    ensures Suppression.KeepsOrder(Scaler(sx, sy), RankOf, RankOf)
  {
    var f, rank := Scaler(sx, sy), RankOf;
    forall a1: Box, a2: Box
      ensures Suppression.Above(rank(f(a1)), rank(f(a2))) <==> Suppression.Above(rank(a1), rank(a2))
    {
      assert f(a1) == ScaleBox(a1, sx, sy);
      assert f(a2) == ScaleBox(a2, sx, sy);
      ScaleBoxKeepsRank(a1, a2, sx, sy);
    }
    assert Suppression.KeepsOrder(f, rank, rank);
  }

  lemma ScaleBoxKeepsRank(a1: Box, a2: Box, sx: real, sy: real)
    requires sy > 0.0
    ensures Suppression.Above(RankOf(ScaleBox(a1, sx, sy)), RankOf(ScaleBox(a2, sx, sy)))
      <==> Suppression.Above(RankOf(a1), RankOf(a2))
  {
    Geometry.MultiplyKeepsOrder(a1.y, a2.y, sy);
  }

  /** A positive stretch does not change which box exceeds which. */
  lemma ScalerKeepsExceeds(sx: real, sy: real, maxOverlap: real)
    requires sx > 0.0 && sy > 0.0
    ensures Suppression.KeepsExceeds(Scaler(sx, sy), ExceedsAt(maxOverlap), ExceedsAt(maxOverlap))
  {
    var f, ex := Scaler(sx, sy), ExceedsAt(maxOverlap);
    forall a1: Box, a2: Box ensures ex(f(a1), f(a2)) == ex(a1, a2) {
      assert f(a1) == ScaleBox(a1, sx, sy);
      assert f(a2) == ScaleBox(a2, sx, sy);
      ScaleBoxKeepsExceeds(a1, a2, sx, sy, maxOverlap);
    }
    assert Suppression.KeepsExceeds(f, ex, ex);
  }

  lemma ScaleBoxKeepsExceeds(a1: Box, a2: Box, sx: real, sy: real, maxOverlap: real)
    requires sx > 0.0 && sy > 0.0
    ensures Exceeds(ScaleBox(a1, sx, sy), ScaleBox(a2, sx, sy), maxOverlap) == Exceeds(a1, a2, maxOverlap)
  {
    assert Edges(ScaleBox(a1, sx, sy)) == Geometry.ScaleRect(Edges(a1), sx, sy);
    assert Edges(ScaleBox(a2, sx, sy)) == Geometry.ScaleRect(Edges(a2), sx, sy);
    Geometry.ExceedsScaleInvariant(Edges(a1), Edges(a2), sx, sy, maxOverlap);
  }

  /** Suppressing after rescaling keeps the same boxes as rescaling after
      suppressing. */
  lemma NonMaxSuppressionCommutesWithScale(boxes: seq<Box>, maxOverlap: real, size: int, img: Image.Size)
    requires size > 0 && img.width > 0 && img.height > 0
    ensures NonMaxSuppression(ScaleBoxes(boxes, size, img), maxOverlap)
      == ScaleBoxes(NonMaxSuppression(boxes, maxOverlap), size, img)
  {
    var sx, sy := ScaleX(size, img), ScaleY(size, img);
    var f := Scaler(sx, sy);
    var ex := ExceedsAt(maxOverlap);
    ScalerKeepsRank(sx, sy);
    ScalerKeepsExceeds(sx, sy, maxOverlap);
    Suppression.NmsCommutesWithMap(boxes, f, RankOf, RankOf, ex, ex);
    var kept := Suppression.NonMaxSuppression(boxes, RankOf, ex);
    ScaleBoxesIsMap(boxes, size, img);
    ScaleBoxesIsMap(kept, size, img);
    calc {
      NonMaxSuppression(ScaleBoxes(boxes, size, img), maxOverlap);
      Suppression.NonMaxSuppression(Suppression.Map(boxes, f), RankOf, ex);
      Suppression.Map(kept, f);
      ScaleBoxes(kept, size, img);
    }
  }

  /** Default `threshold` of decode_pred. */
  const DefaultThreshold: real := 0.5

  /** decode_pred in centre form: exactly the detections of qualifying slots,
      each confident above the threshold, with positive extents and a label
      from the list. */
  function DecodePred(inp: Decoding.Input): (r: seq<Box>)
    requires Decoding.WellFormed(inp)
    ensures forall d :: d in r <==> exists s: Decoding.Slot :: Decoding.Produces(inp, s, d)
    ensures forall d :: d in r ==> inp.threshold < d.confidence < 1.0 && d.w > 0.0 && d.h > 0.0 && d.name in inp.labels
  {
    var r := Decoding.DecodeCentres(inp);
    forall d | d in r ensures inp.threshold < d.confidence < 1.0 && d.w > 0.0 && d.h > 0.0 && d.name in inp.labels {
      Decoding.DecodedDetectionFacts(inp, d);
    }
    r
  }

  /** One detection per qualifying slot, in walk order: for any list of the
      qualifying slots in that order, the i-th detection is the one the i-th
      slot yields. */
  lemma DecodePredInWalkOrder(inp: Decoding.Input, slots: seq<Decoding.Slot>)
    requires Decoding.WellFormed(inp) && Decoding.InWalkOrder(slots)
    requires forall s :: s in slots <==> Decoding.ValidSlot(inp, s) && Decoding.Qualifies(inp, s)
    ensures |DecodePred(inp)| == |slots|
    ensures forall i :: 0 <= i < |slots| ==> DecodePred(inp)[i] == Decoding.Emit(inp, slots[i])
  {
    Decoding.DecodeCentresInWalkOrder(inp, slots);
  }
}
