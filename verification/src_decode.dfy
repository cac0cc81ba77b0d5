/** The corner-form variant of the post-processing (src/decode.py): boxes are
    `[label, confidence, xmin, xmax, ymin, ymax]`, the overlap reads the edges
    directly, the suppression ranks by (confidence, xmax), and the rescaling
    stretches the x edges by `img_size[0]/size` and the y edges by
    `img_size[1]/size`. */
module SrcDecode {
  import Geometry
  import Image
  import Suppression
  import Decoding

  /** A box in corner form; `name` is the class label. */
  datatype CornerBox = CornerBox(name: string, confidence: real, xmin: real, xmax: real, ymin: real, ymax: real)

  /** The four edges `calc_overlap` reads from fields 2 to 5. */
  function Edges(b: CornerBox): Geometry.Rect
  {
    Geometry.Rect(b.xmin, b.xmax, b.ymin, b.ymax)
  }

  /** calc_area of a box. It is never negative, and it is zero exactly when
      the box is flat or inverted along some axis. */
  function Area(b: CornerBox): (a: real)
    ensures a >= 0.0
    ensures a == 0.0 <==> b.xmax <= b.xmin || b.ymax <= b.ymin
  {
    Geometry.Area(Edges(b))
  }

  /** calc_overlap: intersection over union of the two boxes. When both boxes
      have no area the union is zero and the source divides by zero. */
  function Overlap(b1: CornerBox, b2: CornerBox): (v: real)
    requires Geometry.UnionArea(Edges(b1), Edges(b2)) > 0.0
    ensures 0.0 <= v <= 1.0
    ensures v == 0.0 <==> Geometry.Area(Geometry.Intersection(Edges(b1), Edges(b2))) == 0.0
  {
    Geometry.Iou(Edges(b1), Edges(b2))
  }

  /** The union is positive as soon as one of the boxes has area. */
  lemma OverlapDefined(b1: CornerBox, b2: CornerBox)
    requires Area(b1) > 0.0 || Area(b2) > 0.0
    ensures Geometry.UnionArea(Edges(b1), Edges(b2)) > 0.0
  {
    Geometry.UnionAreaBounds(Edges(b1), Edges(b2));
  }

  lemma OverlapSymmetric(b1: CornerBox, b2: CornerBox)
    requires Geometry.UnionArea(Edges(b1), Edges(b2)) > 0.0
    ensures Geometry.UnionArea(Edges(b2), Edges(b1)) > 0.0
    ensures Overlap(b1, b2) == Overlap(b2, b1)
  {
    Geometry.IouSymmetric(Edges(b1), Edges(b2));
  }

  /** Two boxes with area overlap completely exactly when their edges agree;
      in particular a box with area overlaps itself with 1. */
  lemma OverlapOneIffSameEdges(b1: CornerBox, b2: CornerBox)
    requires Area(b1) > 0.0 && Area(b2) > 0.0
    ensures Geometry.UnionArea(Edges(b1), Edges(b2)) > 0.0
    ensures Overlap(b1, b2) == 1.0 <==> Edges(b1) == Edges(b2)
  {
    Geometry.IouOneIffSame(Edges(b1), Edges(b2));
  }

  /** Boxes that are apart or only touch along an edge do not overlap. */
  lemma OverlapSeparated(b1: CornerBox, b2: CornerBox)
    requires Geometry.UnionArea(Edges(b1), Edges(b2)) > 0.0
    requires b1.xmax <= b2.xmin || b2.xmax <= b1.xmin || b1.ymax <= b2.ymin || b2.ymax <= b1.ymin
    ensures Overlap(b1, b2) == 0.0
  {
    Geometry.IouSeparated(Edges(b1), Edges(b2));
  }

  /** The `overlap > max_overlap` test of the suppression loop. */
  predicate Exceeds(b1: CornerBox, b2: CornerBox, maxOverlap: real)
  {
    Geometry.OverlapExceeds(Edges(b1), Edges(b2), maxOverlap)
  }

  function ExceedsAt(maxOverlap: real): (CornerBox, CornerBox) -> bool
  {
    (b1: CornerBox, b2: CornerBox) => Exceeds(b1, b2, maxOverlap)
  }

  /** The sort key `itemgetter(1, 3)`: confidence, then xmax. */
  function RankOf(b: CornerBox): Suppression.Rank
  {
    Suppression.Rank(b.confidence, b.xmax)
  }

  /** `b1` comes no later than `b2` in the descending (confidence, xmax)
      order: a higher confidence, or an equal one and an xmax at least as
      large. */
  predicate RanksAtLeast(b1: CornerBox, b2: CornerBox)
  {
    Suppression.AtLeast(RankOf(b1), RankOf(b2))
  }

  /** Default `max_overlap` of non_max_supression. */
  const DefaultMaxOverlap: real := 0.25

  /** non_max_supression: the kept boxes are an ordered selection of the
      stably sorted input, the best-ranked box is kept, no kept box exceeds
      the threshold against a later kept box, and every dropped box is
      exceeded by a kept box ranked at least as high. */
  function NonMaxSuppression(boxes: seq<CornerBox>, maxOverlap: real): (r: seq<CornerBox>)
    ensures |r| <= |boxes|
    ensures boxes == [] <==> r == []
    ensures forall b :: b in r ==> b in boxes
    ensures Suppression.IsSubsequence(r, Suppression.SortByRank(boxes, RankOf))
    ensures forall i, j :: 0 <= i < j < |r| ==> RanksAtLeast(r[i], r[j])
    ensures r != [] ==> forall b :: b in boxes ==> RanksAtLeast(r[0], b)
    ensures forall i, j :: 0 <= i < j < |r| ==> !Exceeds(r[i], r[j], maxOverlap)
    ensures forall b :: b in boxes && b !in r ==>
      exists k :: k in r && Exceeds(k, b, maxOverlap) && RanksAtLeast(k, b)
  {
    Suppression.NonMaxSuppression(boxes, RankOf, ExceedsAt(maxOverlap))
  }

  /** Kept boxes are computed by the same greedy scan that keeps a box when
      no box kept before it overlaps it by more than the threshold. */
  lemma NonMaxSuppressionIsGreedy(boxes: seq<CornerBox>, maxOverlap: real)
    ensures NonMaxSuppression(boxes, maxOverlap)
      == Suppression.GreedyScan(Suppression.SortByRank(boxes, RankOf), [], ExceedsAt(maxOverlap))
  {
    Suppression.SuppressIsGreedy(Suppression.SortByRank(boxes, RankOf), ExceedsAt(maxOverlap));
  }

  /** With boxes of positive area the overlap is always defined, so the two
      guarantees of suppression read as plain IoU bounds. */
  lemma NonMaxSuppressionOverlaps(boxes: seq<CornerBox>, maxOverlap: real)
    requires forall b :: b in boxes ==> Area(b) > 0.0
    ensures var r := NonMaxSuppression(boxes, maxOverlap);
      forall i, j :: 0 <= i < j < |r| ==>
        Geometry.UnionArea(Edges(r[i]), Edges(r[j])) > 0.0 && Overlap(r[i], r[j]) <= maxOverlap
    ensures var r := NonMaxSuppression(boxes, maxOverlap);
      forall b :: b in boxes && b !in r ==>
        exists k :: k in r && Geometry.UnionArea(Edges(k), Edges(b)) > 0.0 && Overlap(k, b) > maxOverlap
  {
    var r := NonMaxSuppression(boxes, maxOverlap);
    forall i, j | 0 <= i < j < |r|
      ensures Geometry.UnionArea(Edges(r[i]), Edges(r[j])) > 0.0 && Overlap(r[i], r[j]) <= maxOverlap
    {
      assert r[i] in boxes;
      OverlapDefined(r[i], r[j]);
    }
  }

  /** One box stretched by `sx` along x and `sy` along y. */
  function ScaleBox(b: CornerBox, sx: real, sy: real): CornerBox
  {
    CornerBox(b.name, b.confidence, b.xmin * sx, b.xmax * sx, b.ymin * sy, b.ymax * sy)
  }

  /** `scale_x`, taken from `img_size[0]`: the factor that maps `size` back
      onto the image width. */
  function ScaleX(size: int, img: Image.Size): (r: real)
    requires size != 0
    ensures r * size as real == img.width as real
    ensures size > 0 && img.width > 0 ==> r > 0.0
  {
    img.width as real / size as real
  }

  /** `scale_y`, taken from `img_size[1]`: the factor that maps `size` back
      onto the image height. */
  function ScaleY(size: int, img: Image.Size): (r: real)
    requires size != 0
    ensures r * size as real == img.height as real
    ensures size > 0 && img.height > 0 ==> r > 0.0
  {
    img.height as real / size as real
  }

  /** scale_boxes: same boxes in the same order, label and confidence kept,
      the x edges multiplied by `img_size[0]/size` and the y edges by
      `img_size[1]/size`. */
  function ScaleBoxes(boxes: seq<CornerBox>, size: int, img: Image.Size): (r: seq<CornerBox>)
    requires size != 0
    ensures |r| == |boxes|
    ensures forall i :: 0 <= i < |r| ==>
      && r[i].name == boxes[i].name
      && r[i].confidence == boxes[i].confidence
      && Edges(r[i]) == Geometry.ScaleRect(Edges(boxes[i]), ScaleX(size, img), ScaleY(size, img))
  {
    var sx, sy := ScaleX(size, img), ScaleY(size, img);
    seq(|boxes|, i requires 0 <= i < |boxes| => ScaleBox(boxes[i], sx, sy))
  }

  /** Scaling to a square image of side `n` and back to side `size` restores
      every box. */
  lemma ScaleBoxesRoundTrip(boxes: seq<CornerBox>, size: int, n: int)
    requires size != 0 && n != 0
    ensures ScaleBoxes(ScaleBoxes(boxes, size, Image.Size(n, n)), n, Image.Size(size, size)) == boxes
  {
    var k := n as real / size as real;
    var k' := size as real / n as real;
    assert k * k' == 1.0;
    var once := ScaleBoxes(boxes, size, Image.Size(n, n));
    var twice := ScaleBoxes(once, n, Image.Size(size, size));
    forall i | 0 <= i < |boxes| ensures twice[i] == boxes[i] {
      var b := boxes[i];
      assert b.xmin * k * k' == b.xmin * (k * k');
      assert b.xmax * k * k' == b.xmax * (k * k');
      assert b.ymin * k * k' == b.ymin * (k * k');
      assert b.ymax * k * k' == b.ymax * (k * k');
    }
  }

  /** For a real image the overlap of two scaled boxes is the overlap of the
      original boxes. */
  lemma ScaleBoxesKeepsOverlap(boxes: seq<CornerBox>, size: int, img: Image.Size, i: nat, j: nat)
    requires size > 0 && img.width > 0 && img.height > 0
    requires i < |boxes| && j < |boxes|
    requires Geometry.UnionArea(Edges(boxes[i]), Edges(boxes[j])) > 0.0
    ensures var r := ScaleBoxes(boxes, size, img);
      Geometry.UnionArea(Edges(r[i]), Edges(r[j])) > 0.0 && Overlap(r[i], r[j]) == Overlap(boxes[i], boxes[j])
  {
    var sx, sy := ScaleX(size, img), ScaleY(size, img);
    Geometry.IouScaleInvariant(Edges(boxes[i]), Edges(boxes[j]), sx, sy);
  }

  /** Suppressing after rescaling keeps the same boxes as rescaling after
      suppressing: the overlap ignores positive scale factors and the
      ranking by (confidence, xmax) survives a positive stretch. */
  lemma NonMaxSuppressionCommutesWithScale(boxes: seq<CornerBox>, maxOverlap: real, size: int, img: Image.Size)
    requires size > 0 && img.width > 0 && img.height > 0
    ensures NonMaxSuppression(ScaleBoxes(boxes, size, img), maxOverlap)
      == ScaleBoxes(NonMaxSuppression(boxes, maxOverlap), size, img)
  {
    var sx, sy := ScaleX(size, img), ScaleY(size, img);
    var f := Scaler(sx, sy);
    var ex := ExceedsAt(maxOverlap);
    ScalerKeepsRank(sx, sy);
    ScalerKeepsExceeds(sx, sy, maxOverlap);
    Suppression.NmsCommutesWithMap(boxes, f, RankOf, RankOf, ex, ex);
    var kept := Suppression.NonMaxSuppression(boxes, RankOf, ex);
    ScaleBoxesIsMap(boxes, size, img);
    ScaleBoxesIsMap(kept, size, img);
    calc {
      NonMaxSuppression(ScaleBoxes(boxes, size, img), maxOverlap);
      Suppression.NonMaxSuppression(Suppression.Map(boxes, f), RankOf, ex);
      Suppression.Map(kept, f);
      ScaleBoxes(kept, size, img);
    }
  }

  function Scaler(sx: real, sy: real): CornerBox -> CornerBox
  {
    (b: CornerBox) => ScaleBox(b, sx, sy)
  }

  lemma ScaleBoxesIsMap(boxes: seq<CornerBox>, size: int, img: Image.Size)
    requires size != 0
    ensures ScaleBoxes(boxes, size, img) == Suppression.Map(boxes, Scaler(ScaleX(size, img), ScaleY(size, img)))
  {}

  lemma ScalerKeepsRank(sx: real, sy: real)
    requires sx > 0.0 && sy > 0.0
    ensures Suppression.KeepsOrder(Scaler(sx, sy), RankOf, RankOf)
  {
    var f, rank := Scaler(sx, sy), RankOf;
    forall a1: CornerBox, a2: CornerBox
      ensures Suppression.Above(rank(f(a1)), rank(f(a2))) <==> Suppression.Above(rank(a1), rank(a2))
    {
      assert f(a1) == ScaleBox(a1, sx, sy);
      assert f(a2) == ScaleBox(a2, sx, sy);
      ScaleBoxKeepsRank(a1, a2, sx, sy);
    }
    assert Suppression.KeepsOrder(f, rank, rank);
  }

  lemma ScaleBoxKeepsRank(a1: CornerBox, a2: CornerBox, sx: real, sy: real)
    requires sx > 0.0
    ensures Suppression.Above(RankOf(ScaleBox(a1, sx, sy)), RankOf(ScaleBox(a2, sx, sy)))
      <==> Suppression.Above(RankOf(a1), RankOf(a2))
  {
    Geometry.MultiplyKeepsOrder(a1.xmax, a2.xmax, sx);
  }

  lemma ScalerKeepsExceeds(sx: real, sy: real, maxOverlap: real)
    requires sx > 0.0 && sy > 0.0
    ensures Suppression.KeepsExceeds(Scaler(sx, sy), ExceedsAt(maxOverlap), ExceedsAt(maxOverlap))
  {
    var f, ex := Scaler(sx, sy), ExceedsAt(maxOverlap);
    forall a1: CornerBox, a2: CornerBox ensures ex(f(a1), f(a2)) == ex(a1, a2) {
      assert f(a1) == ScaleBox(a1, sx, sy);
      assert f(a2) == ScaleBox(a2, sx, sy);
      ScaleBoxKeepsExceeds(a1, a2, sx, sy, maxOverlap);
    }
    assert Suppression.KeepsExceeds(f, ex, ex);
  }

  lemma ScaleBoxKeepsExceeds(a1: CornerBox, a2: CornerBox, sx: real, sy: real, maxOverlap: real)
    requires sx > 0.0 && sy > 0.0
    ensures Exceeds(ScaleBox(a1, sx, sy), ScaleBox(a2, sx, sy), maxOverlap) == Exceeds(a1, a2, maxOverlap)
  {
    assert Edges(ScaleBox(a1, sx, sy)) == Geometry.ScaleRect(Edges(a1), sx, sy);
    assert Edges(ScaleBox(a2, sx, sy)) == Geometry.ScaleRect(Edges(a2), sx, sy);
    Geometry.ExceedsScaleInvariant(Edges(a1), Edges(a2), sx, sy, maxOverlap);
  }

  /** The corner conversion of src/decode.py: the x edges sit around the
      second centre coordinate with extent w, the y edges around the first
      centre coordinate with extent h. */
  function ToCorner(d: Decoding.Detection): (b: CornerBox)
    ensures b.name == d.name && b.confidence == d.confidence
    ensures b.xmax - b.xmin == d.w && (b.xmin + b.xmax) / 2.0 == d.y
    ensures b.ymax - b.ymin == d.h && (b.ymin + b.ymax) / 2.0 == d.x
  {
    CornerBox(d.name, d.confidence, d.y - d.w / 2.0, d.y + d.w / 2.0, d.x - d.h / 2.0, d.x + d.h / 2.0)
  }

  /** The inverse reading: centre and extents of a corner box. */
  function FromCorner(b: CornerBox): Decoding.Detection
  {
    Decoding.Detection(b.name, b.confidence, (b.ymin + b.ymax) / 2.0, (b.xmin + b.xmax) / 2.0,
                       b.xmax - b.xmin, b.ymax - b.ymin)
  }

  /** The two conversions are inverse to each other. */
  lemma CornerRoundTrip(d: Decoding.Detection, b: CornerBox)
    ensures FromCorner(ToCorner(d)) == d
    ensures ToCorner(FromCorner(b)) == b
  {}

  /** Default `threshold` of decode_pred. */
  const DefaultThreshold: real := 0.5

  /** decode_pred in corner form: every qualifying slot, converted. */
  function DecodePred(inp: Decoding.Input): (r: seq<CornerBox>)
    requires Decoding.WellFormed(inp)
    ensures forall b :: b in r <==> exists s: Decoding.Slot :: Decoding.Produces(inp, s, FromCorner(b))
    ensures forall b :: b in r ==> inp.threshold < b.confidence < 1.0 && b.xmin < b.xmax && b.ymin < b.ymax
  {
    var ds := Decoding.DecodeCentres(inp);
    var r := Suppression.Map(ds, ToCorner);
    ToCornerMembers(ds);
    forall b | b in r ensures inp.threshold < b.confidence < 1.0 && b.xmin < b.xmax && b.ymin < b.ymax {
      Decoding.DecodedDetectionFacts(inp, FromCorner(b));
    }
    r
  }

  /** One corner box per qualifying slot, in walk order: for any list of
      the qualifying slots in that order, the i-th box is the i-th slot's
      detection converted to corners. */
  lemma DecodePredInWalkOrder(inp: Decoding.Input, slots: seq<Decoding.Slot>)
    requires Decoding.WellFormed(inp) && Decoding.InWalkOrder(slots)
    requires forall s :: s in slots <==> Decoding.ValidSlot(inp, s) && Decoding.Qualifies(inp, s)
    ensures |DecodePred(inp)| == |slots|
    ensures forall i :: 0 <= i < |slots| ==> DecodePred(inp)[i] == ToCorner(Decoding.Emit(inp, slots[i]))
  {
    Decoding.DecodeCentresInWalkOrder(inp, slots);
  }

  /** A box is among the converted detections exactly when its centre-form
      reading is among the detections. */
  lemma ToCornerMembers(ds: seq<Decoding.Detection>)
    ensures forall b :: b in Suppression.Map(ds, ToCorner) <==> FromCorner(b) in ds
  {
    var r := Suppression.Map(ds, ToCorner);
    forall b ensures b in r <==> FromCorner(b) in ds {
      if b in r {
        var i :| 0 <= i < |r| && r[i] == b;
        CornerRoundTrip(ds[i], b);
      }
      if FromCorner(b) in ds {
        var i :| 0 <= i < |ds| && ds[i] == FromCorner(b);
        CornerRoundTrip(ds[i], b);
        assert r[i] == b;
      }
    }
  }
}
