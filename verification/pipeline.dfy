/** The composition process_img performs on the network outputs
    (src/process.py): decode at the fixed network size with the default
    threshold, suppress with the default overlap bound, and scale back to the
    original image. Also the facts that tie the corner-form and centre-form
    variants together. */
module Pipeline {
  import Geometry
  import Image
  import Suppression
  import Decoding
  import SrcDecode
  import YoloDecode

  /** `yolo_size`: the side of the square the image is resized to. */
  const YoloSize: int := 512

  /** The decoder input process_img builds from the network outputs. */
  function PipelineInput(exp: Decoding.Exp, preds: seq<Decoding.Tensor>, labels: seq<string>): Decoding.Input
  {
    Decoding.Input(exp, preds, YoloSize, labels, SrcDecode.DefaultThreshold)
  }

  /** The boxes process_img hands to the annotator: confident above the
      default threshold; and, for an image with positive sides, proper boxes
      no two of which overlap by more than the default bound, and the same
      boxes suppression would keep had the scaling come first. */
  function ProcessBoxes(exp: Decoding.Exp, preds: seq<Decoding.Tensor>, labels: seq<string>, img: Image.Size)
    : (r: seq<SrcDecode.CornerBox>)
    requires Decoding.WellFormed(PipelineInput(exp, preds, labels))
    ensures |r| <= |SrcDecode.DecodePred(PipelineInput(exp, preds, labels))|
    ensures forall b :: b in r ==> SrcDecode.DefaultThreshold < b.confidence < 1.0
    ensures img.width > 0 && img.height > 0 ==>
      forall b :: b in r ==> b.xmin < b.xmax && b.ymin < b.ymax
    ensures img.width > 0 && img.height > 0 ==>
      forall i, j :: 0 <= i < j < |r| ==>
        Geometry.UnionArea(SrcDecode.Edges(r[i]), SrcDecode.Edges(r[j])) > 0.0
        && SrcDecode.Overlap(r[i], r[j]) <= SrcDecode.DefaultMaxOverlap
    ensures img.width > 0 && img.height > 0 ==>
      r == SrcDecode.NonMaxSuppression(
        SrcDecode.ScaleBoxes(SrcDecode.DecodePred(PipelineInput(exp, preds, labels)), YoloSize, img),
        SrcDecode.DefaultMaxOverlap)
  {
    var decoded := SrcDecode.DecodePred(PipelineInput(exp, preds, labels));
    var kept := SrcDecode.NonMaxSuppression(decoded, SrcDecode.DefaultMaxOverlap);
    var r := SrcDecode.ScaleBoxes(kept, YoloSize, img);
    ScaledConfidences(kept, img);
    if img.width > 0 && img.height > 0 then
      SrcDecode.NonMaxSuppressionCommutesWithScale(decoded, SrcDecode.DefaultMaxOverlap, YoloSize, img);
      var scaled := SrcDecode.ScaleBoxes(decoded, YoloSize, img);
      ScaledBoxesProper(decoded, img);
      SrcDecode.NonMaxSuppressionOverlaps(scaled, SrcDecode.DefaultMaxOverlap);
      r
    else
      r
  }

  /** Scaling keeps every confidence of the suppressed boxes. */
  lemma ScaledConfidences(kept: seq<SrcDecode.CornerBox>, img: Image.Size)
    ensures forall b :: b in SrcDecode.ScaleBoxes(kept, YoloSize, img) ==>
      exists k :: k in kept && b.confidence == k.confidence
  {
    var r := SrcDecode.ScaleBoxes(kept, YoloSize, img);
    forall b | b in r ensures exists k :: k in kept && b.confidence == k.confidence {
      var i :| 0 <= i < |r| && r[i] == b;
      assert kept[i] in kept;
    }
  }

  /** A positive stretch keeps every box proper (positive extent on both
      axes), and so of positive area. */
  lemma ScaledBoxesProper(boxes: seq<SrcDecode.CornerBox>, img: Image.Size)
    requires img.width > 0 && img.height > 0
    requires forall b :: b in boxes ==> b.xmin < b.xmax && b.ymin < b.ymax
    ensures forall b :: b in SrcDecode.ScaleBoxes(boxes, YoloSize, img) ==>
      b.xmin < b.xmax && b.ymin < b.ymax && SrcDecode.Area(b) > 0.0
  {
    var sx, sy := SrcDecode.ScaleX(YoloSize, img), SrcDecode.ScaleY(YoloSize, img);
    var r := SrcDecode.ScaleBoxes(boxes, YoloSize, img);
    forall b | b in r ensures b.xmin < b.xmax && b.ymin < b.ymax {
      var i :| 0 <= i < |r| && r[i] == b;
      assert boxes[i] in boxes;
      ScaleBoxProper(boxes[i], sx, sy);
    }
  }

  lemma ScaleBoxProper(b: SrcDecode.CornerBox, sx: real, sy: real)
    requires sx > 0.0 && sy > 0.0
    requires b.xmin < b.xmax && b.ymin < b.ymax
    ensures var s := SrcDecode.ScaleBox(b, sx, sy); s.xmin < s.xmax && s.ymin < s.ymax
  {
    Geometry.MultiplyKeepsOrder(b.xmax, b.xmin, sx);
    Geometry.MultiplyKeepsOrder(b.ymax, b.ymin, sy);
  }

  /** The corner box src/decode.py builds from a detection has exactly the
      edges yolo/decode.py derives from it, with the axes swapped. */
  lemma CornerEdgesAreTransposed(d: Decoding.Detection)
    ensures SrcDecode.Edges(SrcDecode.ToCorner(d)) == Geometry.Transpose(YoloDecode.Edges(d))
  {}

  /** Both variants measure the same overlap between the same two
      detections, and so agree on which detection suppresses which. */
  lemma VariantsAgreeOnOverlap(d1: Decoding.Detection, d2: Decoding.Detection, t: real)
    ensures SrcDecode.Exceeds(SrcDecode.ToCorner(d1), SrcDecode.ToCorner(d2), t) <==> YoloDecode.Exceeds(d1, d2, t)
    ensures Geometry.UnionArea(SrcDecode.Edges(SrcDecode.ToCorner(d1)), SrcDecode.Edges(SrcDecode.ToCorner(d2)))
      == Geometry.UnionArea(YoloDecode.Edges(d1), YoloDecode.Edges(d2))
    ensures Geometry.UnionArea(YoloDecode.Edges(d1), YoloDecode.Edges(d2)) > 0.0 ==>
      SrcDecode.Overlap(SrcDecode.ToCorner(d1), SrcDecode.ToCorner(d2)) == YoloDecode.Overlap(d1, d2)
  {
    CornerEdgesAreTransposed(d1);
    CornerEdgesAreTransposed(d2);
    Geometry.IouTransposeInvariant(YoloDecode.Edges(d1), YoloDecode.Edges(d2), t);
  }

  /** Converting to corners and then scaling with src/decode.py gives what
      scaling with yolo/decode.py and then converting gives: the two
      scale_boxes apply `img_size[0]` and `img_size[1]` to the same image axes. */
  lemma VariantsAgreeOnScaling(ds: seq<Decoding.Detection>, size: int, img: Image.Size)
    requires size != 0
    ensures SrcDecode.ScaleBoxes(Suppression.Map(ds, SrcDecode.ToCorner), size, img)
      == Suppression.Map(YoloDecode.ScaleBoxes(ds, size, img), SrcDecode.ToCorner)
  {
    var a := SrcDecode.ScaleBoxes(Suppression.Map(ds, SrcDecode.ToCorner), size, img);
    var b := Suppression.Map(YoloDecode.ScaleBoxes(ds, size, img), SrcDecode.ToCorner);
    var kw, kh := SrcDecode.ScaleX(size, img), SrcDecode.ScaleY(size, img);
    assert kw == YoloDecode.ScaleY(size, img) && kh == YoloDecode.ScaleX(size, img);
    forall i | 0 <= i < |ds| ensures a[i] == b[i] {
      ScaleCommutesWithCorner(ds[i], kw, kh);
    }
  }

  /** One detection: stretching the corner box is converting the stretched
      detection, whose centre-form factors are the corner-form ones swapped. */
  lemma ScaleCommutesWithCorner(d: Decoding.Detection, kw: real, kh: real)
    ensures SrcDecode.ScaleBox(SrcDecode.ToCorner(d), kw, kh) == SrcDecode.ToCorner(YoloDecode.ScaleBox(d, kh, kw))
  {
  }

  /** The corner-form decoder emits the centre-form detections, converted,
      in the same order. */
  lemma VariantsAgreeOnDecoding(inp: Decoding.Input)
    requires Decoding.WellFormed(inp)
    ensures SrcDecode.DecodePred(inp) == Suppression.Map(YoloDecode.DecodePred(inp), SrcDecode.ToCorner)
  {}

  /** When confidences differ the two sort keys order two detections alike. */
  lemma VariantsAgreeOnRankUnlessTied(d1: Decoding.Detection, d2: Decoding.Detection)
    requires d1.confidence != d2.confidence
    ensures Suppression.Above(SrcDecode.RankOf(SrcDecode.ToCorner(d1)), SrcDecode.RankOf(SrcDecode.ToCorner(d2)))
      <==> Suppression.Above(YoloDecode.RankOf(d1), YoloDecode.RankOf(d2))
  {}

  /** On a tie in confidence they need not: src/decode.py breaks it on the
      right edge `y + w/2` of the corner box, yolo/decode.py on the centre `y`. */
  lemma VariantsMayBreakTiesApart()
    ensures var d1 := Decoding.Detection("a", 0.9, 0.0, 10.0, 2.0, 1.0);
      var d2 := Decoding.Detection("b", 0.9, 0.0, 9.0, 6.0, 1.0);
      && Suppression.Above(YoloDecode.RankOf(d1), YoloDecode.RankOf(d2))
      && Suppression.Above(SrcDecode.RankOf(SrcDecode.ToCorner(d2)), SrcDecode.RankOf(SrcDecode.ToCorner(d1)))
  {}
}
