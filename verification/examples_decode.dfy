/** The worked cases of tests/test_decode.py, stated of the corner-form model. */
module DecodeExamples {
  import Geometry
  import Image
  import Suppression
  import SrcDecode

  function Box(confidence: real, xmin: real, xmax: real, ymin: real, ymax: real): SrcDecode.CornerBox
  {
    SrcDecode.CornerBox("label", confidence, xmin, xmax, ymin, ymax)
  }

  /** The calc_area cases, one lemma each. */
  lemma AreaUnitSquare()
    ensures Geometry.Area(Geometry.Rect(0.0, 1.0, 0.0, 1.0)) == 1.0
  {}

  lemma AreaSquareOfTwo()
    ensures Geometry.Area(Geometry.Rect(0.0, 2.0, 0.0, 2.0)) == 4.0
  {}

  lemma AreaOffsetSquare()
    ensures Geometry.Area(Geometry.Rect(5.0, 10.0, 10.0, 15.0)) == 25.0
  {}

  lemma AreaRectangle()
    ensures Geometry.Area(Geometry.Rect(0.0, 1.0, 2.0, 5.0)) == 3.0
  {}

  lemma AreaPoint()
    ensures Geometry.Area(Geometry.Rect(0.0, 0.0, 0.0, 0.0)) == 0.0
  {}

  lemma AreaFlat()
    ensures Geometry.Area(Geometry.Rect(0.0, 0.0, 0.0, 1.0)) == 0.0
  {}

  lemma AreaInverted()
    ensures Geometry.Area(Geometry.Rect(0.0, -1.0, 0.0, 1.0)) == 0.0
  {}

  /** Two 10-by-10 boxes offset by 5 on both axes: 25 over 175. */
  lemma OverlapPartial()
    ensures SrcDecode.Overlap(Box(0.9, 0.0, 10.0, 0.0, 10.0), Box(0.9, 5.0, 15.0, 5.0, 15.0)) == 25.0 / 175.0
  {
    var r1, r2 := SrcDecode.Edges(Box(0.9, 0.0, 10.0, 0.0, 10.0)), SrcDecode.Edges(Box(0.9, 5.0, 15.0, 5.0, 15.0));
    assert Geometry.Intersection(r1, r2) == Geometry.Rect(5.0, 10.0, 5.0, 10.0);
    assert Geometry.Area(Geometry.Intersection(r1, r2)) == 25.0;
    assert Geometry.UnionArea(r1, r2) == 175.0;
  }

  lemma OverlapDisjoint()
    ensures SrcDecode.Overlap(Box(0.9, 0.0, 10.0, 0.0, 10.0), Box(0.9, 15.0, 25.0, 15.0, 25.0)) == 0.0
  {}

  /** A box and its left half. */
  lemma OverlapHalf()
    ensures SrcDecode.Overlap(Box(0.9, 0.0, 10.0, 0.0, 10.0), Box(0.9, 0.0, 5.0, 0.0, 10.0)) == 0.5
  {}

  lemma OverlapIdentical()
    ensures SrcDecode.Overlap(Box(0.9, 25.0, 30.0, 20.0, 25.0), Box(0.9, 25.0, 30.0, 20.0, 25.0)) == 1.0
  {}

  /** Boxes meeting only at a corner. */
  lemma OverlapCorner()
    ensures SrcDecode.Overlap(Box(0.9, 0.0, 10.0, 0.0, 10.0), Box(0.9, 10.0, 20.0, 10.0, 20.0)) == 0.0
  {}

  /** A nested lower-confidence box is dropped, whichever comes first. */
  lemma SuppressionDropsNested()
    ensures SrcDecode.NonMaxSuppression([Box(1.0, 0.0, 10.0, 0.0, 10.0), Box(0.9, 0.0, 9.0, 0.0, 9.0)], 0.25)
      == [Box(1.0, 0.0, 10.0, 0.0, 10.0)]
  {
    var outer, inner := Box(1.0, 0.0, 10.0, 0.0, 10.0), Box(0.9, 0.0, 9.0, 0.0, 9.0);
    SortsOuterFirst(outer, inner);
    DropsInner();
  }

  lemma SuppressionDropsNestedReordered()
    ensures SrcDecode.NonMaxSuppression([Box(0.9, 0.0, 9.0, 0.0, 9.0), Box(1.0, 0.0, 10.0, 0.0, 10.0)], 0.25)
      == [Box(1.0, 0.0, 10.0, 0.0, 10.0)]
  {
    var outer, inner := Box(1.0, 0.0, 10.0, 0.0, 10.0), Box(0.9, 0.0, 9.0, 0.0, 9.0);
    SortsOuterFirst(inner, outer);
    DropsInner();
  }

  lemma SortsOuterFirst(a: SrcDecode.CornerBox, b: SrcDecode.CornerBox)
    requires {a, b} == {Box(1.0, 0.0, 10.0, 0.0, 10.0), Box(0.9, 0.0, 9.0, 0.0, 9.0)}
    ensures Suppression.SortByRank([a, b], SrcDecode.RankOf)
      == [Box(1.0, 0.0, 10.0, 0.0, 10.0), Box(0.9, 0.0, 9.0, 0.0, 9.0)]
  {
    assert a == Box(1.0, 0.0, 10.0, 0.0, 10.0) || a == Box(0.9, 0.0, 9.0, 0.0, 9.0);
  }

  lemma DropsInner()
    ensures Suppression.Suppress([Box(1.0, 0.0, 10.0, 0.0, 10.0), Box(0.9, 0.0, 9.0, 0.0, 9.0)], SrcDecode.ExceedsAt(0.25))
      == [Box(1.0, 0.0, 10.0, 0.0, 10.0)]
  {
    var outer, inner := Box(1.0, 0.0, 10.0, 0.0, 10.0), Box(0.9, 0.0, 9.0, 0.0, 9.0);
    var ex := SrcDecode.ExceedsAt(0.25);
    NestedBoxExceeds();
    SuppressFirst(outer, [inner], ex);
    assert Suppression.Suppress([], ex) == [];
    assert [outer] + [] == [outer];
  }

  /** 81 over 100. */
  lemma NestedBoxExceeds()
    ensures SrcDecode.Exceeds(Box(1.0, 0.0, 10.0, 0.0, 10.0), Box(0.9, 0.0, 9.0, 0.0, 9.0), 0.25)
  {
    var r1, r2 := SrcDecode.Edges(Box(1.0, 0.0, 10.0, 0.0, 10.0)), SrcDecode.Edges(Box(0.9, 0.0, 9.0, 0.0, 9.0));
    assert Geometry.Intersection(r1, r2) == r2;
    assert Geometry.Area(r2) == 81.0;
    assert Geometry.UnionArea(r1, r2) == 100.0;
  }

  /** A box that does not overlap is kept, after the better one. */
  lemma SuppressionKeepsDisjoint()
    ensures SrcDecode.NonMaxSuppression([Box(0.9, 10.0, 20.0, 15.0, 25.0), Box(1.0, 0.0, 10.0, 0.0, 10.0)], 0.25)
      == [Box(1.0, 0.0, 10.0, 0.0, 10.0), Box(0.9, 10.0, 20.0, 15.0, 25.0)]
  {
    var best, other := Box(1.0, 0.0, 10.0, 0.0, 10.0), Box(0.9, 10.0, 20.0, 15.0, 25.0);
    SortsBestFirst();
    KeepsBoth();
    calc {
      SrcDecode.NonMaxSuppression([other, best], 0.25);
      Suppression.Suppress(Suppression.SortByRank([other, best], SrcDecode.RankOf), SrcDecode.ExceedsAt(0.25));
      Suppression.Suppress([best, other], SrcDecode.ExceedsAt(0.25));
      [best, other];
    }
  }

  lemma SortsBestFirst()
    ensures Suppression.SortByRank([Box(0.9, 10.0, 20.0, 15.0, 25.0), Box(1.0, 0.0, 10.0, 0.0, 10.0)], SrcDecode.RankOf)
      == [Box(1.0, 0.0, 10.0, 0.0, 10.0), Box(0.9, 10.0, 20.0, 15.0, 25.0)]
  {}

  lemma KeepsBoth()
    ensures Suppression.Suppress([Box(1.0, 0.0, 10.0, 0.0, 10.0), Box(0.9, 10.0, 20.0, 15.0, 25.0)], SrcDecode.ExceedsAt(0.25))
      == [Box(1.0, 0.0, 10.0, 0.0, 10.0), Box(0.9, 10.0, 20.0, 15.0, 25.0)]
  {
    var best, other := Box(1.0, 0.0, 10.0, 0.0, 10.0), Box(0.9, 10.0, 20.0, 15.0, 25.0);
    var ex := SrcDecode.ExceedsAt(0.25);
    assert [best, other] == [best] + [other];
    ApartBoxesSurvive();
    SuppressFirst(best, [other], ex);
    SuppressOne(other, ex);
  }

  /** One round of the suppression loop. */
  lemma SuppressFirst<B(!new)>(b: B, s: seq<B>, exceeds: (B, B) -> bool)
    ensures Suppression.Suppress([b] + s, exceeds)
      == [b] + Suppression.Suppress(Suppression.Survivors(b, s, exceeds), exceeds)
  {
    assert ([b] + s)[1..] == s;
  }

  lemma SuppressOne<B(!new)>(b: B, exceeds: (B, B) -> bool)
    ensures Suppression.Suppress([b], exceeds) == [b]
  {
    SuppressFirst(b, [], exceeds);
    assert [b] + [] == [b];
  }

  lemma ApartBoxesSurvive()
    ensures Suppression.Survivors(Box(1.0, 0.0, 10.0, 0.0, 10.0), [Box(0.9, 10.0, 20.0, 15.0, 25.0)], SrcDecode.ExceedsAt(0.25))
      == [Box(0.9, 10.0, 20.0, 15.0, 25.0)]
  {
    ApartBoxesDoNotExceed();
  }

  lemma ApartBoxesDoNotExceed()
    ensures !SrcDecode.Exceeds(Box(1.0, 0.0, 10.0, 0.0, 10.0), Box(0.9, 10.0, 20.0, 15.0, 25.0), 0.25)
  {
    var best, other := Box(1.0, 0.0, 10.0, 0.0, 10.0), Box(0.9, 10.0, 20.0, 15.0, 25.0);
    SrcDecode.OverlapDefined(best, other);
    SrcDecode.OverlapSeparated(best, other);
  }

  /** From a 500 square to a 1500-by-1000 image: x edges tripled, y edges
      doubled. */
  lemma ScaleToImage()
    ensures SrcDecode.ScaleBoxes([Box(1.0, 100.0, 200.0, 50.0, 150.0), Box(0.9, 0.0, 500.0, 15.0, 250.0)],
                                 500, Image.Size(1500, 1000))
      == [Box(1.0, 300.0, 600.0, 100.0, 300.0), Box(0.9, 0.0, 1500.0, 30.0, 500.0)]
  {}
}
