/** One grid decoded by hand, in both variants. The grid has one row of two
    cells. Only anchor block 1 of cell (0, 1) clears the threshold. Its raw
    channels are chosen so that every channel lands on a different value
    of the box: a swapped offset channel, a swapped anchor index or a
    swapped cell axis would each give a different detection. */
module WalkExample {
  import Decoding
  import SrcDecode
  import YoloDecode

  /** A stand-in for `np.exp` that is positive everywhere: 2 above zero, 1
      at zero, 1/2 below. */
  function StepExp(t: real): real
  {
    if t > 0.0 then 2.0 else if t < 0.0 then 0.5 else 1.0
  }

  const Exp: Decoding.Exp := StepExp

  /** Anchor block 1 of the qualifying cell: x offset -1, y offset 1,
      width channel 1, height channel -1, objectness 1, and class 7 the
      only class with a positive score. */
  function BlockValue(k: nat): real
  {
    if k == 0 || k == 3 then -1.0
    else if k == 1 || k == 2 || k == 4 || k == 5 + 7 then 1.0
    else 0.0
  }

  function CellValue(c: nat): real
  {
    if 85 <= c < 170 then BlockValue(c - 85) else 0.0
  }

  const QuietCell: seq<real> := seq(255, c => 0.0)
  const BusyCell: seq<real> := seq(255, c requires 0 <= c => CellValue(c))

  /** `[cell_x][cell_y][channel]`: one row of two cells. */
  const Grid: Decoding.Tensor := [[QuietCell, BusyCell]]

  const Labels: seq<string> := seq(80, i => if i == 7 then "truck" else "other")

  const Inp: Decoding.Input := Decoding.Input(Exp, [Grid], 512, Labels, 0.5)

  const Busy: Decoding.Slot := Decoding.Slot(0, 1, 0, 1)

  lemma InputWellFormed()
    ensures Decoding.WellFormed(Inp)
  {
    assert |Grid[0][0]| == 255 && |Grid[0][1]| == 255;
  }

  lemma SigmoidValues()
    ensures Decoding.Sigmoid(Exp, 0.0) == 1.0 / 2.0
    ensures Decoding.Sigmoid(Exp, 1.0) == 2.0 / 3.0
    ensures Decoding.Sigmoid(Exp, -1.0) == 1.0 / 3.0
  {
    assert Exp(-0.0) == 1.0;
    assert Exp(-1.0) == 0.5;
    // the `exp(-x)` term of Sigmoid at x = -1.0
    assert Exp(-(-1.0)) == 2.0;
  }

  /** The channels of a slot of the grid. */
  lemma ChannelOf(s: Decoding.Slot, c: nat)
    requires Decoding.WellFormed(Inp) && Decoding.ValidSlot(Inp, s) && c < Decoding.BlockWidth
    ensures s.cellY == 0 ==> Decoding.Channel(Inp, s, c) == 0.0
    ensures s.cellY == 1 ==> Decoding.Channel(Inp, s, c) == CellValue(s.anchor * Decoding.BlockWidth + c)
  {}

  /** Only the busy slot clears the threshold; every other slot sits at
      objectness 1/2, which the strict test rejects. */
  lemma OnlyBusyQualifies()
    requires Decoding.WellFormed(Inp)
    ensures forall s :: s in [Busy] <==> Decoding.ValidSlot(Inp, s) && Decoding.Qualifies(Inp, s)
  {
    SigmoidValues();
    forall s ensures s in [Busy] <==> Decoding.ValidSlot(Inp, s) && Decoding.Qualifies(Inp, s) {
      if Decoding.ValidSlot(Inp, s) {
        ChannelOf(s, 4);
        if s.cellY == 1 && s.anchor == 1 {
          assert Decoding.Channel(Inp, s, 4) == 1.0;
        } else if s.cellY == 1 {
          assert Decoding.Channel(Inp, s, 4) == 0.0;
        }
      }
    }
  }

  /** The class scores of the busy slot peak first at class 7. */
  lemma BusyLabel()
    requires Decoding.WellFormed(Inp)
    ensures Decoding.SlotLabel(Inp, Busy) == "truck"
  {
    var scores := Decoding.ClassScores(Inp, Busy);
    forall j | 0 <= j < |scores| ensures scores[j] == (if j == 7 then 1.0 else 0.0) {
      ChannelOf(Busy, 5 + j);
    }
    Decoding.ArgMaxUnique(scores, 7);
  }

  /** The busy slot's detection: centre `512 * (0 + 1/3)` and
      `256 * (1 + 2/3)`, size `156 * 2` by `198 * 1/2` from anchor 1 of the
      first row of the table. */
  lemma BusyDetection()
    requires Decoding.WellFormed(Inp)
    ensures Decoding.Emit(Inp, Busy) == Decoding.Detection("truck", 2.0 / 3.0, 512.0 / 3.0, 1280.0 / 3.0, 312.0, 99.0)
  {
    SigmoidValues();
    BusyLabel();
    ChannelOf(Busy, 0);
    ChannelOf(Busy, 1);
    ChannelOf(Busy, 2);
    ChannelOf(Busy, 3);
    ChannelOf(Busy, 4);
    assert Decoding.CellSize(512, 1) == 512;
    assert Decoding.CellSize(512, 2) == 256;
  }

  /** yolo/decode.py: one centre-form detection. */
  lemma DecodesOneDetection()
    ensures Decoding.WellFormed(Inp)
    ensures YoloDecode.DecodePred(Inp) == [Decoding.Detection("truck", 2.0 / 3.0, 512.0 / 3.0, 1280.0 / 3.0, 312.0, 99.0)]
  {
    InputWellFormed();
    OnlyBusyQualifies();
    YoloDecode.DecodePredInWalkOrder(Inp, [Busy]);
    BusyDetection();
  }

  /** src/decode.py: the same detection as a corner box, x edges from `y`
      and `w`, y edges from `x` and `h`. */
  lemma DecodesOneCornerBox()
    ensures Decoding.WellFormed(Inp)
    ensures SrcDecode.DecodePred(Inp)
      == [SrcDecode.CornerBox("truck", 2.0 / 3.0, 1280.0 / 3.0 - 156.0, 1280.0 / 3.0 + 156.0, 512.0 / 3.0 - 49.5, 512.0 / 3.0 + 49.5)]
  {
    InputWellFormed();
    OnlyBusyQualifies();
    SrcDecode.DecodePredInWalkOrder(Inp, [Busy]);
    BusyDetection();
  }
}
