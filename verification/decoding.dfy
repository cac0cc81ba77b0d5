/** The walk of `decode_pred` that both decoder variants share: over the
    prediction tensors of the three scales, the three anchors of each scale
    and every grid cell, keeping the cells whose objectness clears the
    threshold and turning each into a centre-form detection. */
module Decoding {

  /** Class scores per anchor block. */
  const ClassCount: nat := 80
  /** Channels per anchor block: four box offsets, one objectness score and
      the class scores. */
  const BlockWidth: nat := 5 + ClassCount
  /** Anchor blocks per scale. */
  const AnchorsPerScale: nat := 3

  /** `np.exp`, left abstract: any function that is positive everywhere. */
  type Exp = f: real -> real | forall t :: f(t) > 0.0 witness (t: real) => 1.0

  /** `sigmoid(x) = 1/(1 + exp(-x))`, written from the abstract exp. */
  function Sigmoid(exp: Exp, t: real): (s: real)
    ensures 0.0 < s < 1.0
  {
    var e := exp(-t);
    assert 1.0 + e > 1.0;
    1.0 / (1.0 + e)
  }

  /** An anchor prior in model-input pixels. */
  datatype Anchor = Anchor(width: int, height: int)

  /** The anchor table: one row per scale, coarsest grid first. */
  const Anchors: seq<seq<Anchor>> := [
    [Anchor(116, 90), Anchor(156, 198), Anchor(373, 326)],
    [Anchor(30, 61), Anchor(62, 45), Anchor(59, 119)],
    [Anchor(10, 13), Anchor(16, 30), Anchor(33, 23)]
  ]

  lemma AnchorsPositive()
    ensures |Anchors| == 3
    ensures forall i, j :: 0 <= i < |Anchors| && 0 <= j < |Anchors[i]| ==>
      |Anchors[i]| == AnchorsPerScale && Anchors[i][j].width > 0 && Anchors[i][j].height > 0
  {}

  /** One scale's raw output, indexed `[cell_x][cell_y][channel]`. */
  type Tensor = seq<seq<seq<real>>>

  /** A detection in centre form `[label, confidence, x, y, w, h]`; `name` is
      the class label. */
  datatype Detection = Detection(name: string, confidence: real, x: real, y: real, w: real, h: real)

  /** Everything `decode_pred` reads: the abstract exp, the tensors, the
      model input size, the label list `get_labels` would load, and the
      threshold. */
  datatype Input = Input(exp: Exp, preds: seq<Tensor>, yoloSize: int, labels: seq<string>, threshold: real)

  /** A non-empty rectangular grid whose cells each hold the three anchor
      blocks. An empty grid makes `int(yolo_size / 0)` raise. */
  predicate WellFormedTensor(t: Tensor)
  {
    && |t| > 0
    && |t[0]| > 0
    && (forall cx :: 0 <= cx < |t| ==> |t[cx]| == |t[0]|)
    && (forall cx, cy :: 0 <= cx < |t| && 0 <= cy < |t[cx]| ==> |t[cx][cy]| >= AnchorsPerScale * BlockWidth)
  }

  /** The indexing `decode_pred` does cannot fail: at most one tensor per row
      of the anchor table, well-formed tensors, a label for every class. */
  predicate WellFormed(inp: Input)
  {
    && |inp.preds| <= |Anchors|
    && (forall n :: 0 <= n < |inp.preds| ==> WellFormedTensor(inp.preds[n]))
    && |inp.labels| >= ClassCount
  }

  /** `int(yolo_size / n_cells)`: true division truncated toward zero. */
  function CellSize(yoloSize: int, cells: nat): (c: int)
    requires cells > 0
    ensures 0 <= yoloSize ==> 0 <= c && c * cells <= yoloSize < (c + 1) * cells
    ensures yoloSize < 0 ==> c <= 0 && (c - 1) * cells < yoloSize <= c * cells
  {
    if yoloSize >= 0 then
      var q := yoloSize / cells;
      DivisionBounds(yoloSize, cells, q);
      q
    else
      var q := (-yoloSize) / cells;
      DivisionBounds(-yoloSize, cells, q);
      NegatedBounds(-yoloSize, cells, q, -q);
      -q
  }

  /** Floor division of naturals: `q * b <= a < (q + 1) * b`. */
  lemma DivisionBounds(a: nat, b: nat, q: int)
    requires b > 0 && q == a / b
    ensures 0 <= q && q * b <= a < (q + 1) * b
  {
    assert a == q * b + a % b;
    assert (q + 1) * b == q * b + b;
  }

  /** Negating both the dividend and the quotient mirrors the bounds. */
  lemma NegatedBounds(a: int, b: int, q: int, c: int)
    requires q * b <= a < (q + 1) * b && c == -q
    ensures (c - 1) * b < -a <= c * b
  {
    assert (c - 1) * b == -((q + 1) * b);
    assert c * b == -(q * b);
  }

  /** `i` is the first position of a largest score in `scores`. */
  predicate IsFirstMax(scores: seq<real>, i: nat)
  {
    && i < |scores|
    && (forall j :: 0 <= j < |scores| ==> scores[j] <= scores[i])
    && (forall j :: 0 <= j < i ==> scores[j] < scores[i])
  }

  /** `np.argmax`: the position of the first largest score. */
  function ArgMax(s: seq<real>): (i: nat)
    requires |s| > 0
    ensures IsFirstMax(s, i)
    decreases |s|
  {
    if |s| == 1 then 0
    else
      var m := ArgMax(s[..|s| - 1]);
      assert forall j :: 0 <= j < |s| - 1 ==> s[..|s| - 1][j] == s[j];
      if s[|s| - 1] > s[m] then |s| - 1 else m
  }

  /** The first largest position is unique, so any index with that property
      is the one `ArgMax` returns. */
  lemma ArgMaxUnique(s: seq<real>, i: nat)
    requires IsFirstMax(s, i)
    ensures ArgMax(s) == i
  {
  }

  /** One (scale, anchor, cell) position of the walk. */
  datatype Slot = Slot(scale: nat, anchor: nat, cellX: nat, cellY: nat)

  predicate ValidSlot(inp: Input, s: Slot)
  {
    && s.scale < |inp.preds|
    && s.anchor < AnchorsPerScale
    && s.cellX < |inp.preds[s.scale]|
    && s.cellY < |inp.preds[s.scale][s.cellX]|
  }

  /** Channel `c` of the slot's anchor block: `anchor[cell_x, cell_y, c]`. */
  function Channel(inp: Input, s: Slot, c: nat): real
    requires WellFormed(inp) && ValidSlot(inp, s) && c < BlockWidth
  {
    inp.preds[s.scale][s.cellX][s.cellY][s.anchor * BlockWidth + c]
  }

  /** The class slice `anchor[cell_x, cell_y, 5:]`. */
  function ClassScores(inp: Input, s: Slot): (scores: seq<real>)
    requires WellFormed(inp) && ValidSlot(inp, s)
    ensures |scores| == ClassCount
    ensures forall c :: 0 <= c < ClassCount ==> scores[c] == Channel(inp, s, 5 + c)
  {
    var base := s.anchor * BlockWidth;
    inp.preds[s.scale][s.cellX][s.cellY][base + 5 .. base + BlockWidth]
  }

  /** `sigmoid(anchor[cell_x, cell_y, 4])`, the detection's confidence. It
      always lies strictly between 0 and 1. */
  function Objectness(inp: Input, s: Slot): (o: real)
    requires WellFormed(inp) && ValidSlot(inp, s)
    ensures 0.0 < o < 1.0
  {
    Sigmoid(inp.exp, Channel(inp, s, 4))
  }

  /** The strict `confidence > threshold` test. No slot passes a threshold
      of 1 or more, and every slot passes a negative one. */
  predicate Qualifies(inp: Input, s: Slot)
    requires WellFormed(inp) && ValidSlot(inp, s)
    ensures inp.threshold >= 1.0 ==> !Qualifies(inp, s)
    ensures inp.threshold < 0.0 ==> Qualifies(inp, s)
  {
    Objectness(inp, s) > inp.threshold
  }

  /** `v` lies strictly inside cell number `cell` of a grid with cells of
      size `cs`, when that size is positive. */
  predicate InCell(cs: int, cell: nat, v: real)
  {
    cs > 0 ==> cs as real * cell as real < v < cs as real * (cell as real + 1.0)
  }

  /** `cell_size * (cell + sigmoid(offset))`: a centre that lies strictly
      inside its cell whenever the cell has a positive size. */
  function CellCentre(cs: int, cell: nat, offset: real): (c: real)
    requires 0.0 < offset < 1.0
    ensures InCell(cs, cell, c)
  {
    CentreBounds(cs as real, cell as real, offset);
    cs as real * (cell as real + offset)
  }

  /** A positive `size` stretches `cell < cell + offset < cell + 1` alike. */
  lemma CentreBounds(size: real, cell: real, offset: real)
    requires 0.0 < offset < 1.0
    ensures size > 0.0 ==> size * cell < size * (cell + offset) < size * (cell + 1.0)
  {
    if size > 0.0 {
      assert size * (cell + offset) - size * cell == size * offset;
      assert size * (cell + 1.0) - size * (cell + offset) == size * (1.0 - offset);
      assert size * offset > 0.0;
      assert size * (1.0 - offset) > 0.0;
    }
  }

  /** `anchor_side * np.exp(t)`: positive, since both factors are. */
  function AnchorScaled(side: int, e: real): (v: real)
    requires side > 0 && e > 0.0
    ensures v > 0.0
  {
    side as real * e
  }

  /** The label `labels[np.argmax(class slice)]` of a slot. */
  function SlotLabel(inp: Input, s: Slot): (name: string)
    requires WellFormed(inp) && ValidSlot(inp, s)
    ensures exists i: nat :: IsFirstMax(ClassScores(inp, s), i) && name == inp.labels[i]
  {
    var i := ArgMax(ClassScores(inp, s));
    assert IsFirstMax(ClassScores(inp, s), i);
    inp.labels[i]
  }

  /** The detection a qualifying slot contributes: centre from the cell index
      plus a sigmoid offset, size from the anchor times exp, label from the
      arg-max over the class scores. */
  function Emit(inp: Input, s: Slot): Detection
    requires WellFormed(inp) && ValidSlot(inp, s)
  {
    var t := inp.preds[s.scale];
    var anchor := Anchors[s.scale][s.anchor];
    AnchorsPositive();
    var x := CellCentre(CellSize(inp.yoloSize, |t|), s.cellX, Sigmoid(inp.exp, Channel(inp, s, 0)));
    var y := CellCentre(CellSize(inp.yoloSize, |t[0]|), s.cellY, Sigmoid(inp.exp, Channel(inp, s, 1)));
    var w := AnchorScaled(anchor.width, inp.exp(Channel(inp, s, 2)));
    var h := AnchorScaled(anchor.height, inp.exp(Channel(inp, s, 3)));
    Detection(SlotLabel(inp, s), Objectness(inp, s), x, y, w, h)
  }

  /** The detection of a slot has the slot's objectness as its confidence,
      positive extents, the arg-max label, and a centre inside the slot's
      grid cell. */
  lemma EmitFacts(inp: Input, s: Slot)
    requires WellFormed(inp) && ValidSlot(inp, s)
    ensures var d := Emit(inp, s);
      && d.confidence == Objectness(inp, s) && 0.0 < d.confidence < 1.0
      && d.w > 0.0 && d.h > 0.0
      && (exists i: nat :: IsFirstMax(ClassScores(inp, s), i) && d.name == inp.labels[i])
      && InCell(CellSize(inp.yoloSize, |inp.preds[s.scale]|), s.cellX, d.x)
      && InCell(CellSize(inp.yoloSize, |inp.preds[s.scale][0]|), s.cellY, d.y)
  {
  }

  /** Slot `s` is visited, qualifies, and yields `d`. */
  predicate Produces(inp: Input, s: Slot, d: Detection)
    requires WellFormed(inp)
  {
    ValidSlot(inp, s) && Qualifies(inp, s) && d == Emit(inp, s)
  }

  /** The order of the walk: scale first, then anchor block, then `cell_x`,
      then `cell_y`. */
  predicate SlotBefore(a: Slot, b: Slot)
  {
    || a.scale < b.scale
    || (a.scale == b.scale && a.anchor < b.anchor)
    || (a.scale == b.scale && a.anchor == b.anchor && a.cellX < b.cellX)
    || (a.scale == b.scale && a.anchor == b.anchor && a.cellX == b.cellX && a.cellY < b.cellY)
  }

  /** Slots listed in walk order, each once. */
  predicate InWalkOrder(slots: seq<Slot>)
  {
    forall i, j :: 0 <= i < j < |slots| ==> SlotBefore(slots[i], slots[j])
  }

  /** Two lists in walk order with the same slots are the same list: walk
      order fixes both the order and the multiplicity. */
  lemma {:induction false} WalkOrderUnique(a: seq<Slot>, b: seq<Slot>)
    requires InWalkOrder(a) && InWalkOrder(b)
    requires forall s :: s in a <==> s in b
    ensures a == b
    decreases |a|
  {
    if |a| == 0 {
      HeadIsMember(b);
    } else {
      assert a[0] in b;
      assert |b| > 0;
      assert b[0] in a;
      assert a[0] == b[0];
      forall s ensures s in a[1..] <==> s in b[1..] {
        if s in a[1..] {
          assert s != a[0];
          assert s in b;
        }
        if s in b[1..] {
          assert s != b[0];
          assert s in a;
        }
      }
      WalkOrderUnique(a[1..], b[1..]);
      assert a == [a[0]] + a[1..];
      assert b == [b[0]] + b[1..];
    }
  }

  lemma HeadIsMember<T>(s: seq<T>)
    ensures |s| > 0 ==> s[0] in s
  {}

  /** Two lists in walk order, every slot of the first before every slot of
      the second, stay in walk order when joined. */
  lemma JoinInWalkOrder(a: seq<Slot>, b: seq<Slot>)
    requires InWalkOrder(a) && InWalkOrder(b)
    requires forall x, y :: x in a && y in b ==> SlotBefore(x, y)
    ensures InWalkOrder(a + b)
  {
    forall i, j | 0 <= i < j < |a + b| ensures SlotBefore((a + b)[i], (a + b)[j]) {
      if j < |a| {
        assert (a + b)[i] == a[i] && (a + b)[j] == a[j];
      } else if i >= |a| {
        assert (a + b)[i] == b[i - |a|] && (a + b)[j] == b[j - |a|];
      } else {
        assert (a + b)[i] == a[i] && (a + b)[j] == b[j - |a|];
        assert a[i] in a && b[j - |a|] in b;
      }
    }
  }

  /** The inner loop over `cell_y`: the qualifying slots of cells
      `(cell_x, 0 .. count-1)` of one anchor block, in walk order. */
  function RowSlots(inp: Input, scale: nat, anchor: nat, cellX: nat, count: nat): (r: seq<Slot>)
    requires WellFormed(inp) && scale < |inp.preds| && anchor < AnchorsPerScale
    requires cellX < |inp.preds[scale]| && count <= |inp.preds[scale][cellX]|
    ensures InWalkOrder(r)
    ensures forall s :: s in r <==>
      s.scale == scale && s.anchor == anchor && s.cellX == cellX && s.cellY < count && ValidSlot(inp, s) && Qualifies(inp, s)
  {
    if count == 0 then []
    else
      var last := Slot(scale, anchor, cellX, count - 1);
      var prev := RowSlots(inp, scale, anchor, cellX, count - 1);
      var here := if Qualifies(inp, last) then [last] else [];
      JoinInWalkOrder(prev, here);
      prev + here
  }

  /** The loop over `product(range(n_cells_x), range(n_cells_y))`: the
      qualifying slots of rows `0 .. count-1` of one anchor block. */
  function GridSlots(inp: Input, scale: nat, anchor: nat, count: nat): (r: seq<Slot>)
    requires WellFormed(inp) && scale < |inp.preds| && anchor < AnchorsPerScale
    requires count <= |inp.preds[scale]|
    ensures InWalkOrder(r)
    ensures forall s :: s in r <==>
      s.scale == scale && s.anchor == anchor && s.cellX < count && ValidSlot(inp, s) && Qualifies(inp, s)
  {
    if count == 0 then []
    else
      var prev := GridSlots(inp, scale, anchor, count - 1);
      var row := RowSlots(inp, scale, anchor, count - 1, |inp.preds[scale][count - 1]|);
      JoinInWalkOrder(prev, row);
      prev + row
  }

  /** The qualifying slots of anchor blocks `0 .. count-1` of one scale. */
  function ScaleSlots(inp: Input, scale: nat, count: nat): (r: seq<Slot>)
    requires WellFormed(inp) && scale < |inp.preds| && count <= AnchorsPerScale
    ensures InWalkOrder(r)
    ensures forall s :: s in r <==> s.scale == scale && s.anchor < count && ValidSlot(inp, s) && Qualifies(inp, s)
  {
    if count == 0 then []
    else
      var prev := ScaleSlots(inp, scale, count - 1);
      var block := GridSlots(inp, scale, count - 1, |inp.preds[scale]|);
      JoinInWalkOrder(prev, block);
      prev + block
  }

  /** The loop over `product(range(n_preds), range(n_anchors))`: the
      qualifying slots of scales `0 .. count-1`. */
  function ScalesSlots(inp: Input, count: nat): (r: seq<Slot>)
    requires WellFormed(inp) && count <= |inp.preds|
    ensures InWalkOrder(r)
    ensures forall s :: s in r <==> s.scale < count && ValidSlot(inp, s) && Qualifies(inp, s)
  {
    if count == 0 then []
    else
      var prev := ScalesSlots(inp, count - 1);
      var more := ScaleSlots(inp, count - 1, AnchorsPerScale);
      JoinInWalkOrder(prev, more);
      prev + more
  }

  /** Every slot that clears the threshold, once each, in walk order. */
  function QualifyingSlots(inp: Input): (r: seq<Slot>)
    requires WellFormed(inp)
    ensures InWalkOrder(r)
    ensures forall s :: s in r <==> ValidSlot(inp, s) && Qualifies(inp, s)
  {
    ScalesSlots(inp, |inp.preds|)
  }

  /** `f` applied along `slots`, keeping their order. */
  function MapSlots<T>(slots: seq<Slot>, f: Slot --> T): (r: seq<T>)
    requires forall s :: s in slots ==> f.requires(s)
    ensures |r| == |slots|
    ensures forall i :: 0 <= i < |slots| ==> r[i] == f(slots[i])
  {
    if |slots| == 0 then [] else [f(slots[0])] + MapSlots(slots[1..], f)
  }

  lemma MapSlotsMembers<T>(slots: seq<Slot>, f: Slot --> T)
    requires forall s :: s in slots ==> f.requires(s)
    ensures forall v :: v in MapSlots(slots, f) <==> exists s :: s in slots && v == f(s)
  {
    var r := MapSlots(slots, f);
    forall v | v in r ensures exists s :: s in slots && v == f(s) {
      var i :| 0 <= i < |r| && r[i] == v;
      assert slots[i] in slots;
    }
    forall v | exists s :: s in slots && v == f(s) ensures v in r {
      var s :| s in slots && v == f(s);
      var i :| 0 <= i < |slots| && slots[i] == s;
      assert r[i] == v;
    }
  }

  /** decode_pred in centre form: each slot the walk finds qualifying, in
      the order it finds them, appends the detection it yields. So a
      detection is produced exactly when some visited slot clears the
      threshold and yields it. */
  function DecodeCentres(inp: Input): (r: seq<Detection>)
    requires WellFormed(inp)
    ensures forall d :: d in r <==> exists s: Slot :: Produces(inp, s, d)
  {
    var slots := QualifyingSlots(inp);
    var emit := (s: Slot) requires WellFormed(inp) && ValidSlot(inp, s) => Emit(inp, s);
    var r := MapSlots(slots, emit);
    MapSlotsMembers(slots, emit);
    forall d | d in r ensures exists s: Slot :: Produces(inp, s, d) {
      var s :| s in slots && d == emit(s);
      assert Produces(inp, s, d);
    }
    forall d | exists s: Slot :: Produces(inp, s, d) ensures d in r {
      var s: Slot :| Produces(inp, s, d);
      assert s in slots && d == emit(s);
    }
    r
  }

  /** decode_pred emits exactly one detection per qualifying slot, in walk
      order: for any list of the qualifying slots in that order, the i-th
      detection is the one the i-th slot yields. */
  lemma DecodeCentresInWalkOrder(inp: Input, slots: seq<Slot>)
    requires WellFormed(inp) && InWalkOrder(slots)
    requires forall s :: s in slots <==> ValidSlot(inp, s) && Qualifies(inp, s)
    ensures |DecodeCentres(inp)| == |slots|
    ensures forall i :: 0 <= i < |slots| ==> DecodeCentres(inp)[i] == Emit(inp, slots[i])
  {
    WalkOrderUnique(slots, QualifyingSlots(inp));
  }

  /** Every decoded detection clears the threshold strictly, is a confidence
      below one, has positive size and carries the arg-max label of the slot
      it came from, with its centre inside that slot's grid cell. */
  lemma DecodedDetectionFacts(inp: Input, d: Detection)
    requires WellFormed(inp) && d in DecodeCentres(inp)
    ensures inp.threshold < d.confidence < 1.0
    ensures d.w > 0.0 && d.h > 0.0
    ensures d.name in inp.labels
    ensures exists s: Slot ::
      Produces(inp, s, d) && (exists i: nat :: IsFirstMax(ClassScores(inp, s), i) && d.name == inp.labels[i])
  {
    var s: Slot :| Produces(inp, s, d);
    EmitFacts(inp, s);
    var i: nat :| IsFirstMax(ClassScores(inp, s), i) && d.name == inp.labels[i];
    assert i < ClassCount <= |inp.labels|;
  }

  /** A slot whose confidence equals the threshold is skipped. */
  lemma ThresholdIsStrict(inp: Input, s: Slot)
    requires WellFormed(inp) && ValidSlot(inp, s) && Objectness(inp, s) == inp.threshold
    ensures forall d :: d in DecodeCentres(inp) ==> d.confidence != inp.threshold
    ensures !Qualifies(inp, s)
  {
    forall d | d in DecodeCentres(inp) ensures d.confidence != inp.threshold {
      var t :| Produces(inp, t, d);
    }
  }
}
