/** `Frame.positionChildren`: once a frame's range on an axis is known, it
    checks that the frame and all its children are `exact`, writes every
    child's range on that axis (along the child sequence one after the
    other, with half of each neighbour's outer buffer between them; across
    it each child on its own), then positions the children of every frame
    child. The model returns the rewritten tree with the outcome; a raise
    leaves the tree as far as it got. */
module WidgetPosition {
  import opened Wrappers
  import opened WidgetTypes
  import opened WidgetSizing

  /** The tree `positionChildren` leaves, and whether it raised. */
  datatype Positioning = Positioning(tree: Node, outcome: Outcome<WidgetError>)

  /** The child list after the recursive loop, and whether it stopped. */
  datatype Descent = Descent(kids: seq<Node>, outcome: Outcome<WidgetError>)

  function RangeOf(w: Node, a: Axis): Option<Range>
  {
    w.axes.At(a).range
  }

  /** The widget with its range on axis a replaced; nothing else changes. */
  function SetRange(w: Node, a: Axis, rng: Option<Range>): (r: Node)
    ensures RangeOf(r, a) == rng && r.axes.At(a) == w.axes.At(a).(range := rng)
  {
    WithAxis(w, a, w.axes.At(a).(range := rng))
  }

  // ---- The checks.

  /** One test per child: it must be `exact`. */
  function ExactTests(w: Node, a: Axis): (s: seq<Outcome<WidgetError>>)
    requires w.Frame?
    ensures |s| == |w.childList|
    ensures forall i :: 0 <= i < |s| ==>
      s[i] == if DemandOf(w.childList[i], a) != Exact then Fail(ChildNotExact(w.name, a, w.childList[i].name)) else Pass
  {
    var kids := w.childList;
    seq(|kids|, i requires 0 <= i < |kids| =>
      if DemandOf(kids[i], a) != Exact then Fail(ChildNotExact(w.name, a, kids[i].name)) else Pass)
  }

  /** What `positionChildren` checks before it places anything: the range is
      set, the frame is exact, and so is every child, the first offender
      being reported. */
  function PlaceCheck(w: Node, a: Axis): (r: Outcome<WidgetError>)
    requires w.Frame?
    ensures r.Pass? <==>
      RangeOf(w, a).Some? && DemandOf(w, a) == Exact &&
      forall i :: 0 <= i < |w.childList| ==> DemandOf(w.childList[i], a) == Exact
    ensures RangeOf(w, a).None? ==> r == Fail(RangeUnset(w.name, a))
    ensures RangeOf(w, a).Some? && DemandOf(w, a) != Exact ==> r == Fail(FrameNotExact(w.name, a))
    ensures RangeOf(w, a).Some? && DemandOf(w, a) == Exact && r.Fail? ==>
      var j := FirstFailIndex(ExactTests(w, a));
      && j < |w.childList| && DemandOf(w.childList[j], a) != Exact
      && (forall k :: 0 <= k < j ==> DemandOf(w.childList[k], a) == Exact)
      && r == Fail(ChildNotExact(w.name, a, w.childList[j].name))
  {
    if RangeOf(w, a).None? then Fail(RangeUnset(w.name, a))
    else if DemandOf(w, a) != Exact then Fail(FrameNotExact(w.name, a))
    else FirstFail(ExactTests(w, a))
  }

  // ---- Where each child goes.

  /** The outer buffer room before child i of a run, and after it: none at
      the two ends of the run, half of the child's outer buffer elsewhere. */
  function LoBuf(ks: seq<Node>, a: Axis, i: nat): real
    requires i < |ks|
  {
    if i < 1 then 0.0 else Outer(ks[i], a) / 2.0
  }

  function HiBuf(ks: seq<Node>, a: Axis, i: nat): real
    requires i < |ks|
  {
    if i >= |ks| - 1 then 0.0 else Outer(ks[i], a) / 2.0
  }

  /** The source's `startPoint` once the first i children are placed. */
  function Cursor(ks: seq<Node>, a: Axis, start: real, per: real, i: nat): real
    requires i <= |ks|
  {
    if i == 0 then start
    else Cursor(ks, a, start, per, i - 1) + LoBuf(ks, a, i - 1) + SizeOf(ks[i - 1], a) + HiBuf(ks, a, i - 1) + per
  }

  /** The range of child i along the sequence. */
  function AlongSpot(ks: seq<Node>, a: Axis, start: real, per: real, i: nat): Range
    requires i < |ks|
  {
    var lo := Cursor(ks, a, start, per, i) + LoBuf(ks, a, i) + per / 2.0;
    Range(lo, lo + SizeOf(ks[i], a))
  }

  /** Where the run starts, by the frame's `alongJustify`. */
  function AlongStart(w: Node, a: Axis): real
    requires w.Frame? && RangeOf(w, a).Some?
  {
    var rg := RangeOf(w, a).value;
    var total := ParallelTotal(w.childList, a);
    match w.alongJustify
    case LeftOrDown => rg.lo + Inner(w, a) / 2.0
    case RightOrUp => rg.hi - Inner(w, a) / 2.0 - total
    case Centre => (rg.lo + rg.hi) / 2.0 - total / 2.0
    case Spread => rg.lo + Inner(w, a) / 2.0
  }

  /** The extra room per child under `spread`: the room left over, never
      negative, shared among all the children; none otherwise. */
  function AlongPer(w: Node, a: Axis): real
    requires w.Frame? && |w.childList| > 0
  {
    if w.alongJustify == Spread then
      var spareSpace := SizeOf(w, a) - Inner(w, a) - ParallelTotal(w.childList, a);
      (if spareSpace < 0.0 then 0.0 else spareSpace) / (|w.childList| as real)
    else 0.0
  }

  /** The range of child `c` across the sequence, by the frame's `crossJustify`. */
  function CrossSpot(w: Node, a: Axis, c: Node): Range
    requires RangeOf(w, a).Some? && w.Frame?
  {
    var rg := RangeOf(w, a).value;
    match w.crossJustify
    case CrossLeftOrDown =>
      var lo := rg.lo + Inner(w, a) / 2.0;
      Range(lo, lo + SizeOf(c, a))
    case CrossRightOrUp =>
      var hi := rg.hi - Inner(w, a) / 2.0;
      Range(hi - SizeOf(c, a), hi)
    case CrossCentre =>
      var lo := (rg.lo + rg.hi) / 2.0 - SizeOf(c, a) / 2.0;
      Range(lo, lo + SizeOf(c, a))
  }

  /** The range child i of frame w is given on axis a. */
  function Spot(w: Node, a: Axis, i: nat): Range
    requires w.Frame? && RangeOf(w, a).Some? && i < |w.childList|
  {
    if w.childSequenceDir == a then AlongSpot(w.childList, a, AlongStart(w, a), AlongPer(w, a), i)
    else CrossSpot(w, a, w.childList[i])
  }

  /** The children once the placing loop has given each its range. */
  function Placed(w: Node, a: Axis): (ks: seq<Node>)
    requires w.Frame? && RangeOf(w, a).Some?
    ensures |ks| == |w.childList|
    ensures forall i :: 0 <= i < |ks| ==> ks[i] == SetRange(w.childList[i], a, Some(Spot(w, a, i)))
  {
    seq(|w.childList|, i requires 0 <= i < |w.childList| => SetRange(w.childList[i], a, Some(Spot(w, a, i))))
  }

  // ---- The whole of positionChildren.

  /** `positionChildren(a)` on widget w once its range on axis a is `rng`.
      A widget without children (every non-Frame widget among them) is left
      as it is. */
  function PositionFrom(w: Node, a: Axis, rng: Option<Range>): (r: Positioning)
    ensures RangeOf(r.tree, a) == rng
    decreases w, 1
  {
    var w0 := SetRange(w, a, rng);
    if w.Leaf? || |w.childList| == 0 then Positioning(w0, Pass)
    else
      var check := PlaceCheck(w0, a);
      if check.Fail? then Positioning(w0, check)
      else
        var d := Descend(w, a, Placed(w0, a), 0);
        Positioning(w0.(childList := d.kids), d.outcome)
  }

  /** The recursive loop over the placed children `ks` from child i on,
      each positioned below with the range it was given, stopping at the
      first error. */
  function Descend(w: Node, a: Axis, ks: seq<Node>, i: nat): (r: Descent)
    requires w.Frame? && |ks| == |w.childList| && i <= |ks|
    ensures |r.kids| == |ks|
    decreases w, 0, |ks| - i
  {
    if i == |ks| then Descent(ks, Pass)
    else
      var s := PositionFrom(w.childList[i], a, RangeOf(ks[i], a));
      var ks' := ks[i := s.tree];
      if s.outcome.Fail? then Descent(ks', s.outcome) else Descend(w, a, ks', i + 1)
  }

  /** `positionChildren(a)` on w with the range it holds. */
  function Positioned(w: Node, a: Axis): Positioning
  {
    PositionFrom(w, a, RangeOf(w, a))
  }

  // ---- Placement along the sequence.

  /** Each child's range is as long as the child. */
  lemma AlongExtent(ks: seq<Node>, a: Axis, start: real, per: real, i: nat)
    requires i < |ks|
    ensures AlongSpot(ks, a, start, per, i).hi - AlongSpot(ks, a, start, per, i).lo == SizeOf(ks[i], a)
  {
  }

  /** Between two neighbours lies half of each one's outer buffer, plus the
      extra room per child. */
  lemma AlongGap(ks: seq<Node>, a: Axis, start: real, per: real, i: nat)
    requires i + 1 < |ks|
    ensures AlongSpot(ks, a, start, per, i + 1).lo - AlongSpot(ks, a, start, per, i).hi ==
      (Outer(ks[i], a) + Outer(ks[i + 1], a)) / 2.0 + per
  {
    assert Cursor(ks, a, start, per, i + 1) ==
      Cursor(ks, a, start, per, i) + LoBuf(ks, a, i) + SizeOf(ks[i], a) + HiBuf(ks, a, i) + per;
  }

  /** The first child starts half the extra room after the start point. */
  lemma AlongFirst(ks: seq<Node>, a: Axis, start: real, per: real)
    requires |ks| > 0
    ensures AlongSpot(ks, a, start, per, 0).lo == start + per / 2.0
  {
  }

  /** Before the last child, the cursor has advanced by the run length of
      the children passed and the extra room of each. */
  lemma {:induction false} CursorClosed(ks: seq<Node>, a: Axis, start: real, per: real, i: nat)
    requires i < |ks|
    ensures Cursor(ks, a, start, per, i) == start + ParallelSum(ks, a, i) + (i as real) * per
  {
    if i > 0 {
      CursorClosed(ks, a, start, per, i - 1);
      assert (i as real) * per == ((i - 1) as real) * per + per;
    }
  }

  /** With two or more children the last one ends the run length, plus the
      extra room, after the start point. */
  lemma AlongLast(ks: seq<Node>, a: Axis, start: real, per: real)
    requires |ks| >= 2
    ensures AlongSpot(ks, a, start, per, |ks| - 1).hi ==
      start + ParallelTotal(ks, a) + ((|ks| - 1) as real) * per + per / 2.0
  {
    CursorClosed(ks, a, start, per, |ks| - 1);
  }

  /** A single child ends half its outer buffer short of the run length,
      which counts that half buffer. */
  lemma AlongSingle(ks: seq<Node>, a: Axis, start: real, per: real)
    requires |ks| == 1
    ensures AlongSpot(ks, a, start, per, 0).hi == start + ParallelTotal(ks, a) - Outer(ks[0], a) / 2.0 + per / 2.0
  {
    ParallelTotalClosed(ks, a);
  }

  /** `leftOrDown` (and `spread`) start the first child at the frame's low
      end plus half its inner buffer (plus half the extra room). */
  lemma AlongLowEnd(w: Node, a: Axis)
    requires w.Frame? && RangeOf(w, a).Some? && |w.childList| > 0 && w.childSequenceDir == a
    requires w.alongJustify == LeftOrDown || w.alongJustify == Spread
    ensures Spot(w, a, 0).lo == RangeOf(w, a).value.lo + Inner(w, a) / 2.0 + AlongPer(w, a) / 2.0
    ensures w.alongJustify == LeftOrDown ==> Spot(w, a, 0).lo == RangeOf(w, a).value.lo + Inner(w, a) / 2.0
  {
    AlongFirst(w.childList, a, AlongStart(w, a), AlongPer(w, a));
  }

  /** `rightOrUp` ends a run of two or more children at the frame's high
      end less half its inner buffer; a single child stops short of it by
      half its own outer buffer. */
  lemma AlongHighEnd(w: Node, a: Axis)
    requires w.Frame? && RangeOf(w, a).Some? && |w.childList| > 0 && w.childSequenceDir == a
    requires w.alongJustify == RightOrUp
    ensures var n := |w.childList|;
      Spot(w, a, n - 1).hi == RangeOf(w, a).value.hi - Inner(w, a) / 2.0 -
        (if n == 1 then Outer(w.childList[0], a) / 2.0 else 0.0)
  {
    if |w.childList| == 1 {
      AlongSingle(w.childList, a, AlongStart(w, a), AlongPer(w, a));
    } else {
      AlongLast(w.childList, a, AlongStart(w, a), AlongPer(w, a));
    }
  }

  /** `centre` puts the middle of a run of two or more children on the
      frame's midpoint; a single child sits a quarter of its outer buffer
      below it. */
  lemma AlongCentred(w: Node, a: Axis)
    requires w.Frame? && RangeOf(w, a).Some? && |w.childList| > 0 && w.childSequenceDir == a
    requires w.alongJustify == Centre
    ensures var n := |w.childList|; var rg := RangeOf(w, a).value;
      Spot(w, a, 0).lo + Spot(w, a, n - 1).hi ==
        rg.lo + rg.hi - (if n == 1 then Outer(w.childList[0], a) / 2.0 else 0.0)
  {
    AlongFirst(w.childList, a, AlongStart(w, a), AlongPer(w, a));
    if |w.childList| == 1 {
      AlongSingle(w.childList, a, AlongStart(w, a), AlongPer(w, a));
    } else {
      AlongLast(w.childList, a, AlongStart(w, a), AlongPer(w, a));
    }
  }

  /** `spread` with room to spare and two or more children leaves half the
      extra room per child at each end: the run ends at the frame's low end
      plus its size, less half its inner buffer and half the extra room. */
  lemma AlongSpread(w: Node, a: Axis)
    requires w.Frame? && RangeOf(w, a).Some? && |w.childList| >= 2 && w.childSequenceDir == a
    requires w.alongJustify == Spread && SizeOf(w, a) - Inner(w, a) - ParallelTotal(w.childList, a) >= 0.0
    ensures var n := |w.childList|;
      Spot(w, a, n - 1).hi == RangeOf(w, a).value.lo + SizeOf(w, a) - Inner(w, a) / 2.0 - AlongPer(w, a) / 2.0
  {
    var n := |w.childList|;
    var per := AlongPer(w, a);
    var spare := SizeOf(w, a) - Inner(w, a) - ParallelTotal(w.childList, a);
    AlongLast(w.childList, a, AlongStart(w, a), per);
    assert (n as real) * per == spare;
    assert ((n - 1) as real) * per == (n as real) * per - per;
  }

  // ---- Placement across the sequence.

  /** Across the sequence every child keeps its length and is flush with the
      low or the high end less half the inner buffer, or centred. */
  lemma CrossPlacement(w: Node, a: Axis, i: nat)
    requires w.Frame? && RangeOf(w, a).Some? && i < |w.childList| && w.childSequenceDir != a
    ensures var s := Spot(w, a, i); var rg := RangeOf(w, a).value;
      && s.hi - s.lo == SizeOf(w.childList[i], a)
      && (w.crossJustify == CrossLeftOrDown ==> s.lo == rg.lo + Inner(w, a) / 2.0)
      && (w.crossJustify == CrossRightOrUp ==> s.hi == rg.hi - Inner(w, a) / 2.0)
      && (w.crossJustify == CrossCentre ==> s.lo + s.hi == rg.lo + rg.hi)
  {
  }

  /** Every child's range is as long as the child, on either axis. */
  lemma SpotExtent(w: Node, a: Axis, i: nat)
    requires w.Frame? && RangeOf(w, a).Some? && i < |w.childList|
    ensures Spot(w, a, i).hi - Spot(w, a, i).lo == SizeOf(w.childList[i], a)
  {
    if w.childSequenceDir == a {
      AlongExtent(w.childList, a, AlongStart(w, a), AlongPer(w, a), i);
    }
  }

  // ---- The recursion.

  /** The recursive loop from child i: earlier children untouched, each
      later one positioned below with its range, the run stopping at the
      first error. */
  lemma {:induction false} DescendEach(w: Node, a: Axis, ks: seq<Node>, i: nat)
    requires w.Frame? && |ks| == |w.childList| && i <= |ks|
    ensures var r := Descend(w, a, ks, i);
      && (forall j :: 0 <= j < i ==> r.kids[j] == ks[j])
      && (r.outcome.Pass? <==> forall j :: i <= j < |ks| ==> PositionFrom(w.childList[j], a, RangeOf(ks[j], a)).outcome.Pass?)
      && (r.outcome.Pass? ==> forall j :: i <= j < |ks| ==> r.kids[j] == PositionFrom(w.childList[j], a, RangeOf(ks[j], a)).tree)
    decreases |ks| - i
  {
    if i < |ks| {
      var s := PositionFrom(w.childList[i], a, RangeOf(ks[i], a));
      var ks' := ks[i := s.tree];
      if s.outcome.Pass? {
        DescendEach(w, a, ks', i + 1);
        assert forall j :: i < j < |ks| ==> ks'[j] == ks[j];
      }
    }
  }

  /** On success every child holds the range it was given and is
      positioned below it. */
  lemma PositionPlaces(w: Node, a: Axis, rng: Option<Range>)
    requires w.Frame? && |w.childList| > 0 && PositionFrom(w, a, rng).outcome.Pass?
    ensures var r := PositionFrom(w, a, rng); var w0 := SetRange(w, a, rng);
      && rng.Some? && |r.tree.childList| == |w.childList|
      && forall i :: 0 <= i < |w.childList| ==>
           && RangeOf(r.tree.childList[i], a) == Some(Spot(w0, a, i))
           && r.tree.childList[i] == PositionFrom(w.childList[i], a, Some(Spot(w0, a, i))).tree
  {
    var w0 := SetRange(w, a, rng);
    DescendEach(w, a, Placed(w0, a), 0);
  }

  /** A range written before positioning is overwritten by it. */
  lemma {:induction false} DescendSameKids(u: Node, v: Node, a: Axis, ks: seq<Node>, i: nat)
    requires u.Frame? && v.Frame? && u.childList == v.childList && |ks| == |u.childList| && i <= |ks|
    ensures Descend(u, a, ks, i) == Descend(v, a, ks, i)
    decreases |ks| - i
  {
    if i < |ks| {
      var s := PositionFrom(u.childList[i], a, RangeOf(ks[i], a));
      if s.outcome.Pass? {
        DescendSameKids(u, v, a, ks[i := s.tree], i + 1);
      }
    }
  }

  lemma RangeFree(w: Node, a: Axis, x: Option<Range>, rng: Option<Range>)
    ensures PositionFrom(SetRange(w, a, x), a, rng) == PositionFrom(w, a, rng)
  {
    assert SetRange(SetRange(w, a, x), a, rng) == SetRange(w, a, rng);
    if w.Frame? && |w.childList| > 0 && rng.Some? {
      var w0 := SetRange(w, a, rng);
      DescendSameKids(SetRange(w, a, x), w, a, Placed(w0, a), 0);
    }
  }

  /** The errors positioning can raise. */
  predicate PlaceError(e: WidgetError)
  {
    e.RangeUnset? || e.FrameNotExact? || e.ChildNotExact?
  }

  lemma {:induction false} PositionErrors(w: Node, a: Axis, rng: Option<Range>)
    ensures PositionFrom(w, a, rng).outcome.Fail? ==> PlaceError(PositionFrom(w, a, rng).outcome.error)
    decreases w, 1
  {
    if w.Frame? && |w.childList| > 0 {
      var w0 := SetRange(w, a, rng);
      if PlaceCheck(w0, a).Pass? {
        DescendErrors(w, a, Placed(w0, a), 0);
      }
    }
  }

  lemma {:induction false} DescendErrors(w: Node, a: Axis, ks: seq<Node>, i: nat)
    requires w.Frame? && |ks| == |w.childList| && i <= |ks|
    ensures Descend(w, a, ks, i).outcome.Fail? ==> PlaceError(Descend(w, a, ks, i).outcome.error)
    decreases w, 0, |ks| - i
  {
    if i < |ks| {
      var s := PositionFrom(w.childList[i], a, RangeOf(ks[i], a));
      PositionErrors(w.childList[i], a, RangeOf(ks[i], a));
      if s.outcome.Pass? {
        DescendErrors(w, a, ks[i := s.tree], i + 1);
      }
    }
  }

  /** Every widget in the tree has a range on the axis. */
  predicate AllRanged(w: Node, a: Axis)
  {
    RangeOf(w, a).Some? && (w.Frame? ==> forall i :: 0 <= i < |w.childList| ==> AllRanged(w.childList[i], a))
  }

  /** After a successful positioning from a set range, every widget below has
      its range on the axis. */
  lemma {:induction false} PositionRanges(w: Node, a: Axis, rng: Option<Range>)
    requires rng.Some? && PositionFrom(w, a, rng).outcome.Pass?
    ensures AllRanged(PositionFrom(w, a, rng).tree, a)
    decreases w, 1
  {
    if w.Frame? && |w.childList| > 0 {
      var w0 := SetRange(w, a, rng);
      DescendRanges(w, a, Placed(w0, a), 0);
    }
  }

  lemma {:induction false} DescendRanges(w: Node, a: Axis, ks: seq<Node>, i: nat)
    requires w.Frame? && |ks| == |w.childList| && i <= |ks|
    requires forall j :: 0 <= j < i ==> AllRanged(ks[j], a)
    requires forall j :: i <= j < |ks| ==> RangeOf(ks[j], a).Some?
    requires Descend(w, a, ks, i).outcome.Pass?
    ensures forall j :: 0 <= j < |ks| ==> AllRanged(Descend(w, a, ks, i).kids[j], a)
    decreases w, 0, |ks| - i
  {
    if i < |ks| {
      var s := PositionFrom(w.childList[i], a, RangeOf(ks[i], a));
      PositionRanges(w.childList[i], a, RangeOf(ks[i], a));
      DescendRanges(w, a, ks[i := s.tree], i + 1);
    }
  }

  /** Every widget strictly below w is `exact` on the axis. */
  predicate KidsExact(w: Node, a: Axis)
  {
    w.Frame? ==> forall i :: 0 <= i < |w.childList| ==>
      DemandOf(w.childList[i], a) == Exact && KidsExact(w.childList[i], a)
  }

  /** A successful positioning found every widget below `exact`. */
  lemma {:induction false} PositionExact(w: Node, a: Axis, rng: Option<Range>)
    requires PositionFrom(w, a, rng).outcome.Pass?
    ensures KidsExact(PositionFrom(w, a, rng).tree, a)
    decreases w, 1
  {
    if w.Frame? && |w.childList| > 0 {
      var w0 := SetRange(w, a, rng);
      assert PlaceCheck(w0, a).Pass?;
      DescendExact(w, a, Placed(w0, a), 0);
    }
  }

  lemma {:induction false} DescendExact(w: Node, a: Axis, ks: seq<Node>, i: nat)
    requires w.Frame? && |ks| == |w.childList| && i <= |ks|
    requires forall j :: 0 <= j < i ==> DemandOf(ks[j], a) == Exact && KidsExact(ks[j], a)
    requires forall j :: i <= j < |ks| ==> DemandOf(w.childList[j], a) == Exact
    requires Descend(w, a, ks, i).outcome.Pass?
    ensures forall j :: 0 <= j < |ks| ==>
      DemandOf(Descend(w, a, ks, i).kids[j], a) == Exact && KidsExact(Descend(w, a, ks, i).kids[j], a)
    decreases w, 0, |ks| - i
  {
    if i < |ks| {
      var s := PositionFrom(w.childList[i], a, RangeOf(ks[i], a));
      PositionExact(w.childList[i], a, RangeOf(ks[i], a));
      PositionKeeps(w.childList[i], a, RangeOf(ks[i], a));
      DescendExact(w, a, ks[i := s.tree], i + 1);
    }
  }

  /** Two trees that differ at most in their ranges on axis a. */
  predicate SameButRanges(u: Node, v: Node, a: Axis)
  {
    && u.Leaf? == v.Leaf? && u.name == v.name && u.isEnabled == v.isEnabled
    && u.axes.At(a).(range := None) == v.axes.At(a).(range := None)
    && (forall b: Axis :: b != a ==> u.axes.At(b) == v.axes.At(b))
    && (u.Frame? ==>
         && u.childSequenceDir == v.childSequenceDir
         && u.alongJustify == v.alongJustify && u.crossJustify == v.crossJustify
         && |u.childList| == |v.childList|
         && forall i :: 0 <= i < |u.childList| ==> SameButRanges(u.childList[i], v.childList[i], a))
  }

  lemma {:induction false} SameButRangesRefl(w: Node, a: Axis)
    ensures SameButRanges(w, w, a)
  {
    if w.Frame? {
      forall i | 0 <= i < |w.childList| {
        SameButRangesRefl(w.childList[i], a);
      }
    }
  }

  /** Positioning writes ranges on axis a and changes nothing else anywhere
      in the tree: sizes, demands and buffers stay as they were. */
  lemma {:induction false} PositionKeeps(w: Node, a: Axis, rng: Option<Range>)
    ensures SameButRanges(w, PositionFrom(w, a, rng).tree, a)
    decreases w, 1
  {
    SameButRangesRefl(w, a);
    if w.Frame? && |w.childList| > 0 && rng.Some? {
      var w0 := SetRange(w, a, rng);
      var ks := Placed(w0, a);
      forall j | 0 <= j < |ks|
        ensures SameButRanges(w.childList[j], ks[j], a)
      {
        SameButRangesRefl(w.childList[j], a);
      }
      DescendKeeps(w, a, ks, 0);
    }
  }

  lemma {:induction false} DescendKeeps(w: Node, a: Axis, ks: seq<Node>, i: nat)
    requires w.Frame? && |ks| == |w.childList| && i <= |ks|
    requires forall j :: 0 <= j < |ks| ==> SameButRanges(w.childList[j], ks[j], a)
    ensures forall j :: 0 <= j < |ks| ==> SameButRanges(w.childList[j], Descend(w, a, ks, i).kids[j], a)
    decreases w, 0, |ks| - i
  {
    if i < |ks| {
      var s := PositionFrom(w.childList[i], a, RangeOf(ks[i], a));
      PositionKeeps(w.childList[i], a, RangeOf(ks[i], a));
      if s.outcome.Pass? {
        DescendKeeps(w, a, ks[i := s.tree], i + 1);
      }
    }
  }

  // ---- The source's loops, proved against the functions above.

  method PositionChildren(w: Node, a: Axis) returns (r: Positioning)
    ensures r == Positioned(w, a)
    decreases NodeCount(w), 1
  {
    assert SetRange(w, a, RangeOf(w, a)) == w;
    if w.Leaf? || |w.childList| == 0 {
      return Positioning(w, Pass);
    }
    var l := w.axes.At(a);
    if l.range.None? {
      return Positioning(w, Fail(RangeUnset(w.name, a)));
    }
    if l.spaceDemand != Exact {
      return Positioning(w, Fail(FrameNotExact(w.name, a)));
    }
    var kids := w.childList;
    ghost var tests := ExactTests(w, a);
    for i := 0 to |kids|
      invariant forall j :: 0 <= j < i ==> tests[j].Pass?
    {
      if kids[i].axes.At(a).spaceDemand != Exact {
        assert FirstFailIndex(tests) == i;
        return Positioning(w, Fail(ChildNotExact(w.name, a, kids[i].name)));
      }
    }
    var ks;
    if w.childSequenceDir == a {
      ks := PlaceAlong(w, a);
    } else {
      ks := PlaceAcross(w, a);
    }
    var d := PositionEach(w, a, ks);
    return Positioning(w.(childList := d.kids), d.outcome);
  }

  /** The placing loop along the sequence, advancing `startPoint`. */
  method PlaceAlong(w: Node, a: Axis) returns (ks: seq<Node>)
    requires w.Frame? && RangeOf(w, a).Some? && |w.childList| > 0 && w.childSequenceDir == a
    ensures ks == Placed(w, a)
  {
    var kids := w.childList;
    var numChildren := |kids|;
    var l := w.axes.At(a);
    var rg := l.range.value;
    var totalChildrenSize := CalcTotalSizeParallelChildren(w, a);
    var spareSpacePerChild := 0.0;
    var startPoint: real;
    match w.alongJustify {
      case LeftOrDown =>
        startPoint := rg.lo + l.innerBuffer / 2.0;
      case RightOrUp =>
        startPoint := rg.hi - l.innerBuffer / 2.0 - totalChildrenSize;
      case Centre =>
        startPoint := (rg.lo + rg.hi) / 2.0 - totalChildrenSize / 2.0;
      case Spread =>
        startPoint := rg.lo + l.innerBuffer / 2.0;
        var spareSpace := l.size - l.innerBuffer - totalChildrenSize;
        if spareSpace < 0.0 {
          spareSpace := 0.0;
        }
        spareSpacePerChild := spareSpace / (numChildren as real);
    }
    assert startPoint == AlongStart(w, a) && spareSpacePerChild == AlongPer(w, a);
    ks := PlaceRun(kids, a, startPoint, spareSpacePerChild);
  }

  /** The loop itself: each child given its range from `startPoint`, which
      then moves past the child, its buffers and the extra room. */
  method PlaceRun(kids: seq<Node>, a: Axis, start: real, spareSpacePerChild: real) returns (ks: seq<Node>)
    ensures |ks| == |kids|
    ensures forall j :: 0 <= j < |ks| ==> ks[j] == SetRange(kids[j], a, Some(AlongSpot(kids, a, start, spareSpacePerChild, j)))
  {
    var numChildren := |kids|;
    var startPoint := start;
    ks := kids;
    for i := 0 to numChildren
      invariant |ks| == numChildren
      invariant startPoint == Cursor(kids, a, start, spareSpacePerChild, i)
      invariant forall j :: 0 <= j < i ==> ks[j] == SetRange(kids[j], a, Some(AlongSpot(kids, a, start, spareSpacePerChild, j)))
      invariant forall j :: i <= j < numChildren ==> ks[j] == kids[j]
    {
      var child := ks[i];
      var loBuffer := if i < 1 then 0.0 else child.axes.At(a).outerBuffer / 2.0;
      var hiBuffer := if i >= numChildren - 1 then 0.0 else child.axes.At(a).outerBuffer / 2.0;
      var xyLo := startPoint + loBuffer + spareSpacePerChild / 2.0;
      var xyHi := xyLo + child.axes.At(a).size;
      assert Range(xyLo, xyHi) == AlongSpot(kids, a, start, spareSpacePerChild, i);
      ks := ks[i := SetRange(child, a, Some(Range(xyLo, xyHi)))];
      startPoint := startPoint + loBuffer + child.axes.At(a).size + hiBuffer + spareSpacePerChild;
    }
  }

  /** The placing loops across the sequence, one per `crossJustify`. */
  method PlaceAcross(w: Node, a: Axis) returns (ks: seq<Node>)
    requires w.Frame? && RangeOf(w, a).Some? && w.childSequenceDir != a
    ensures ks == Placed(w, a)
  {
    var kids := w.childList;
    var l := w.axes.At(a);
    var rg := l.range.value;
    ks := kids;
    match w.crossJustify {
      case CrossLeftOrDown =>
        var startPoint := rg.lo + l.innerBuffer / 2.0;
        for i := 0 to |kids|
          invariant |ks| == |kids|
          invariant forall j :: 0 <= j < i ==> ks[j] == SetRange(kids[j], a, Some(Spot(w, a, j)))
        {
          var xyLo := startPoint;
          var xyHi := xyLo + kids[i].axes.At(a).size;
          ks := ks[i := SetRange(kids[i], a, Some(Range(xyLo, xyHi)))];
        }
      case CrossRightOrUp =>
        var startPoint := rg.hi - l.innerBuffer / 2.0;
        for i := 0 to |kids|
          invariant |ks| == |kids|
          invariant forall j :: 0 <= j < i ==> ks[j] == SetRange(kids[j], a, Some(Spot(w, a, j)))
        {
          var xyHi := startPoint;
          var xyLo := xyHi - kids[i].axes.At(a).size;
          ks := ks[i := SetRange(kids[i], a, Some(Range(xyLo, xyHi)))];
        }
      case CrossCentre =>
        var startPoint := (rg.lo + rg.hi) / 2.0;
        for i := 0 to |kids|
          invariant |ks| == |kids|
          invariant forall j :: 0 <= j < i ==> ks[j] == SetRange(kids[j], a, Some(Spot(w, a, j)))
        {
          var xyLo := startPoint - kids[i].axes.At(a).size / 2.0;
          var xyHi := xyLo + kids[i].axes.At(a).size;
          ks := ks[i := SetRange(kids[i], a, Some(Range(xyLo, xyHi)))];
        }
    }
    assert ks == Placed(w, a);
  }

  /** The recursive loop: every frame child positions its own children. */
  method PositionEach(w: Node, a: Axis, ks: seq<Node>) returns (r: Descent)
    requires w.Frame? && |ks| == |w.childList|
    requires forall j :: 0 <= j < |ks| ==> ks[j] == SetRange(w.childList[j], a, RangeOf(ks[j], a))
    ensures r == Descend(w, a, ks, 0)
    decreases NodeCount(w), 0
  {
    var cs := ks;
    var i := 0;
    while i < |cs|
      invariant i <= |cs| == |ks|
      invariant forall j :: i <= j < |cs| ==> cs[j] == ks[j]
      invariant Descend(w, a, cs, i) == Descend(w, a, ks, 0)
    {
      var c := w.childList[i];
      RangeFree(c, a, RangeOf(ks[i], a), RangeOf(ks[i], a));
      if cs[i].Frame? {
        var s := PositionChildren(cs[i], a);
        cs := cs[i := s.tree];
        if s.outcome.Fail? {
          return Descent(cs, s.outcome);
        }
      } else {
        assert cs[i := cs[i]] == cs;
      }
      i := i + 1;
    }
    return Descent(cs, Pass);
  }

  // ---- What positioning one axis leaves of the others.

  lemma {:induction false} SameButRangesShape(u: Node, v: Node, a: Axis)
    requires SameButRanges(u, v, a)
    ensures SameShape(u, v)
  {
    if u.Frame? {
      forall i | 0 <= i < |u.childList| {
        SameButRangesShape(u.childList[i], v.childList[i], a);
      }
    }
  }

  /** Positioning on axis a keeps every range on another axis. */
  lemma {:induction false} RangedKept(u: Node, v: Node, a: Axis, b: Axis)
    requires SameButRanges(u, v, a) && b != a && AllRanged(u, b)
    ensures AllRanged(v, b)
  {
    if u.Frame? {
      forall i | 0 <= i < |u.childList| {
        RangedKept(u.childList[i], v.childList[i], a, b);
      }
    }
  }

  /** Positioning changes no demand on any axis. */
  lemma {:induction false} ExactKept(u: Node, v: Node, a: Axis, b: Axis)
    requires SameButRanges(u, v, a) && KidsExact(u, b)
    ensures KidsExact(v, b)
  {
    if u.Frame? {
      forall i | 0 <= i < |u.childList|
        ensures DemandOf(v.childList[i], b) == Exact && KidsExact(v.childList[i], b)
      {
        assert SameButRanges(u.childList[i], v.childList[i], a);
        assert DemandOf(u.childList[i], b) == Exact;
        ExactKept(u.childList[i], v.childList[i], a, b);
      }
    }
  }
}
