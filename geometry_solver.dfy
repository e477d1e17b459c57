/** The solver object (`Geometry`): construction, then `calcRanges(di)`,
    which resolves one axis of the tree in four phases (capacity check,
    shrink, expand, positioning) and leaves every other axis alone. */
module GeometrySolver {
  import opened Wrappers
  import opened GeometryTypes
  import opened GeometryChecks
  import opened GeometryShrink
  import opened GeometryExpand
  import opened GeometryPosition
  import opened GeometryBuild

  /** The tree as `calcRanges` leaves it, and whether it raised. A raise
      after the capacity check leaves the tree as far as it got. */
  datatype Resolution = Resolution(tree: Widget, outcome: Outcome<LayoutError>)

  /** `calcRanges(di)`: the capacity check, then shrinking, expanding and
      positioning on axis di. */
  function CalcRangesSpec(w: Widget, di: nat, eps: real): (r: Resolution)
    requires Solvable(w, di)
    ensures r.outcome.Fail? ==>
      r.outcome.error.InsufficientSpace? || r.outcome.error.ChildTooLarge? || r.outcome.error.NoSpaceToExpand?
    ensures r.outcome.Fail? && !r.outcome.error.NoSpaceToExpand? ==> r.tree == w
    ensures (r.outcome.Fail? && !r.outcome.error.NoSpaceToExpand?) <==> !CapacityOk(w, di, eps)
  {
    SizeCheckCorrect(w, di, eps);
    var check := SizeCheck(w, di, eps);
    if check.Fail? then Resolution(w, check)
    else
      ShrunkWellFormed(w, di);
      var s := Shrunk(w, di);
      var e := Expanded(s, di);
      ExpandedError(s, di);
      if e.outcome.Fail? then Resolution(e.tree, e.outcome)
      else
        ExpandedAllExact(s, di);
        AllExactSolvable(e.tree, di);
        Resolution(Positioned(e.tree, di), Pass)
  }

  // ---- What calcRanges promises.

  /** On success every widget is `exact` with a range; whatever the outcome,
      only axis di has changed and the tree is still solvable on it. */
  lemma CalcRangesResolves(w: Widget, di: nat, eps: real)
    requires Solvable(w, di)
    ensures var r := CalcRangesSpec(w, di, eps);
      && Solvable(r.tree, di)
      && SameExceptAxis(w, r.tree, di)
      && (r.outcome.Pass? ==> AllExact(r.tree, di))
  {
    var r := CalcRangesSpec(w, di, eps);
    if SizeCheck(w, di, eps).Fail? {
      SameExceptAxisRefl(w, di);
    } else {
      ShrunkWellFormed(w, di);
      var s := Shrunk(w, di);
      var e := Expanded(s, di);
      ExpandedReady(s, di);
      SameExceptAxisTrans(w, s, e.tree, di);
      NoShrinkLegal(e.tree, di);
      if e.outcome.Pass? {
        ExpandedAllExact(s, di);
        AllExactSolvable(e.tree, di);
        PositionedKeeps(e.tree, di);
        SameExceptAxisTrans(w, e.tree, r.tree, di);
        MovedKeepsExact(e.tree, r.tree, di);
        AllExactSolvable(r.tree, di);
        NoShrinkLegal(r.tree, di);
      }
    }
  }

  /** An `exact` root keeps its size and range on the axis. */
  lemma CalcRangesKeepsExactRoot(w: Widget, di: nat, eps: real)
    requires Solvable(w, di) && DemandOf(w, di) == Exact
    ensures CalcRangesSpec(w, di, eps).tree.sizes[di] == w.sizes[di]
  {
    if SizeCheck(w, di, eps).Pass? {
      ShrunkWellFormed(w, di);
      ShrunkKeeps(w, di);
      var s := Shrunk(w, di);
      var e := Expanded(s, di);
      assert e.tree.sizes[di] == w.sizes[di];
      if e.outcome.Pass? {
        ExpandedAllExact(s, di);
        AllExactSolvable(e.tree, di);
        assert Positioned(e.tree, di).sizes[di] == w.sizes[di];
      }
    }
  }

  /** After calcRanges on one axis, every axis can still be solved. */
  lemma CalcRangesKeepsValid(w: Widget, di: nat, eps: real, n: nat)
    requires HasAxes(w, n) && di < n && forall d :: 0 <= d < n ==> Solvable(w, d)
    ensures var r := CalcRangesSpec(w, di, eps);
      && HasAxes(r.tree, n) && |r.tree.sizes| == |w.sizes|
      && (forall d :: 0 <= d < n ==> Solvable(r.tree, d))
      && SameExceptAxis(w, r.tree, di)
  {
    CalcRangesResolves(w, di, eps);
    OtherAxesSolvable(w, CalcRangesSpec(w, di, eps).tree, di, n);
  }

  lemma OtherAxesSolvable(w: Widget, t: Widget, di: nat, n: nat)
    requires SameExceptAxis(w, t, di) && HasAxes(w, n)
    requires forall d :: 0 <= d < n && d != di ==> Solvable(w, d)
    ensures HasAxes(t, n) && forall d :: 0 <= d < n && d != di ==> Solvable(t, d)
  {
    forall d | 0 <= d < n && d != di
      ensures Solvable(t, d)
    {
      assert Solvable(w, d);
      assert HasAxis(w, d);
      OtherAxisKept(w, t, di, d);
    }
    OtherAxesKept(w, t, di, n);
  }

  /** The four phases in the source's order, each one's tree handed to the next. */
  method ResolveAxis(w: Widget, di: nat, eps: real) returns (r: Resolution)
    requires Solvable(w, di)
    ensures r == CalcRangesSpec(w, di, eps)
  {
    var check := CheckSizeChildren(w, di, eps);
    if check.Fail? {
      return Resolution(w, check);
    }
    ShrunkWellFormed(w, di);
    var s := ShrinkChildren(w, di);
    var e := ExpandChildren(s, di);
    if e.outcome.Fail? {
      return Resolution(e.tree, e.outcome);
    }
    ExpandedAllExact(s, di);
    AllExactSolvable(e.tree, di);
    var p := PositionChildren(e.tree, di);
    return Resolution(p, Pass);
  }

  // ---- Helpers about the phases' predicates.

  /** An all-exact tree has a range everywhere and nothing left to shrink. */
  lemma {:induction false} AllExactSolvable(w: Widget, di: nat)
    requires HasAxis(w, di) && AllExact(w, di)
    ensures ExactRanged(w, di) && NoShrink(w, di) && AllRanged(w, di)
    ensures PositionReady(w, di)
    decreases w
  {
    if w.Frame? {
      forall i | 0 <= i < |w.childList| {
        AllExactSolvable(w.childList[i], di);
      }
    }
  }

  /** Moving ranges does not change any policy. */
  lemma {:induction false} MovedKeepsExact(a: Widget, b: Widget, di: nat)
    requires HasAxis(a, di) && HasAxis(b, di) && AllExact(a, di) && Moved(a, b, di)
    ensures AllExact(b, di)
    decreases a
  {
    if a.Frame? {
      forall i | 0 <= i < |a.childList| {
        MovedKeepsExact(a.childList[i], b.childList[i], di);
      }
    }
  }

  /** Two trees that differ only on axis di agree on every other axis. */
  lemma {:induction false} OtherAxisKept(a: Widget, b: Widget, di: nat, d: nat)
    requires SameExceptAxis(a, b, di) && d != di && HasAxis(a, d)
    ensures HasAxis(b, d) && b.sizes[d] == a.sizes[d]
    ensures ExactRanged(a, d) ==> ExactRanged(b, d)
    ensures DemandsLegal(a, d) ==> DemandsLegal(b, d)
    decreases a
  {
    if a.Frame? {
      forall i | 0 <= i < |a.childList| {
        OtherAxisKept(a.childList[i], b.childList[i], di, d);
      }
    }
  }

  lemma {:induction false} OtherAxesKept(a: Widget, b: Widget, di: nat, n: nat)
    requires SameExceptAxis(a, b, di) && HasAxes(a, n)
    ensures HasAxes(b, n)
    decreases a
  {
    if a.Frame? {
      forall i | 0 <= i < |a.childList| {
        OtherAxesKept(a.childList[i], b.childList[i], di, n);
      }
    }
  }

  /** After positioning, child i of a frame is the child as its parent
      placed it, positioned in turn. */
  lemma PositionedChild(w: Widget, di: nat, i: nat)
    requires w.Frame? && |w.childList| > 0 && PositionReady(w, di) && i < |w.childList|
    ensures PositionReady(LevelPlaced(w, di)[i], di)
    ensures Positioned(w, di).childList[i] == Positioned(LevelPlaced(w, di)[i], di)
  {
    LevelPlacedKeeps(w, di);
  }

  // ---- A tree on which calcRanges places a child outside its parent.

  /** The sums over one ranged child. */
  lemma SingletonSums(k: Widget, di: nat)
    requires Ranged(k, di)
    ensures OuterSum([k], di) == 2.0 * Outer(k, di)
    ensures ExtentSum([k], di) == Extent(k, di)
    ensures DemandOf(k, di) == Exact ==> ExactSum([k], di) == Extent(k, di) && FixedSum([k], di) == Extent(k, di)
    ensures DemandOf(k, di) == Exact ==> CountExpand([k], di) == 0
  {
    assert [k][..0] == [];
  }

  /** The sums over an exact child followed by an expanding one. */
  lemma PairSums(a: Widget, f: Widget, di: nat)
    requires Ranged(a, di) && DemandOf(a, di) == Exact && di < |f.sizes| && DemandOf(f, di) == ExpandToFit
    ensures OuterSum([a, f], di) == 2.0 * Outer(a, di) + 2.0 * Outer(f, di)
    ensures ExactSum([a, f], di) == Extent(a, di) && FixedSum([a, f], di) == Extent(a, di)
    ensures CountExpand([a, f], di) == 1
  {
    SingletonSums(a, di);
    var ks := [a, f];
    assert ks[..|ks| - 1] == [a];
  }

  /** A size on axis 0 with no buffers. */
  function ExampleSize(d: Demand, range: Option<Range>, j: Justify): WidgetSize
  {
    WidgetSize(d, range, Buffer(0.0, World), Buffer(0.0, World), j)
  }

  /** The tree of a counterexample: an exact root of extent 10 laid out
      along axis 0 holds an exact leaf of extent 9 and an expanding frame
      whose only child is a centred exact leaf of extent 5; no buffers. */
  function ContainmentExample(): Widget
  {
    Frame("root", [ExampleSize(Exact, Some(Range(0.0, 10.0)), ToLowest)], [ExampleA(), ExampleF()], 0)
  }

  function ExampleA(): Widget { Leaf("a", [ExampleSize(Exact, Some(Range(0.0, 9.0)), ToLowest)]) }
  function ExampleC(): Widget { Leaf("c", [ExampleSize(Exact, Some(Range(0.0, 5.0)), ToLowest)]) }
  function ExampleF(): Widget { Frame("f", [ExampleSize(ExpandToFit, None, Centre)], [ExampleC()], 0) }

  lemma ExampleSolvable()
    ensures Solvable(ContainmentExample(), 0)
  {
    assert HasAxis(ExampleC(), 0) && HasAxis(ExampleF(), 0) && HasAxis(ExampleA(), 0);
  }

  lemma ExampleChecked()
    requires Solvable(ContainmentExample(), 0)
    ensures SizeCheck(ContainmentExample(), 0, 0.0) == Pass
  {
    var a, f := ExampleA(), ExampleF();
    PairSums(a, f, 0);
    assert KidSizeChecks(ContainmentExample(), 0, 0.0) == [Pass, Pass];
  }

  lemma ExampleShrunk()
    requires Solvable(ContainmentExample(), 0)
    ensures Shrunk(ContainmentExample(), 0) == ContainmentExample()
  {
    var a, f, c := ExampleA(), ExampleF(), ExampleC();
    assert ShrunkKids(f, 0) == [c];
    assert Shrunk(f, 0) == f;
    assert ShrunkKids(ContainmentExample(), 0) == [a, f];
  }

  /** The example's f made exact with the unit of room it is granted. */
  function ExampleF1(): Widget { SetExact(ExampleF(), 0, 1.0) }

  /** The example once expanded. */
  function ExampleW1(): Widget
  {
    Frame("root", [ExampleSize(Exact, Some(Range(0.0, 10.0)), ToLowest)], [ExampleA(), ExampleF1()], 0)
  }

  lemma ExampleRootLevel()
    requires Solvable(ContainmentExample(), 0)
    ensures ExpandReady(ContainmentExample(), 0)
    ensures ResolveLevel(ContainmentExample(), 0) == Success([ExampleA(), ExampleF1()])
  {
    var w, a, f, f1 := ContainmentExample(), ExampleA(), ExampleF(), ExampleF1();
    assert NoShrink(w, 0);
    var ks := [a, f];
    PairSums(a, f, 0);
    assert ExpandRoom(w, 0) == 1.0 && Share(w, 0) == 1.0;
    assert Grant(ks, 0, 1.0) == [a, f1];
  }

  lemma ExampleFExpanded()
    ensures ExpandReady(ExampleF1(), 0) && DemandOf(ExampleF1(), 0) == Exact
    ensures Expanded(ExampleF1(), 0) == Expansion(ExampleF1(), Pass)
  {
    var c, f1 := ExampleC(), ExampleF1();
    assert f1.childList == [c];
    assert ExpandReady(f1, 0);
    assert ResolveLevel(f1, 0) == Success([c]);
    assert Expanded(c, 0) == Expansion(c, Pass);
  }

  lemma ExampleExpanded()
    requires Solvable(ContainmentExample(), 0)
    ensures ExpandReady(ContainmentExample(), 0)
    ensures Expanded(ContainmentExample(), 0) == Expansion(ExampleW1(), Pass)
  {
    ExampleRootLevel();
    ExampleFExpanded();
    var w, a, f1 := ContainmentExample(), ExampleA(), ExampleF1();
    assert Expanded(a, 0) == Expansion(a, Pass);
    ResolveLevelReady(w, 0);
    var rs := ExpandKids(w, [a, f1], 0);
    assert rs == [Expansion(a, Pass), Expansion(f1, Pass)];
    assert Outcomes(rs) == [Pass, Pass];
  }

  /** The example's f as the root places it, at [9, 10]. */
  function ExampleF2(): Widget { PlaceAt(ExampleF1(), 0, 9.0) }

  lemma ExampleW1Ready()
    ensures PositionReady(ExampleW1(), 0)
  {
    var c, f1 := ExampleC(), ExampleF1();
    assert f1.childList == [c] && Ranged(f1, 0);
    assert AllRanged(f1, 0);
  }

  lemma ExampleRootPlaced()
    ensures PositionReady(ExampleW1(), 0)
    ensures LevelPlaced(ExampleW1(), 0)[1] == ExampleF2()
    ensures ExampleF2().sizes[0].range == Some(Range(9.0, 10.0))
  {
    ExampleW1Ready();
    var a, f1, w1 := ExampleA(), ExampleF1(), ExampleW1();
    var ks := [a, f1];
    assert w1.childList == ks && Extent(f1, 0) == 1.0;
    assert ParallelStart(w1, 0) == 0.0 && ParallelGap(w1, 0) == 0.0;
    assert ks[..1] == [a];
    SingletonSums(a, 0);
    assert PackedLength(ks[..1], 0) == 9.0 && Spacing(1, 0.0) == 0.0;
    assert ForwardLo(ks, 0, 0.0, 0.0, 1) == 9.0;
  }

  lemma ExampleFPlaced()
    ensures PositionReady(ExampleF2(), 0)
    ensures LevelPlaced(ExampleF2(), 0) == [PlaceAt(ExampleC(), 0, 7.0)]
  {
    var c, f2 := ExampleC(), ExampleF2();
    assert f2.childList == [c] && Ranged(f2, 0) && Extent(f2, 0) == 1.0;
    assert AllRanged(f2, 0);
    SingletonSums(c, 0);
    assert ParallelSpan([c], 0) == 5.0;
    assert ParallelStart(f2, 0) == 7.0;
  }

  lemma ExamplePositioned()
    ensures PositionReady(ExampleW1(), 0)
    ensures var r := Positioned(ExampleW1(), 0);
      && r.Frame? && |r.childList| == 2
      && r.childList[1].Frame? && |r.childList[1].childList| == 1
      && r.childList[1].sizes[0].range == Some(Range(9.0, 10.0))
      && r.childList[1].childList[0].sizes[0].range == Some(Range(7.0, 12.0))
  {
    ExampleRootPlaced();
    ExampleFPlaced();
    assert PlaceAt(ExampleC(), 0, 7.0).sizes[0].range == Some(Range(7.0, 12.0));
    NestedPlacement(ExampleW1(), ExampleF2(), 0);
  }

  /** Where positioning puts the second child of a two-child frame and
      that child's only child. */
  lemma NestedPlacement(w: Widget, f: Widget, di: nat)
    requires w.Frame? && |w.childList| == 2 && PositionReady(w, di)
    requires LevelPlaced(w, di)[1] == f
    requires f.Frame? && |f.childList| == 1 && PositionReady(f, di)
    ensures var r := Positioned(w, di);
      && r.Frame? && |r.childList| == 2
      && r.childList[1].Frame? && |r.childList[1].childList| == 1
      && r.childList[1].sizes[di].range == f.sizes[di].range
      && r.childList[1].childList[0].sizes[di].range == LevelPlaced(f, di)[0].sizes[di].range
  {
    PositionedChild(w, di, 1);
    PositionedChild(f, di, 0);
  }

  /** As written, the capacity check does not look below a frame that is
      not exact, so `calcRanges` can pass with an exact child placed
      outside its parent and outside the root: the expanding frame gets
      the one unit left, [9, 10], and its centred child of extent 5 gets
      [7, 12]. */
  lemma CalcRangesBreaksContainment()
    ensures Solvable(ContainmentExample(), 0)
    ensures var r := CalcRangesSpec(ContainmentExample(), 0, 0.0);
      && r.outcome == Pass
      && r.tree.Frame? && |r.tree.childList| == 2
      && r.tree.childList[1].Frame? && |r.tree.childList[1].childList| == 1
      && r.tree.childList[1].sizes[0].range == Some(Range(9.0, 10.0))
      && r.tree.childList[1].childList[0].sizes[0].range == Some(Range(7.0, 12.0))
  {
    ExampleSolvable();
    ExampleChecked();
    ExampleShrunk();
    ExampleExpanded();
    ExamplePositioned();
    var w := ContainmentExample();
    assert CalcRangesSpec(w, 0, 0.0) == Resolution(Positioned(ExampleW1(), 0), Pass);
  }

  /** The solver object: the tree it owns, the tolerance of the capacity
      check and the number of axes. */
  class Geometry {
    var rootWidget: Widget
    var epsilon: real
    var maxNumDims: nat

    /** What holds between calls: every axis can still be solved. */
    ghost predicate Valid()
      reads this
    {
      maxNumDims == |rootWidget.sizes| && HasAxes(rootWidget, maxNumDims) &&
      forall di :: 0 <= di < maxNumDims ==> Solvable(rootWidget, di)
    }

    constructor Init(rootWidget: Widget, epsilon: real)
      ensures this.rootWidget == rootWidget && this.epsilon == epsilon
      ensures maxNumDims == |rootWidget.sizes|
    {
      this.rootWidget := rootWidget;
      this.epsilon := epsilon;
      maxNumDims := |rootWidget.sizes|;
    }

    /** `Geometry.__init__`: the checks, the scale, the buffer conversion. */
    static method New(rootWidget: Widget, epsilon: real) returns (r: Result<Geometry, LayoutError>)
      requires WellFormed(rootWidget)
      ensures r.Failure? <==> Construct(rootWidget).Failure?
      ensures r.Failure? ==> r.error == Construct(rootWidget).error
      ensures r.Success? ==> fresh(r.value) && r.value.Valid()
      ensures r.Success? ==> r.value.rootWidget == Construct(rootWidget).value && r.value.epsilon == epsilon
    {
      var checked := CheckAxes(rootWidget);
      if checked.Fail? {
        return Failure(checked.error);
      }
      AxesPass(rootWidget);
      var maxNumDims := |rootWidget.sizes|;
      var maxRootSize := MaxRootSize(rootWidget);
      var w := SetBuffersForChildren(rootWidget, maxRootSize, maxNumDims);
      ConstructReady(rootWidget);
      var g := new Geometry.Init(w, epsilon);
      return Success(g);
    }

    /** `calcRanges(di)`: the four phases on axis di, the tree replaced as
      each phase leaves it. */
    method CalcRanges(di: nat) returns (outcome: Outcome<LayoutError>)
      requires Valid() && di < maxNumDims
      modifies this
      ensures Valid() && maxNumDims == old(maxNumDims) && epsilon == old(epsilon)
      ensures Resolution(rootWidget, outcome) == CalcRangesSpec(old(rootWidget), di, epsilon)
      ensures SameExceptAxis(old(rootWidget), rootWidget, di)
    {
      CalcRangesKeepsValid(rootWidget, di, epsilon, maxNumDims);
      var r := ResolveAxis(rootWidget, di, epsilon);
      rootWidget := r.tree;
      outcome := r.outcome;
    }
  }
}
