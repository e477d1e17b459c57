/** The two read-only validations of the layout solver: the legality check on
    size policies (`Geometry._checkSpaceDemands`) and the capacity check on
    exact frames (`Geometry._checkSizeChildren`). */
module GeometryChecks {
  import opened Wrappers
  import opened GeometryTypes

  /** The legality check on one axis, reporting the first offending widget in
      the order the source walks the tree. `isRoot` stands for the source's
      identity test against the root widget. */
  function CheckSpaceDemands(w: Widget, di: nat, isRoot: bool): (r: Outcome<LayoutError>)
    requires HasAxis(w, di)
    ensures r.Fail? ==> r.error.RootCannotExpand? || r.error.LeafCannotShrink? || r.error.ExpandUnderShrink?
    ensures r.Fail? ==> r.error.di == di
    ensures r.Fail? && r.error.RootCannotExpand? ==> isRoot && r.error.name == w.name
    decreases w, 1
  {
    if isRoot && DemandOf(w, di) == ExpandToFit then Fail(RootCannotExpand(di, w.name))
    else if w.Leaf? then
      if DemandOf(w, di) == ShrinkToFit then Fail(LeafCannotShrink(di, w.name)) else Pass
    else FirstFail(DemandTests(w, di))
  }

  /** One outcome per child, in order: the parent-child rule, then the
      child's own subtree. */
  function DemandTests(w: Widget, di: nat): (s: seq<Outcome<LayoutError>>)
    requires w.Frame? && HasAxis(w, di)
    ensures |s| == |w.childList|
    ensures forall i :: 0 <= i < |s| ==>
      s[i] == (if DemandOf(w, di) == ShrinkToFit && DemandOf(w.childList[i], di) == ExpandToFit
       then Fail(ExpandUnderShrink(di, w.name, w.childList[i].name))
       else CheckSpaceDemands(w.childList[i], di, false))
    decreases w, 0
  {
    var kids := w.childList;
    seq(|kids|, i requires 0 <= i < |kids| =>
      if DemandOf(w, di) == ShrinkToFit && DemandOf(kids[i], di) == ExpandToFit
      then Fail(ExpandUnderShrink(di, w.name, kids[i].name))
      else CheckSpaceDemands(kids[i], di, false))
  }

  /** The legality check passes exactly when the root does not expand and the
      whole tree obeys the policy rules. */
  lemma {:induction false} CheckSpaceDemandsCorrect(w: Widget, di: nat, isRoot: bool)
    requires HasAxis(w, di)
    ensures CheckSpaceDemands(w, di, isRoot).Pass? <==>
            (isRoot ==> DemandOf(w, di) != ExpandToFit) && DemandsLegal(w, di)
    decreases w
  {
    if w.Frame? {
      var kids := w.childList;
      forall i | 0 <= i < |kids| {
        CheckSpaceDemandsCorrect(kids[i], di, false);
      }
    }
  }

  /** Free space along the child sequence of an exact frame: its extent less
      2·inner, less every exact child's extent and 2·outer per child, with the
      outer buffers of the first and last child given back. */
  function ParallelFree(w: Widget, di: nat): real
    requires w.Frame? && |w.childList| > 0 && HasAxis(w, di) && ExactRanged(w, di)
    requires DemandOf(w, di) == Exact
  {
    var kids := w.childList;
    Extent(w, di) - 2.0 * Inner(w, di) + Outer(kids[0], di) + Outer(kids[|kids| - 1], di)
      - ExactSum(kids, di) - OuterSum(kids, di)
  }

  /** The capacity test on the children of one exact frame. */
  function LevelCapacity(w: Widget, di: nat, eps: real): Outcome<LayoutError>
    requires w.Frame? && |w.childList| > 0 && HasAxis(w, di) && ExactRanged(w, di)
    requires DemandOf(w, di) == Exact
  {
    if w.childSequenceDir == di then
      if ParallelFree(w, di) + eps < 0.0 then Fail(InsufficientSpace(di, w.name)) else Pass
    else FirstFail(CrossTests(w, di, eps))
  }

  /** Across the sequence axis, one test per child: an exact child may not
      exceed the frame's extent less 2·inner by more than eps. */
  function CrossTests(w: Widget, di: nat, eps: real): (s: seq<Outcome<LayoutError>>)
    requires w.Frame? && HasAxis(w, di) && ExactRanged(w, di)
    requires DemandOf(w, di) == Exact
    ensures |s| == |w.childList|
    ensures forall i :: 0 <= i < |s| ==>
      s[i] == (if DemandOf(w.childList[i], di) == Exact &&
          Extent(w.childList[i], di) - eps > Extent(w, di) - 2.0 * Inner(w, di)
       then Fail(ChildTooLarge(di, w.childList[i].name, w.name))
       else Pass)
  {
    var kids := w.childList;
    var avail := Extent(w, di) - 2.0 * Inner(w, di);
    seq(|kids|, i requires 0 <= i < |kids| =>
      if DemandOf(kids[i], di) == Exact && Extent(kids[i], di) - eps > avail
      then Fail(ChildTooLarge(di, kids[i].name, w.name))
      else Pass)
  }

  /** `_checkSizeChildren`: the capacity test, applied to every exact frame
      reachable from `w` through exact frames. */
  function SizeCheck(w: Widget, di: nat, eps: real): (r: Outcome<LayoutError>)
    requires HasAxis(w, di) && ExactRanged(w, di)
    ensures r.Fail? ==> r.error.InsufficientSpace? || r.error.ChildTooLarge?
    decreases w, 1
  {
    if w.Leaf? || |w.childList| == 0 || DemandOf(w, di) != Exact then Pass
    else
      var here := LevelCapacity(w, di, eps);
      if here.Fail? then here else FirstFail(KidSizeChecks(w, di, eps))
  }

  function KidSizeChecks(w: Widget, di: nat, eps: real): (s: seq<Outcome<LayoutError>>)
    requires w.Frame? && HasAxis(w, di) && ExactRanged(w, di)
    ensures |s| == |w.childList|
    ensures forall i :: 0 <= i < |s| ==> s[i] == SizeCheck(w.childList[i], di, eps)
    decreases w, 0
  {
    var kids := w.childList;
    seq(|kids|, i requires 0 <= i < |kids| => SizeCheck(kids[i], di, eps))
  }

  /** The capacity rule stated declaratively: the exact children of an exact
      frame fit in its interior, within eps, and the rule holds below. */
  predicate CapacityOk(w: Widget, di: nat, eps: real)
    requires HasAxis(w, di) && ExactRanged(w, di)
  {
    w.Leaf? || |w.childList| == 0 || DemandOf(w, di) != Exact ||
    (&& (w.childSequenceDir == di ==> ParallelFree(w, di) >= -eps)
     && (w.childSequenceDir != di ==>
          forall i :: 0 <= i < |w.childList| && DemandOf(w.childList[i], di) == Exact ==>
            Extent(w.childList[i], di) <= Extent(w, di) - 2.0 * Inner(w, di) + eps)
     && (forall i :: 0 <= i < |w.childList| ==> CapacityOk(w.childList[i], di, eps)))
  }

  lemma {:induction false} SizeCheckCorrect(w: Widget, di: nat, eps: real)
    requires HasAxis(w, di) && ExactRanged(w, di)
    ensures SizeCheck(w, di, eps).Pass? <==> CapacityOk(w, di, eps)
    decreases w
  {
    if w.Frame? && |w.childList| > 0 && DemandOf(w, di) == Exact {
      var kids := w.childList;
      forall i | 0 <= i < |kids| {
        SizeCheckCorrect(kids[i], di, eps);
      }
    }
  }

  /** A widget that is not exact, or has no children, is not examined, nor is
      anything below it. */
  lemma SizeCheckSkips(w: Widget, di: nat, eps: real)
    requires HasAxis(w, di) && ExactRanged(w, di)
    requires w.Leaf? || |w.childList| == 0 || DemandOf(w, di) != Exact
    ensures SizeCheck(w, di, eps) == Pass
  {
  }

  /** The capacity test on one exact frame, with the source's loops. */
  method CheckLevel(w: Widget, di: nat, eps: real) returns (r: Outcome<LayoutError>)
    requires w.Frame? && |w.childList| > 0 && HasAxis(w, di) && ExactRanged(w, di)
    requires DemandOf(w, di) == Exact
    ensures r == LevelCapacity(w, di, eps)
  {
    if w.childSequenceDir == di {
      var availableSpace := ParallelRoom(w, di);
      if availableSpace + eps < 0.0 {
        return Fail(InsufficientSpace(di, w.name));
      }
      return Pass;
    }
    r := CrossRoom(w, di, eps);
  }

  /** The summing loop of the parallel case: the first and last outer
      buffers are given back up front, then each child's share is taken. */
  method ParallelRoom(w: Widget, di: nat) returns (availableSpace: real)
    requires w.Frame? && |w.childList| > 0 && HasAxis(w, di) && ExactRanged(w, di)
    requires DemandOf(w, di) == Exact
    ensures availableSpace == ParallelFree(w, di)
  {
    var kids := w.childList;
    var base := Extent(w, di) - 2.0 * Inner(w, di) + Outer(kids[0], di) + Outer(kids[|kids| - 1], di);
    availableSpace := base;
    var i := 0;
    while i < |kids|
      invariant 0 <= i <= |kids|
      invariant availableSpace == base - ExactSum(kids[..i], di) - OuterSum(kids[..i], di)
    {
      assert kids[..i + 1][..i] == kids[..i];
      if kids[i].sizes[di].spaceDemand == Exact {
        availableSpace := availableSpace - Extent(kids[i], di);
      }
      availableSpace := availableSpace - 2.0 * Outer(kids[i], di);
      i := i + 1;
    }
    assert kids[..i] == kids;
  }

  /** The loop of the cross case, stopping at the first child too large. */
  method CrossRoom(w: Widget, di: nat, eps: real) returns (r: Outcome<LayoutError>)
    requires w.Frame? && HasAxis(w, di) && ExactRanged(w, di)
    requires DemandOf(w, di) == Exact
    ensures r == FirstFail(CrossTests(w, di, eps))
  {
    var kids := w.childList;
    var availableSpace := Extent(w, di) - 2.0 * Inner(w, di);
    ghost var tests := CrossTests(w, di, eps);
    var i := 0;
    while i < |kids|
      invariant 0 <= i <= |kids|
      invariant forall j :: 0 <= j < i ==> tests[j].Pass?
    {
      if kids[i].sizes[di].spaceDemand == Exact && Extent(kids[i], di) - eps > availableSpace {
        assert FirstFailIndex(tests) == i;
        return Fail(ChildTooLarge(di, kids[i].name, w.name));
      }
      i := i + 1;
    }
    return Pass;
  }

  /** `_checkSizeChildren` with the source's loops. */
  method CheckSizeChildren(w: Widget, di: nat, eps: real) returns (r: Outcome<LayoutError>)
    requires HasAxis(w, di) && ExactRanged(w, di)
    ensures r == SizeCheck(w, di, eps)
    decreases w, 1
  {
    if w.Leaf? || |w.childList| == 0 || w.sizes[di].spaceDemand != Exact {
      return Pass;
    }
    r := CheckLevel(w, di, eps);
    if r.Pass? {
      r := CheckSizeKids(w, di, eps);
    }
  }

  /** The recursive calls of `_checkSizeChildren`, stopping at the first error. */
  method CheckSizeKids(w: Widget, di: nat, eps: real) returns (r: Outcome<LayoutError>)
    requires w.Frame? && HasAxis(w, di) && ExactRanged(w, di)
    ensures r == FirstFail(KidSizeChecks(w, di, eps))
    decreases w, 0
  {
    var kids := w.childList;
    ghost var below := KidSizeChecks(w, di, eps);
    var i := 0;
    while i < |kids|
      invariant 0 <= i <= |kids|
      invariant forall j :: 0 <= j < i ==> below[j].Pass?
    {
      r := CheckSizeChildren(kids[i], di, eps);
      assert below[i] == r;
      if r.Fail? {
        FirstFailAt(below, i);
        return r;
      }
      PassesExtend(below, i);
      i := i + 1;
    }
    return Pass;
  }
}
