/** Post-order shrink resolution (`Geometry._shrinkChildren`): every
    `shrinkToFit` frame is given the extent its already resolved children
    need, and becomes `exact`. */
module GeometryShrink {
  import opened Wrappers
  import opened GeometryTypes
  import opened GeometryChecks

  /** C, the room the children need along axis di: end-to-end span on the
      sequence axis, the widest child across it, nothing without children. */
  function ShrinkContent(ks: seq<Widget>, di: nat, parallel: bool): real
    requires KidsRanged(ks, di)
  {
    if |ks| == 0 then 0.0 else if parallel then ParallelSpan(ks, di) else MaxExtent(ks, di)
  }

  /** C + 2·inner, the extent a shrinking frame takes around its resolved
      children ks. */
  function ShrinkTarget(w: Widget, ks: seq<Widget>, di: nat): real
    requires w.Frame? && di < |w.sizes| && KidsRanged(ks, di)
  {
    ShrinkContent(ks, di, w.childSequenceDir == di) + 2.0 * Inner(w, di)
  }

  /** What the solver has established before shrinking: sizes on the axis,
      ranges on exact widgets, legal policies. */
  predicate ShrinkReady(w: Widget, di: nat)
  {
    HasAxis(w, di) && ExactRanged(w, di) && DemandsLegal(w, di)
  }

  /** The tree after `_shrinkChildren` on axis di. */
  function Shrunk(w: Widget, di: nat): (r: Widget)
    requires ShrinkReady(w, di)
    ensures |r.sizes| == |w.sizes|
    ensures DemandOf(r, di) == (if DemandOf(w, di) == ShrinkToFit then Exact else DemandOf(w, di))
    ensures DemandOf(r, di) == Exact ==> Ranged(r, di)
    decreases w, 1
  {
    if w.Leaf? then w else ResolveShrink(w, ShrunkKids(w, di), di)
  }

  /** The children of a frame, each resolved by the recursive call. */
  function ShrunkKids(w: Widget, di: nat): (ks: seq<Widget>)
    requires w.Frame? && ShrinkReady(w, di)
    ensures |ks| == |w.childList|
    ensures forall i :: 0 <= i < |ks| ==> ks[i] == Shrunk(w.childList[i], di)
    ensures KidsHaveAxis(ks, di)
    decreases w, 0
  {
    var kids := w.childList;
    seq(|kids|, i requires 0 <= i < |kids| => Shrunk(kids[i], di))
  }

  /** The work `_shrinkChildren` does at one frame once its children `ks`
      are resolved. */
  function ResolveShrink(w: Widget, ks: seq<Widget>, di: nat): (r: Widget)
    requires w.Frame? && di < |w.sizes| && KidsHaveAxis(ks, di)
    requires DemandOf(w, di) == ShrinkToFit && CountExpand(ks, di) == 0 ==> KidsRanged(ks, di)
    ensures r.Frame? && r.childList == ks && r.name == w.name && r.childSequenceDir == w.childSequenceDir
    ensures |r.sizes| == |w.sizes| && forall d :: 0 <= d < |w.sizes| && d != di ==> r.sizes[d] == w.sizes[d]
  {
    var size := w.sizes[di];
    if CountExpand(ks, di) > 0 || size.spaceDemand != ShrinkToFit then w.(childList := ks)
    else
      w.(sizes := w.sizes[di := size.(spaceDemand := Exact, range := Some(Range(0.0, ShrinkTarget(w, ks, di))))],
         childList := ks)
  }

  /** Only the sizes on axis di change, every `shrinkToFit` widget is
      resolved, and exact widgets keep a range. */
  lemma {:induction false} ShrunkWellFormed(w: Widget, di: nat)
    requires ShrinkReady(w, di)
    ensures HasAxis(Shrunk(w, di), di) && ExactRanged(Shrunk(w, di), di) && NoShrink(Shrunk(w, di), di)
    ensures SameExceptAxis(w, Shrunk(w, di), di)
    decreases w
  {
    if w.Frame? {
      forall i | 0 <= i < |w.childList| {
        ShrunkWellFormed(w.childList[i], di);
      }
    }
  }

  /** A widget that does not shrink keeps its size on the axis. */
  lemma ShrunkKeeps(w: Widget, di: nat)
    requires ShrinkReady(w, di) && DemandOf(w, di) != ShrinkToFit
    ensures Shrunk(w, di).sizes[di] == w.sizes[di]
  {
  }

  /** Below a shrinking frame every child is resolved first, and ends `exact`
      with a range. */
  lemma ShrunkKidsExact(w: Widget, di: nat)
    requires ShrinkReady(w, di) && w.Frame? && DemandOf(w, di) == ShrinkToFit
    ensures |Shrunk(w, di).childList| == |w.childList|
    ensures forall i :: 0 <= i < |w.childList| ==>
      Shrunk(w, di).childList[i] == Shrunk(w.childList[i], di) &&
      DemandOf(Shrunk(w, di).childList[i], di) == Exact && Ranged(Shrunk(w, di).childList[i], di)
  {
    var kids := w.childList;
    forall i | 0 <= i < |kids|
      ensures DemandOf(Shrunk(kids[i], di), di) == Exact && Ranged(Shrunk(kids[i], di), di)
    {
      assert DemandOf(kids[i], di) != ExpandToFit;
    }
  }

  /** Post-order resolution at a shrinking frame: it becomes `exact` with
      range [0, C + 2·inner], C taken over its children as already resolved. */
  lemma ShrunkTop(w: Widget, di: nat)
    requires ShrinkReady(w, di) && w.Frame? && DemandOf(w, di) == ShrinkToFit
    ensures KidsRanged(Shrunk(w, di).childList, di)
    ensures Shrunk(w, di).sizes[di] ==
      w.sizes[di].(spaceDemand := Exact, range := Some(Range(0.0, ShrinkTarget(w, Shrunk(w, di).childList, di))))
  {
    ShrunkKidsExact(w, di);
    ResolveShrinkTop(w, ShrunkKids(w, di), di);
  }

  lemma ResolveShrinkTop(w: Widget, ks: seq<Widget>, di: nat)
    requires w.Frame? && di < |w.sizes| && DemandOf(w, di) == ShrinkToFit
    requires KidsRanged(ks, di) && forall i :: 0 <= i < |ks| ==> DemandOf(ks[i], di) == Exact
    ensures ResolveShrink(w, ks, di).sizes[di] ==
      w.sizes[di].(spaceDemand := Exact, range := Some(Range(0.0, ShrinkTarget(w, ks, di))))
  {
  }

  /** Shrinking a tree with no `shrinkToFit` widget changes nothing; in
      particular shrinking twice is shrinking once. */
  lemma {:induction false} ShrunkIdentity(w: Widget, di: nat)
    requires ShrinkReady(w, di) && NoShrink(w, di)
    ensures Shrunk(w, di) == w
    decreases w
  {
    if w.Frame? {
      var kids := w.childList;
      forall i | 0 <= i < |kids| ensures Shrunk(kids[i], di) == kids[i] {
        ShrunkIdentity(kids[i], di);
      }
      var ks := seq(|kids|, i requires 0 <= i < |kids| => Shrunk(kids[i], di));
      assert ks == kids;
    }
  }

  lemma ShrunkIdempotent(w: Widget, di: nat)
    requires ShrinkReady(w, di)
    ensures ShrinkReady(Shrunk(w, di), di)
    ensures Shrunk(Shrunk(w, di), di) == Shrunk(w, di)
  {
    ShrunkWellFormed(w, di);
    NoShrinkLegal(Shrunk(w, di), di);
    ShrunkIdentity(Shrunk(w, di), di);
  }

  /** With no `shrinkToFit` widget left, the policy rules hold trivially. */
  lemma {:induction false} NoShrinkLegal(w: Widget, di: nat)
    requires HasAxis(w, di) && NoShrink(w, di)
    ensures DemandsLegal(w, di)
    decreases w
  {
    if w.Frame? {
      forall i | 0 <= i < |w.childList| {
        NoShrinkLegal(w.childList[i], di);
      }
    }
  }

  /** A frame that was shrunk to fit passes the capacity test exactly: along
      the sequence axis no space is left over, across it the widest child
      fills the interior. */
  lemma ShrunkFits(w: Widget, di: nat, eps: real)
    requires ShrinkReady(w, di) && w.Frame? && |w.childList| > 0
    requires DemandOf(w, di) == ShrinkToFit
    requires eps >= 0.0
    ensures HasAxis(Shrunk(w, di), di) && ExactRanged(Shrunk(w, di), di)
    ensures LevelCapacity(Shrunk(w, di), di, eps) == Pass
    ensures w.childSequenceDir == di ==> ParallelFree(Shrunk(w, di), di) == 0.0
  {
    ShrunkTop(w, di);
    ShrunkWellFormed(w, di);
    var r := Shrunk(w, di);
    var ks := r.childList;
    if w.childSequenceDir == di {
      ExtentSumIsExactSum(ks, di);
    } else {
      var avail := Extent(r, di) - 2.0 * Inner(r, di);
      assert avail == MaxExtent(ks, di);
      MaxExtentIsMax(ks, di);
    }
  }

  /** `_shrinkChildren` with the source's loops. */
  method ShrinkChildren(w: Widget, di: nat) returns (r: Widget)
    requires ShrinkReady(w, di)
    ensures r == Shrunk(w, di)
    decreases w, 1
  {
    if w.Leaf? {
      return w;
    }
    var ks, numExpandChildren := ShrinkKids(w, di);
    var size := w.sizes[di];
    if numExpandChildren > 0 || size.spaceDemand != ShrinkToFit {
      return Frame(w.name, w.sizes, ks, w.childSequenceDir);
    }
    ShrunkTop(w, di);
    var totalChildSize := TotalChildSize(ks, di, w.childSequenceDir == di);
    var extent := totalChildSize + 2.0 * size.innerBuffer.value;
    assert extent == ShrinkTarget(w, ks, di);
    var newSize := size.(spaceDemand := Exact, range := Some(Range(0.0, extent)));
    return Frame(w.name, w.sizes[di := newSize], ks, w.childSequenceDir);
  }

  /** The first loop of `_shrinkChildren`: resolve each child, counting the
      children that still expand. */
  method ShrinkKids(w: Widget, di: nat) returns (ks: seq<Widget>, numExpandChildren: nat)
    requires ShrinkReady(w, di) && w.Frame?
    ensures ks == ShrunkKids(w, di)
    ensures numExpandChildren == CountExpand(ks, di)
    decreases w, 0
  {
    var kids := w.childList;
    ghost var resolved := ShrunkKids(w, di);
    ks := [];
    numExpandChildren := 0;
    var i := 0;
    while i < |kids|
      invariant 0 <= i <= |kids|
      invariant ks == resolved[..i]
      invariant numExpandChildren == CountExpand(ks, di)
    {
      KidShrinkReady(w, di, i);
      var child := ShrinkChildren(kids[i], di);
      PrefixSnoc(resolved, i);
      CountExpandSnoc(ks, child, di);
      ks := ks + [child];
      if child.sizes[di].spaceDemand == ExpandToFit {
        numExpandChildren := numExpandChildren + 1;
      }
      i := i + 1;
    }
    assert resolved[..i] == resolved;
  }

  lemma KidShrinkReady(w: Widget, di: nat, i: nat)
    requires ShrinkReady(w, di) && w.Frame? && i < |w.childList|
    ensures ShrinkReady(w.childList[i], di)
  {
  }

  /** The summing and maximising loops of `_shrinkChildren`. */
  method TotalChildSize(ks: seq<Widget>, di: nat, parallel: bool) returns (totalChildSize: real)
    requires KidsRanged(ks, di)
    ensures totalChildSize == ShrinkContent(ks, di, parallel)
  {
    if |ks| == 0 {
      totalChildSize := 0.0;
    } else if parallel {
      totalChildSize := SumChildSizes(ks, di);
      totalChildSize := totalChildSize - Outer(ks[0], di);
      totalChildSize := totalChildSize - Outer(ks[|ks| - 1], di);
    } else {
      totalChildSize := MaxChildSize(ks, di);
    }
  }

  method SumChildSizes(ks: seq<Widget>, di: nat) returns (total: real)
    requires KidsRanged(ks, di)
    ensures total == ExtentSum(ks, di) + OuterSum(ks, di)
  {
    total := 0.0;
    var i := 0;
    while i < |ks|
      invariant 0 <= i <= |ks|
      invariant total == ExtentSum(ks[..i], di) + OuterSum(ks[..i], di)
    {
      assert ks[..i + 1][..i] == ks[..i];
      total := total + Extent(ks[i], di);
      total := total + 2.0 * Outer(ks[i], di);
      i := i + 1;
    }
    assert ks[..i] == ks;
  }

  method MaxChildSize(ks: seq<Widget>, di: nat) returns (total: real)
    requires |ks| > 0 && KidsRanged(ks, di)
    ensures total == MaxExtent(ks, di)
  {
    total := Extent(ks[0], di);
    assert ks[..1] == [ks[0]];
    var ci := 1;
    while ci < |ks|
      invariant 1 <= ci <= |ks|
      invariant total == MaxExtent(ks[..ci], di)
    {
      assert ks[..ci + 1][..ci] == ks[..ci];
      var childSize := Extent(ks[ci], di);
      if childSize > total {
        total := childSize;
      }
      ci := ci + 1;
    }
    assert ks[..ci] == ks;
  }
}
