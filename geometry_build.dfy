/** Construction of the layout solver (`Geometry.__init__`): the per-axis
    legality checks, the root-extent check, the one global scale (the largest
    root extent) and the conversion of every fractional buffer of the tree
    to world units with that scale (`Geometry._setBuffersForChildren`). */
module GeometryBuild {
  import opened Wrappers
  import opened GeometryTypes
  import opened GeometryChecks

  /** Every widget of the tree has a size specification for each of the
      first n axes. */
  predicate HasAxes(w: Widget, n: nat)
  {
    n <= |w.sizes| &&
    (w.Frame? ==> forall i :: 0 <= i < |w.childList| ==> HasAxes(w.childList[i], n))
  }

  lemma {:induction false} HasAxesEach(w: Widget, n: nat, di: nat)
    requires HasAxes(w, n) && di < n
    ensures HasAxis(w, di)
    decreases w
  {
    if w.Frame? {
      forall i | 0 <= i < |w.childList| {
        HasAxesEach(w.childList[i], n, di);
      }
    }
  }

  /** What the solver expects of its input on every axis it resolves: the
      per-axis legality rules hold and the root does not expand. */
  predicate Solvable(w: Widget, di: nat)
  {
    HasAxis(w, di) && ExactRanged(w, di) && DemandsLegal(w, di) && DemandOf(w, di) != ExpandToFit
  }

  /** The shape of the input the constructor is documented to take: one size
      per root axis on every widget, and a range on every `exact` size (the
      WidgetSize constructor never builds one without). */
  predicate WellFormed(root: Widget)
  {
    HasAxes(root, |root.sizes|) &&
    forall di :: 0 <= di < |root.sizes| ==> HasAxis(root, di) && ExactRanged(root, di)
  }

  // ---- The checks, axis by axis.

  /** The two tests the constructor makes on axis di, in its order. */
  function AxisTest(root: Widget, di: nat): (r: Outcome<LayoutError>)
    requires HasAxis(root, di)
    ensures r.Pass? <==>
      DemandOf(root, di) != ExpandToFit && DemandsLegal(root, di) && root.sizes[di].range.Some?
    ensures r.Fail? && root.sizes[di].range.Some? ==> CheckSpaceDemands(root, di, true) == r
  {
    CheckSpaceDemandsCorrect(root, di, true);
    var legal := CheckSpaceDemands(root, di, true);
    if legal.Fail? then legal
    else if root.sizes[di].range.None? then Fail(NoRootExtent(di))
    else Pass
  }

  function AxisTests(root: Widget): (s: seq<Outcome<LayoutError>>)
    requires WellFormed(root)
    ensures |s| == |root.sizes| && forall di :: 0 <= di < |s| ==> s[di] == AxisTest(root, di)
  {
    seq(|root.sizes|, di requires 0 <= di < |root.sizes| => AxisTest(root, di))
  }

  // ---- The global scale.

  /** The largest root extent over the first n axes, starting from 0.0. */
  function RootScale(sizes: seq<WidgetSize>, n: nat): (r: real)
    requires n <= |sizes| && forall d :: 0 <= d < n ==> sizes[d].range.Some?
    ensures r >= 0.0
  {
    if n == 0 then 0.0
    else
      var m := RootScale(sizes, n - 1);
      var e := sizes[n - 1].range.value.hi - sizes[n - 1].range.value.lo;
      if e > m then e else m
  }

  /** The scale bounds every root extent, and is one of them unless every
      extent is non-positive. */
  lemma {:induction false} RootScaleIsMax(sizes: seq<WidgetSize>, n: nat)
    requires n <= |sizes| && forall d :: 0 <= d < n ==> sizes[d].range.Some?
    ensures forall d :: 0 <= d < n ==> sizes[d].range.value.hi - sizes[d].range.value.lo <= RootScale(sizes, n)
    ensures RootScale(sizes, n) == 0.0 ||
      exists d :: 0 <= d < n && RootScale(sizes, n) == sizes[d].range.value.hi - sizes[d].range.value.lo
  {
    if n > 0 {
      RootScaleIsMax(sizes, n - 1);
    }
  }

  // ---- Buffers to world units.

  /** Both buffers of one axis converted with the scale. */
  function WorldSize(s: WidgetSize, scale: real): (r: WidgetSize)
    ensures r.outerBuffer.style == World && r.innerBuffer.style == World
    ensures r.(outerBuffer := s.outerBuffer, innerBuffer := s.innerBuffer) == s
  {
    s.(outerBuffer := s.outerBuffer.SetWorld(scale), innerBuffer := s.innerBuffer.SetWorld(scale))
  }

  /** The first n axes of a widget's sizes converted; the rest untouched. */
  function WorldSizes(sizes: seq<WidgetSize>, scale: real, n: nat): (r: seq<WidgetSize>)
    requires n <= |sizes|
    ensures |r| == |sizes|
    ensures forall d :: 0 <= d < |sizes| ==> r[d] == if d < n then WorldSize(sizes[d], scale) else sizes[d]
  {
    seq(|sizes|, d requires 0 <= d < |sizes| => if d < n then WorldSize(sizes[d], scale) else sizes[d])
  }

  /** `_setBuffersForChildren`: the conversion applied to every widget. */
  function WorldBuffers(w: Widget, scale: real, n: nat): (r: Widget)
    requires HasAxes(w, n)
    ensures r.Leaf? == w.Leaf? && r.name == w.name && |r.sizes| == |w.sizes|
    ensures r.Frame? ==> |r.childList| == |w.childList| && r.childSequenceDir == w.childSequenceDir
    decreases w
  {
    match w
    case Leaf(name, sizes) => Leaf(name, WorldSizes(sizes, scale, n))
    case Frame(name, sizes, kids, dir) =>
      Frame(name, WorldSizes(sizes, scale, n),
            seq(|kids|, i requires 0 <= i < |kids| => WorldBuffers(kids[i], scale, n)), dir)
  }

  /** Every buffer of the first n axes, anywhere in the tree, is in world units. */
  predicate AllWorld(w: Widget, n: nat)
    requires HasAxes(w, n)
  {
    (forall d :: 0 <= d < n ==> w.sizes[d].outerBuffer.style == World && w.sizes[d].innerBuffer.style == World) &&
    (w.Frame? ==> forall i :: 0 <= i < |w.childList| ==> AllWorld(w.childList[i], n))
  }

  /** After the conversion every buffer is in world units, and the layout
      fields (policy, range, justify) of every axis are what they were. */
  lemma {:induction false} WorldBuffersConverts(w: Widget, scale: real, n: nat)
    requires HasAxes(w, n)
    ensures HasAxes(WorldBuffers(w, scale, n), n) && AllWorld(WorldBuffers(w, scale, n), n)
    decreases w
  {
    if w.Frame? {
      forall i | 0 <= i < |w.childList| {
        WorldBuffersConverts(w.childList[i], scale, n);
      }
    }
  }

  /** A tree already in world units is left exactly as it is, whatever the scale. */
  lemma {:induction false} WorldBuffersOfWorld(w: Widget, scale: real, n: nat)
    requires HasAxes(w, n) && AllWorld(w, n)
    ensures WorldBuffers(w, scale, n) == w
    decreases w
  {
    assert WorldSizes(w.sizes, scale, n) == w.sizes;
    if w.Frame? {
      forall i | 0 <= i < |w.childList|
        ensures WorldBuffers(w.childList[i], scale, n) == w.childList[i]
      {
        WorldBuffersOfWorld(w.childList[i], scale, n);
      }
    }
  }

  /** A second conversion changes nothing, even with another scale. */
  lemma WorldBuffersIdempotent(w: Widget, scale: real, scale2: real, n: nat)
    requires HasAxes(w, n)
    ensures HasAxes(WorldBuffers(w, scale, n), n)
    ensures WorldBuffers(WorldBuffers(w, scale, n), scale2, n) == WorldBuffers(w, scale, n)
  {
    WorldBuffersConverts(w, scale, n);
    WorldBuffersOfWorld(WorldBuffers(w, scale, n), scale2, n);
  }

  /** The conversion touches buffers only, so what the solver needs on an
      axis survives it. */
  lemma {:induction false} WorldBuffersSolvable(w: Widget, scale: real, n: nat, di: nat)
    requires HasAxes(w, n) && di < n && HasAxis(w, di)
    ensures HasAxis(WorldBuffers(w, scale, n), di)
    ensures WorldBuffers(w, scale, n).sizes[di].spaceDemand == w.sizes[di].spaceDemand
    ensures WorldBuffers(w, scale, n).sizes[di].range == w.sizes[di].range
    ensures ExactRanged(w, di) ==> ExactRanged(WorldBuffers(w, scale, n), di)
    ensures DemandsLegal(w, di) ==> DemandsLegal(WorldBuffers(w, scale, n), di)
    decreases w
  {
    if w.Frame? {
      forall i | 0 <= i < |w.childList| {
        WorldBuffersSolvable(w.childList[i], scale, n, di);
      }
    }
  }

  /** The source's own example: a fractional buffer of 0.02 under a root
      extent of 6.5 becomes a world buffer of 0.13. */
  lemma SetWorldExample()
    ensures Buffer(0.02, AsFrac).SetWorld(6.5) == Buffer(0.13, World)
    ensures Buffer(0.13, World).SetWorld(6.5) == Buffer(0.13, World)
  {
  }

  // ---- The constructor as a whole.

  /** `Geometry.__init__`: the checks axis by axis (for each axis the policy
      rules, then the root's range), then the conversion of the buffers with
      the largest root extent as scale. */
  function Construct(root: Widget): (r: Result<Widget, LayoutError>)
    requires WellFormed(root)
    ensures r.Failure? <==> exists di :: 0 <= di < |root.sizes| && AxisTest(root, di).Fail?
    ensures r.Failure? ==> r.error == FirstFail(AxisTests(root)).error
    ensures r.Success? ==> forall di :: 0 <= di < |root.sizes| ==> root.sizes[di].range.Some?
  {
    var tests := AxisTests(root);
    var first := FirstFail(tests);
    if first.Fail? then Failure(first.error)
    else
      var n := |root.sizes|;
      AxesPass(root);
      Success(WorldBuffers(root, RootScale(root.sizes, n), n))
  }

  lemma AxesPass(root: Widget)
    requires WellFormed(root) && FirstFail(AxisTests(root)).Pass?
    ensures forall di :: 0 <= di < |root.sizes| ==>
      DemandOf(root, di) != ExpandToFit && DemandsLegal(root, di) && root.sizes[di].range.Some?
  {
    var tests := AxisTests(root);
    forall di | 0 <= di < |root.sizes|
      ensures DemandOf(root, di) != ExpandToFit && DemandsLegal(root, di) && root.sizes[di].range.Some?
    {
      assert tests[di].Pass?;
    }
  }

  /** Construction succeeds exactly when, on every axis, the root has a range
      and does not expand and the policy rules hold throughout the tree. */
  lemma ConstructSucceeds(root: Widget)
    requires WellFormed(root)
    ensures Construct(root).Success? <==>
      forall di :: 0 <= di < |root.sizes| ==>
        DemandOf(root, di) != ExpandToFit && DemandsLegal(root, di) && root.sizes[di].range.Some?
  {
    if Construct(root).Success? {
      AxesPass(root);
    } else {
      var di :| 0 <= di < |root.sizes| && AxisTest(root, di).Fail?;
    }
  }

  /** The constructed tree is the input in world units, ready to be solved on
      every axis, with the same root ranges. */
  lemma ConstructReady(root: Widget)
    requires WellFormed(root) && Construct(root).Success?
    ensures var w := Construct(root).value;
      && |w.sizes| == |root.sizes|
      && HasAxes(w, |w.sizes|) && AllWorld(w, |w.sizes|)
      && (forall di :: 0 <= di < |w.sizes| ==> Solvable(w, di) && w.sizes[di].range == root.sizes[di].range)
      && w == WorldBuffers(root, RootScale(root.sizes, |root.sizes|), |root.sizes|)
  {
    var n := |root.sizes|;
    AxesPass(root);
    var scale := RootScale(root.sizes, n);
    WorldBuffersConverts(root, scale, n);
    forall di | 0 <= di < n
      ensures Solvable(WorldBuffers(root, scale, n), di)
      ensures WorldBuffers(root, scale, n).sizes[di].range == root.sizes[di].range
    {
      WorldBuffersSolvable(root, scale, n, di);
    }
  }

  // ---- The source's loops.

  /** The checking loop of the constructor: stops at the first axis that fails. */
  method CheckAxes(root: Widget) returns (r: Outcome<LayoutError>)
    requires WellFormed(root)
    ensures r == FirstFail(AxisTests(root))
  {
    ghost var tests := AxisTests(root);
    var di := 0;
    while di < |root.sizes|
      invariant 0 <= di <= |root.sizes|
      invariant forall d :: 0 <= d < di ==> tests[d].Pass?
    {
      var legal := CheckSpaceDemands(root, di, true);
      assert tests[di] == AxisTest(root, di);
      if legal.Fail? {
        assert FirstFailIndex(tests) == di;
        return legal;
      }
      if root.sizes[di].range.None? {
        assert FirstFailIndex(tests) == di;
        return Fail(NoRootExtent(di));
      }
      di := di + 1;
    }
    return Pass;
  }

  /** The loop computing `maxRootSize`. */
  method MaxRootSize(root: Widget) returns (maxRootSize: real)
    requires forall d :: 0 <= d < |root.sizes| ==> root.sizes[d].range.Some?
    ensures maxRootSize == RootScale(root.sizes, |root.sizes|)
  {
    maxRootSize := 0.0;
    var di := 0;
    while di < |root.sizes|
      invariant 0 <= di <= |root.sizes|
      invariant maxRootSize == RootScale(root.sizes, di)
    {
      var rootSize := root.sizes[di].range.value.hi - root.sizes[di].range.value.lo;
      if rootSize > maxRootSize {
        maxRootSize := rootSize;
      }
      di := di + 1;
    }
  }

  /** `_setBuffersForChildren` with the source's loops: the widget's own
      buffers axis by axis, then each child in turn. */
  method SetBuffersForChildren(w: Widget, maxRootSize: real, maxNumDims: nat) returns (r: Widget)
    requires HasAxes(w, maxNumDims)
    ensures r == WorldBuffers(w, maxRootSize, maxNumDims)
    decreases w
  {
    var sizes := w.sizes;
    var di := 0;
    while di < maxNumDims
      invariant 0 <= di <= maxNumDims && |sizes| == |w.sizes|
      invariant forall d :: 0 <= d < |sizes| ==> sizes[d] == if d < di then WorldSize(w.sizes[d], maxRootSize) else w.sizes[d]
    {
      var size := sizes[di];
      size := size.(outerBuffer := size.outerBuffer.SetWorld(maxRootSize));
      size := size.(innerBuffer := size.innerBuffer.SetWorld(maxRootSize));
      sizes := sizes[di := size];
      di := di + 1;
    }
    assert sizes == WorldSizes(w.sizes, maxRootSize, maxNumDims);
    if w.Leaf? {
      return Leaf(w.name, sizes);
    }
    var kids := w.childList;
    var done := kids;
    var i := 0;
    while i < |kids|
      invariant 0 <= i <= |kids| && |done| == |kids|
      invariant forall j :: 0 <= j < |kids| ==> done[j] == if j < i then WorldBuffers(kids[j], maxRootSize, maxNumDims) else kids[j]
    {
      var c := SetBuffersForChildren(kids[i], maxRootSize, maxNumDims);
      done := done[i := c];
      i := i + 1;
    }
    r := Frame(w.name, sizes, done, w.childSequenceDir);
    assert r.childList == WorldBuffers(w, maxRootSize, maxNumDims).childList;
  }
}
