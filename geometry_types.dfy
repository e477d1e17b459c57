/** Data model of the constraint layout solver (widgeometry.py): buffers,
    per-axis size specifications and the widget tree they hang on, with the
    sums and predicates over a widget's children that every phase of the
    solver uses. */
module GeometryTypes {
  import opened Wrappers

  /** Unit mode of a buffer: a fraction of the root's largest extent, or world units. */
  datatype Style = AsFrac | World

  /** The size policy of a widget on one axis. */
  datatype Demand = ShrinkToFit | Exact | ExpandToFit

  /** How the children of a frame are justified along one axis. */
  datatype Justify = ToLowest | ToHighest | Centre | Spread

  /** Every error the solver raises, with the axis and widget names it reports. */
  datatype LayoutError =
    | BadBufferStyle(style: string)
    | InvalidPolicy(demand: string)
    | MissingExtent
    | InvalidJustify(justify: string)
    | RootCannotExpand(di: nat, name: string)
    | LeafCannotShrink(di: nat, name: string)
    | ExpandUnderShrink(di: nat, parent: string, child: string)
    | NoRootExtent(di: nat)
    | InsufficientSpace(di: nat, name: string)
    | ChildTooLarge(di: nat, child: string, name: string)
    | NoSpaceToExpand(di: nat, name: string)

  /** Inner buffer (parent to children) or outer buffer (between siblings). */
  datatype Buffer = Buffer(value: real, style: Style) {
    /** Converts a fractional buffer to world units; a world buffer is left alone. */
    function SetWorld(guiMaxExtent: real): (b: Buffer)
      ensures b.style == World
      ensures style == AsFrac ==> b.value == value * guiMaxExtent
      ensures style == World ==> b == this
    {
      if style == World then this else Buffer(value * guiMaxExtent, World)
    }
  }

  function ParseStyle(style: string): Option<Style>
  {
    if style == "asFrac" then Some(AsFrac)
    else if style == "world" then Some(World)
    else None
  }

  /** The Buffer constructor: only the two known styles are accepted. */
  function NewBuffer(value: real, style: string): (r: Result<Buffer, LayoutError>)
    ensures r.Failure? <==> style != "asFrac" && style != "world"
    ensures r.Failure? ==> r.error == BadBufferStyle(style)
    ensures r.Success? ==> r.value.value == value
    ensures style == "asFrac" ==> r == Success(Buffer(value, AsFrac))
    ensures style == "world" ==> r == Success(Buffer(value, World))
  {
    match ParseStyle(style)
    case None => Failure(BadBufferStyle(style))
    case Some(s) => Success(Buffer(value, s))
  }

  /** The `ranges.SimpleRange` pair the solver writes. */
  datatype Range = Range(lo: real, hi: real)

  /** One axis of a widget's size specification. */
  datatype WidgetSize = WidgetSize(
    spaceDemand: Demand,
    range: Option<Range>,
    outerBuffer: Buffer,
    innerBuffer: Buffer,
    childrenJustify: Justify)

  function ParseDemand(s: string): Option<Demand>
  {
    if s == "shrinkToFit" then Some(ShrinkToFit)
    else if s == "exact" then Some(Exact)
    else if s == "expandToFit" then Some(ExpandToFit)
    else None
  }

  function ParseJustify(s: string): Option<Justify>
  {
    if s == "toLowest" then Some(ToLowest)
    else if s == "toHighest" then Some(ToHighest)
    else if s == "centre" then Some(Centre)
    else if s == "spread" then Some(Spread)
    else None
  }

  /** The WidgetSize constructor with its three validations, in source order.
      A missing buffer defaults to a zero fractional buffer. */
  function NewWidgetSize(spaceDemand: string, maxExtent: Option<real>, outerBuffer: Option<Buffer>,
                         innerBuffer: Option<Buffer>, childrenJustify: string): (r: Result<WidgetSize, LayoutError>)
    ensures r.Success? <==>
      ParseDemand(spaceDemand).Some? && (spaceDemand == "exact" ==> maxExtent.Some?) &&
      ParseJustify(childrenJustify).Some?
    ensures ParseDemand(spaceDemand).None? ==> r == Failure(InvalidPolicy(spaceDemand))
    ensures spaceDemand == "exact" && maxExtent.None? ==> r == Failure(MissingExtent)
    ensures (ParseDemand(spaceDemand).Some? && (spaceDemand == "exact" ==> maxExtent.Some?) &&
             ParseJustify(childrenJustify).None?) ==> r == Failure(InvalidJustify(childrenJustify))
    ensures r.Success? ==>
      && Some(r.value.spaceDemand) == ParseDemand(spaceDemand)
      && Some(r.value.childrenJustify) == ParseJustify(childrenJustify)
      && (maxExtent.Some? ==> r.value.range == Some(Range(0.0, maxExtent.value)))
      && (maxExtent.None? ==> r.value.range.None?)
      && (outerBuffer.None? ==> r.value.outerBuffer == Buffer(0.0, AsFrac))
      && (innerBuffer.None? ==> r.value.innerBuffer == Buffer(0.0, AsFrac))
      && (outerBuffer.Some? ==> r.value.outerBuffer == outerBuffer.value)
      && (innerBuffer.Some? ==> r.value.innerBuffer == innerBuffer.value)
  {
    match ParseDemand(spaceDemand)
    case None => Failure(InvalidPolicy(spaceDemand))
    case Some(demand) =>
      if demand == Exact && maxExtent.None? then Failure(MissingExtent)
      else
        match ParseJustify(childrenJustify)
        case None => Failure(InvalidJustify(childrenJustify))
        case Some(justify) =>
          var range := if maxExtent.None? then None else Some(Range(0.0, maxExtent.value));
          var outer := if outerBuffer.None? then Buffer(0.0, AsFrac) else outerBuffer.value;
          var inner := if innerBuffer.None? then Buffer(0.0, AsFrac) else innerBuffer.value;
          Success(WidgetSize(demand, range, outer, inner, justify))
  }

  /** A widget of the tree: `sizes` holds one WidgetSize per axis. A Leaf is a
      widget whose `children` is None; a Frame carries the child list and the
      axis its children are laid along. */
  datatype Widget =
    | Leaf(name: string, sizes: seq<WidgetSize>)
    | Frame(name: string, sizes: seq<WidgetSize>, childList: seq<Widget>, childSequenceDir: int)

  /** Number of widgets in the tree: the measure for recursions that descend
      into a child after the parent has rewritten the child's size. */
  function NodeCount(w: Widget): (n: nat)
    ensures w.Frame? ==> forall i :: 0 <= i < |w.childList| ==> NodeCount(w.childList[i]) < n
  {
    match w
    case Leaf(_, _) => 1
    case Frame(_, _, kids, _) =>
      var counts := seq(|kids|, i requires 0 <= i < |kids| => NodeCount(kids[i]));
      assert forall i :: 0 <= i < |kids| ==> counts[i] == NodeCount(kids[i]);
      SumNatAll(counts);
      1 + SumNat(counts)
  }

  lemma SumNatAll(s: seq<nat>)
    ensures forall i :: 0 <= i < |s| ==> s[i] <= SumNat(s)
  {
    forall i | 0 <= i < |s| {
      SumNatBounds(s, i);
    }
  }

  /** The widget with its size on axis di replaced; nothing else changes. */
  function WithSize(w: Widget, di: nat, s: WidgetSize): (r: Widget)
    requires di < |w.sizes|
    ensures |r.sizes| == |w.sizes| && r.sizes[di] == s
    ensures forall d :: 0 <= d < |w.sizes| && d != di ==> r.sizes[d] == w.sizes[d]
    ensures r.Leaf? == w.Leaf? && r.name == w.name
    ensures r.Frame? ==> r.childList == w.childList && r.childSequenceDir == w.childSequenceDir
    ensures NodeCount(r) == NodeCount(w)
  {
    w.(sizes := w.sizes[di := s])
  }

  /** Every widget of the tree has a size specification for axis di. */
  predicate HasAxis(w: Widget, di: nat)
  {
    di < |w.sizes| &&
    (w.Frame? ==> forall i :: 0 <= i < |w.childList| ==> di < |w.childList[i].sizes| && HasAxis(w.childList[i], di))
  }

  predicate KidsHaveAxis(ks: seq<Widget>, di: nat)
  {
    forall k :: k in ks ==> di < |k.sizes|
  }

  /** Every child in the list has a range on axis di. */
  predicate KidsRanged(ks: seq<Widget>, di: nat)
  {
    forall k :: k in ks ==> di < |k.sizes| && k.sizes[di].range.Some?
  }

  function DemandOf(w: Widget, di: nat): Demand
    requires di < |w.sizes|
  {
    w.sizes[di].spaceDemand
  }

  function Outer(w: Widget, di: nat): real
    requires di < |w.sizes|
  {
    w.sizes[di].outerBuffer.value
  }

  function Inner(w: Widget, di: nat): real
    requires di < |w.sizes|
  {
    w.sizes[di].innerBuffer.value
  }

  predicate Ranged(w: Widget, di: nat)
  {
    di < |w.sizes| && w.sizes[di].range.Some?
  }

  /** `range.hi - range.lo` of the widget on axis di. */
  function Extent(w: Widget, di: nat): real
    requires Ranged(w, di)
  {
    w.sizes[di].range.value.hi - w.sizes[di].range.value.lo
  }

  /** The room inside w's inner buffers on axis di. */
  function Interior(w: Widget, di: nat): (r: real)
    requires Ranged(w, di)
    ensures r + 2.0 * Inner(w, di) == Extent(w, di)
  {
    Extent(w, di) - 2.0 * Inner(w, di)
  }

  /** Every `exact` widget of the tree has a range on axis di (the
      WidgetSize constructor guarantees it, and every phase keeps it). */
  predicate ExactRanged(w: Widget, di: nat)
    requires HasAxis(w, di)
  {
    (DemandOf(w, di) == Exact ==> w.sizes[di].range.Some?) &&
    (w.Frame? ==> forall i :: 0 <= i < |w.childList| ==>
                    (DemandOf(w.childList[i], di) == Exact ==> Ranged(w.childList[i], di)) &&
                    ExactRanged(w.childList[i], di))
  }

  /** No widget of the tree is `shrinkToFit` on axis di. */
  predicate NoShrink(w: Widget, di: nat)
    requires HasAxis(w, di)
  {
    DemandOf(w, di) != ShrinkToFit &&
    (w.Frame? ==> forall i :: 0 <= i < |w.childList| ==>
                    DemandOf(w.childList[i], di) != ShrinkToFit && NoShrink(w.childList[i], di))
  }

  /** Every widget of the tree is `exact` and has a range on axis di. */
  predicate AllExact(w: Widget, di: nat)
    requires HasAxis(w, di)
  {
    DemandOf(w, di) == Exact && w.sizes[di].range.Some? &&
    (w.Frame? ==> forall i :: 0 <= i < |w.childList| ==>
                    DemandOf(w.childList[i], di) == Exact && Ranged(w.childList[i], di) &&
                    AllExact(w.childList[i], di))
  }

  /** Every widget of the tree has a range on axis di. */
  predicate AllRanged(w: Widget, di: nat)
    requires HasAxis(w, di)
  {
    w.sizes[di].range.Some? &&
    (w.Frame? ==> forall i :: 0 <= i < |w.childList| ==>
                    Ranged(w.childList[i], di) && AllRanged(w.childList[i], di))
  }

  /** The legality rules on size policies: a childless widget never shrinks,
      and a shrinking frame has no expanding child. */
  predicate DemandsLegal(w: Widget, di: nat)
    requires HasAxis(w, di)
  {
    (w.Leaf? ==> DemandOf(w, di) != ShrinkToFit) &&
    (w.Frame? ==>
      (DemandOf(w, di) == ShrinkToFit ==>
         forall i :: 0 <= i < |w.childList| ==> DemandOf(w.childList[i], di) != ExpandToFit) &&
      (forall i :: 0 <= i < |w.childList| ==> DemandsLegal(w.childList[i], di)))
  }

  /** `a` and `b` are the same tree apart from the sizes on axis di. */
  predicate SameExceptAxis(a: Widget, b: Widget, di: nat)
  {
    && a.Leaf? == b.Leaf? && a.name == b.name
    && |a.sizes| == |b.sizes|
    && (forall d :: 0 <= d < |a.sizes| && d != di ==> a.sizes[d] == b.sizes[d])
    && (a.Frame? ==>
         && a.childSequenceDir == b.childSequenceDir
         && |a.childList| == |b.childList|
         && forall i :: 0 <= i < |a.childList| ==> SameExceptAxis(a.childList[i], b.childList[i], di))
  }

  lemma {:induction false} SameExceptAxisRefl(w: Widget, di: nat)
    ensures SameExceptAxis(w, w, di)
    decreases w
  {
    if w.Frame? {
      forall i | 0 <= i < |w.childList| {
        SameExceptAxisRefl(w.childList[i], di);
      }
    }
  }

  lemma {:induction false} SameExceptAxisTrans(a: Widget, b: Widget, c: Widget, di: nat)
    requires SameExceptAxis(a, b, di) && SameExceptAxis(b, c, di)
    ensures SameExceptAxis(a, c, di)
    decreases a
  {
    if a.Frame? {
      forall i | 0 <= i < |a.childList| {
        SameExceptAxisTrans(a.childList[i], b.childList[i], c.childList[i], di);
      }
    }
  }

  // ---- Sums over a child list, each defined on the last element so that a
  // ---- loop running forward over the children extends them one step at a time.

  /** Σ 2·outer over the children. */
  function OuterSum(ks: seq<Widget>, di: nat): real
    requires KidsHaveAxis(ks, di)
  {
    if ks == [] then 0.0 else OuterSum(ks[..|ks| - 1], di) + 2.0 * Outer(ks[|ks| - 1], di)
  }

  /** Σ extent over the `exact` children. */
  function ExactSum(ks: seq<Widget>, di: nat): real
    requires KidsHaveAxis(ks, di)
    requires forall k :: k in ks && DemandOf(k, di) == Exact ==> k.sizes[di].range.Some?
  {
    if ks == [] then 0.0
    else
      var last := ks[|ks| - 1];
      ExactSum(ks[..|ks| - 1], di) + (if DemandOf(last, di) == Exact then Extent(last, di) else 0.0)
  }

  /** Σ extent over the children that are not `expandToFit`. */
  function FixedSum(ks: seq<Widget>, di: nat): real
    requires KidsHaveAxis(ks, di)
    requires forall k :: k in ks && DemandOf(k, di) != ExpandToFit ==> k.sizes[di].range.Some?
  {
    if ks == [] then 0.0
    else
      var last := ks[|ks| - 1];
      FixedSum(ks[..|ks| - 1], di) + (if DemandOf(last, di) != ExpandToFit then Extent(last, di) else 0.0)
  }

  /** Σ extent over all the children. */
  function ExtentSum(ks: seq<Widget>, di: nat): real
    requires KidsRanged(ks, di)
  {
    if ks == [] then 0.0 else ExtentSum(ks[..|ks| - 1], di) + Extent(ks[|ks| - 1], di)
  }

  /** The largest child extent. */
  function MaxExtent(ks: seq<Widget>, di: nat): real
    requires |ks| > 0 && KidsRanged(ks, di)
  {
    if |ks| == 1 then Extent(ks[0], di)
    else
      var m0 := MaxExtent(ks[..|ks| - 1], di);
      var e := Extent(ks[|ks| - 1], di);
      if e > m0 then e else m0
  }

  /** MaxExtent is the maximum: an upper bound attained by some child. */
  lemma {:induction false} MaxExtentIsMax(ks: seq<Widget>, di: nat)
    requires |ks| > 0 && KidsRanged(ks, di)
    ensures forall i :: 0 <= i < |ks| ==> Extent(ks[i], di) <= MaxExtent(ks, di)
    ensures exists i :: 0 <= i < |ks| && Extent(ks[i], di) == MaxExtent(ks, di)
  {
    if |ks| == 1 {
      assert Extent(ks[0], di) == MaxExtent(ks, di);
    } else {
      var prefix := ks[..|ks| - 1];
      MaxExtentIsMax(prefix, di);
      assert forall i :: 0 <= i < |ks| - 1 ==> prefix[i] == ks[i];
      var j :| 0 <= j < |prefix| && Extent(prefix[j], di) == MaxExtent(prefix, di);
      if Extent(ks[|ks| - 1], di) > MaxExtent(prefix, di) {
        assert Extent(ks[|ks| - 1], di) == MaxExtent(ks, di);
      } else {
        assert Extent(ks[j], di) == MaxExtent(ks, di);
      }
    }
  }

  /** Number of `expandToFit` children. */
  function CountExpand(ks: seq<Widget>, di: nat): (n: nat)
    requires KidsHaveAxis(ks, di)
    ensures n <= |ks|
    ensures n == 0 <==> forall i :: 0 <= i < |ks| ==> DemandOf(ks[i], di) != ExpandToFit
  {
    if ks == [] then 0
    else
      var prefix := ks[..|ks| - 1];
      assert forall i :: 0 <= i < |ks| - 1 ==> prefix[i] == ks[i];
      CountExpand(prefix, di) + (if DemandOf(ks[|ks| - 1], di) == ExpandToFit then 1 else 0)
  }

  lemma CountExpandLast(ks: seq<Widget>, di: nat)
    requires ks != [] && KidsHaveAxis(ks, di)
    ensures KidsHaveAxis(ks[..|ks| - 1], di)
    ensures CountExpand(ks, di) == CountExpand(ks[..|ks| - 1], di) + (if DemandOf(ks[|ks| - 1], di) == ExpandToFit then 1 else 0)
  {
    assert forall k :: k in ks[..|ks| - 1] ==> k in ks;
  }

  /** Counting one more child. */
  lemma CountExpandSnoc(ks: seq<Widget>, c: Widget, di: nat)
    requires KidsHaveAxis(ks, di) && di < |c.sizes|
    ensures KidsHaveAxis(ks + [c], di)
    ensures CountExpand(ks + [c], di) == CountExpand(ks, di) + (if DemandOf(c, di) == ExpandToFit then 1 else 0)
  {
    assert (ks + [c])[..|ks|] == ks;
  }

  /** Extent of a run of children laid end to end: Σ extents plus the gap
      outer_i + outer_{i+1} between neighbours, i.e. Σ (extent + 2·outer)
      less the first and last child's outer buffer. */
  function ParallelSpan(ks: seq<Widget>, di: nat): real
    requires |ks| > 0
    requires KidsRanged(ks, di)
  {
    ExtentSum(ks, di) + OuterSum(ks, di) - Outer(ks[0], di) - Outer(ks[|ks| - 1], di)
  }

  // ---- Facts about the sums.

  lemma {:induction false} ExtentSumIsExactSum(ks: seq<Widget>, di: nat)
    requires KidsRanged(ks, di) && forall k :: k in ks ==> DemandOf(k, di) == Exact
    ensures ExtentSum(ks, di) == ExactSum(ks, di) == FixedSum(ks, di)
  {
    if ks != [] {
      ExtentSumIsExactSum(ks[..|ks| - 1], di);
    }
  }

  /** The sums depend only on each child's size on the axis. */
  lemma {:induction false} ExtentSumBySizes(a: seq<Widget>, b: seq<Widget>, di: nat)
    requires |a| == |b| && KidsRanged(a, di) && KidsRanged(b, di)
    requires forall i :: 0 <= i < |a| ==> a[i].sizes == b[i].sizes
    ensures ExtentSum(a, di) == ExtentSum(b, di)
  {
    if a != [] {
      ExtentSumLast(a, di);
      ExtentSumLast(b, di);
      SizesPrefix(a, b, a[..|a| - 1], b[..|b| - 1]);
      ExtentSumBySizes(a[..|a| - 1], b[..|b| - 1], di);
    }
  }

  lemma {:induction false} OuterSumBySizes(a: seq<Widget>, b: seq<Widget>, di: nat)
    requires |a| == |b| && KidsHaveAxis(a, di) && KidsHaveAxis(b, di)
    requires forall i :: 0 <= i < |a| ==> a[i].sizes == b[i].sizes
    ensures OuterSum(a, di) == OuterSum(b, di)
  {
    if a != [] {
      OuterSumLast(a, di);
      OuterSumLast(b, di);
      SizesPrefix(a, b, a[..|a| - 1], b[..|b| - 1]);
      OuterSumBySizes(a[..|a| - 1], b[..|b| - 1], di);
    }
  }

  lemma ExtentSumLast(a: seq<Widget>, di: nat)
    requires a != [] && KidsRanged(a, di)
    ensures KidsRanged(a[..|a| - 1], di)
    ensures ExtentSum(a, di) == ExtentSum(a[..|a| - 1], di) + Extent(a[|a| - 1], di)
  {
    assert forall k :: k in a[..|a| - 1] ==> k in a;
  }

  lemma OuterSumLast(a: seq<Widget>, di: nat)
    requires a != [] && KidsHaveAxis(a, di)
    ensures KidsHaveAxis(a[..|a| - 1], di)
    ensures OuterSum(a, di) == OuterSum(a[..|a| - 1], di) + 2.0 * Outer(a[|a| - 1], di)
  {
    assert forall k :: k in a[..|a| - 1] ==> k in a;
  }

  lemma FixedSumLast(a: seq<Widget>, di: nat)
    requires a != [] && KidsHaveAxis(a, di)
    requires forall k :: k in a && DemandOf(k, di) != ExpandToFit ==> k.sizes[di].range.Some?
    ensures KidsHaveAxis(a[..|a| - 1], di)
    ensures forall k :: k in a[..|a| - 1] && DemandOf(k, di) != ExpandToFit ==> k.sizes[di].range.Some?
    ensures FixedSum(a, di) ==
      FixedSum(a[..|a| - 1], di) + (if DemandOf(a[|a| - 1], di) != ExpandToFit then Extent(a[|a| - 1], di) else 0.0)
  {
    assert forall k :: k in a[..|a| - 1] ==> k in a;
  }

  lemma SizesPrefix(a: seq<Widget>, b: seq<Widget>, a': seq<Widget>, b': seq<Widget>)
    requires |a| == |b| > 0 && forall i :: 0 <= i < |a| ==> a[i].sizes == b[i].sizes
    requires a' == a[..|a| - 1] && b' == b[..|b| - 1]
    ensures forall i :: 0 <= i < |a'| ==> a'[i].sizes == b'[i].sizes
    ensures a[|a| - 1].sizes == b[|b| - 1].sizes
  {
  }

  /** i·g, accumulated one gap at a time as the loops do. */
  function Spacing(i: nat, g: real): real
  {
    if i == 0 then 0.0 else Spacing(i - 1, g) + g
  }

  lemma {:induction false} SpacingIsProduct(i: nat, g: real)
    ensures Spacing(i, g) == i as real * g
  {
    if i > 0 {
      SpacingIsProduct(i - 1, g);
      MulSucc((i - 1) as real, g);
    }
  }

  lemma {:induction false} SpacingZero(i: nat)
    ensures Spacing(i, 0.0) == 0.0
  {
    if i > 0 {
      SpacingZero(i - 1);
    }
  }

  lemma SpacingSucc(i: nat, g: real)
    ensures Spacing(i + 1, g) == Spacing(i, g) + g
  {
  }

  /** Spreading d over k gaps puts d in the spacing. */
  lemma SharedGap(d: real, k: nat)
    requires k > 0
    ensures Spacing(k, d / k as real) == d
  {
    SpacingIsProduct(k, d / k as real);
    DivMul(d, k as real, d / k as real);
  }

  lemma DivMul(a: real, k: real, e: real)
    requires k != 0.0 && e == a / k
    ensures k * e == a
  {
  }

  lemma MulSucc(c: real, e: real)
    ensures (c + 1.0) * e == c * e + e
  {
  }

  /** Lists whose widgets have the same sizes span the same extent. */
  lemma SpanBySizes(a: seq<Widget>, b: seq<Widget>, di: nat)
    requires |a| == |b| > 0 && KidsRanged(a, di)
    requires forall i :: 0 <= i < |a| ==> a[i].sizes == b[i].sizes
    ensures KidsRanged(b, di) && ParallelSpan(a, di) == ParallelSpan(b, di)
  {
    RangedBySizes(a, b, di);
    ExtentSumBySizes(a, b, di);
    OuterSumBySizes(a, b, di);
    assert a[0].sizes == b[0].sizes && a[|a| - 1].sizes == b[|b| - 1].sizes;
  }

  lemma RangedBySizes(a: seq<Widget>, b: seq<Widget>, di: nat)
    requires |a| == |b| && KidsRanged(a, di)
    requires forall i :: 0 <= i < |a| ==> a[i].sizes == b[i].sizes
    ensures KidsRanged(b, di)
  {
    forall k | k in b
      ensures di < |k.sizes| && k.sizes[di].range.Some?
    {
      var i :| 0 <= i < |b| && b[i] == k;
      assert a[i] in a;
    }
  }
}
