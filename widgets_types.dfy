/** Data model of the older, in-class layout engine of the widgets module:
    `Size`, the two-axis widget tree and the per-axis layout state every
    widget carries (demand, size, buffer fractions, buffers, range). This
    engine is separate from the constraint solver: it keeps half of the
    inner buffer at each side of a frame, half of the outer buffer at each
    side of a gap, and scales buffers by the GUI's size on each axis. */
module WidgetTypes {
  import opened Wrappers

  /** `xOrY`: 0 for the X axis, 1 for the Y axis. */
  type Axis = a: nat | a < 2

  /** A value per axis, as the source's two-element lists. */
  datatype PerAxis<T> = PerAxis(x: T, y: T) {
    function At(a: Axis): T
    {
      if a == 0 then x else y
    }

    function With(a: Axis, v: T): (r: PerAxis<T>)
      ensures r.At(a) == v
      ensures forall b: Axis :: b != a ==> r.At(b) == At(b)
    {
      if a == 0 then PerAxis(v, y) else PerAxis(x, v)
    }
  }

  datatype Demand = ShrinkToFit | Exact | ExpandToFit

  /** `alongJustify`: where the children go along their sequence. */
  datatype AlongJustify = LeftOrDown | RightOrUp | Centre | Spread

  /** `crossJustify`: where the children go across their sequence
      (`spread` is not offered there). */
  datatype CrossJustify = CrossLeftOrDown | CrossRightOrUp | CrossCentre

  /** Every error the widgets module raises while building or laying out. */
  datatype WidgetError =
    | UnknownDemand(demand: string)
    | ExactWithoutSize
    | NameTaken(name: string)
    | ShrinkOnNonFrame
    | ExpandUnderShrink(axis: Axis)
    | ParentNotFrame
    | UnknownAlongJustify(justify: string, name: string)
    | UnknownCrossJustify(justify: string, name: string)
    | GuiExpands
    | GuiWithoutSize
    | ShrinkWithExpandingChild
    | ChildrenTooLarge(axis: Axis, name: string)
    | RangeUnset(name: string, axis: Axis)
    | FrameNotExact(name: string, axis: Axis)
    | ChildNotExact(name: string, axis: Axis, child: string)
    /** Not raised by the source: the model's bound on the depth of the
        size recursion ran out. No layout of a tree of n widgets given
        fuel n ever reports it. */
    | FuelExhausted

  function ParseDemand(s: string): Option<Demand>
  {
    if s == "shrinkToFit" then Some(ShrinkToFit)
    else if s == "exact" then Some(Exact)
    else if s == "expandToFit" then Some(ExpandToFit)
    else None
  }

  function ParseAlong(s: string): Option<AlongJustify>
  {
    if s == "leftOrDown" then Some(LeftOrDown)
    else if s == "rightOrUp" then Some(RightOrUp)
    else if s == "centre" then Some(Centre)
    else if s == "spread" then Some(Spread)
    else None
  }

  function ParseCross(s: string): Option<CrossJustify>
  {
    if s == "leftOrDown" then Some(CrossLeftOrDown)
    else if s == "rightOrUp" then Some(CrossRightOrUp)
    else if s == "centre" then Some(CrossCentre)
    else None
  }

  /** A `Size` object: the demand on one axis and the size, if given. */
  datatype Size = Size(spaceDemand: Demand, size: Option<real>)

  /** The Size constructor: an unknown demand is refused first, then
      `exact` without a size. */
  function NewSize(spaceDemand: string, size: Option<real>): (r: Result<Size, WidgetError>)
    ensures r.Success? <==> ParseDemand(spaceDemand).Some? && (spaceDemand == "exact" ==> size.Some?)
    ensures ParseDemand(spaceDemand).None? ==> r == Failure(UnknownDemand(spaceDemand))
    ensures spaceDemand == "exact" && size.None? ==> r == Failure(ExactWithoutSize)
    ensures r.Success? ==> Some(r.value.spaceDemand) == ParseDemand(spaceDemand) && r.value.size == size
  {
    match ParseDemand(spaceDemand)
    case None => Failure(UnknownDemand(spaceDemand))
    case Some(d) => if d == Exact && size.None? then Failure(ExactWithoutSize) else Success(Size(d, size))
  }

  /** The `ranges.SimpleRange` the layout writes. */
  datatype Range = Range(lo: real, hi: real)

  /** A widget's state on one axis. A size or buffer the source holds as None
      until it is computed is 0.0 here. */
  datatype AxisLayout = AxisLayout(
    spaceDemand: Demand,
    size: real,
    innerBufferFrac: real,
    outerBufferFrac: real,
    innerBuffer: real,
    outerBuffer: real,
    range: Option<Range>)

  /** A widget: a Frame holds its children in order, the axis they are laid
      along and its two justifications; any other widget is a Leaf. */
  datatype Node =
    | Leaf(name: string, isEnabled: bool, axes: PerAxis<AxisLayout>)
    | Frame(name: string, isEnabled: bool, axes: PerAxis<AxisLayout>, childList: seq<Node>,
            childSequenceDir: int, alongJustify: AlongJustify, crossJustify: CrossJustify)

  function DemandOf(w: Node, a: Axis): Demand
  {
    w.axes.At(a).spaceDemand
  }

  function SizeOf(w: Node, a: Axis): real
  {
    w.axes.At(a).size
  }

  function Inner(w: Node, a: Axis): real
  {
    w.axes.At(a).innerBuffer
  }

  function Outer(w: Node, a: Axis): real
  {
    w.axes.At(a).outerBuffer
  }

  /** The widget with its state on axis a replaced; nothing else changes. */
  function WithAxis(w: Node, a: Axis, l: AxisLayout): (r: Node)
    ensures r.axes.At(a) == l && forall b: Axis :: b != a ==> r.axes.At(b) == w.axes.At(b)
    ensures r.Leaf? == w.Leaf? && r.name == w.name && r.isEnabled == w.isEnabled
    ensures r.Frame? ==> r.childList == w.childList && r.childSequenceDir == w.childSequenceDir
    ensures r.Frame? ==> r.alongJustify == w.alongJustify && r.crossJustify == w.crossJustify
    ensures NodeCount(r) == NodeCount(w)
  {
    w.(axes := w.axes.With(a, l))
  }

  /** Number of widgets in the tree: the measure for recursions that descend
      into a child the parent has just rewritten. */
  function NodeCount(w: Node): (n: nat)
    ensures w.Frame? ==> forall i :: 0 <= i < |w.childList| ==> NodeCount(w.childList[i]) < n
  {
    match w
    case Leaf(_, _, _) => 1
    case Frame(_, _, _, kids, _, _, _) =>
      var counts := Counts(kids);
      SumNatAll(counts);
      1 + SumNat(counts)
  }

  function Counts(kids: seq<Node>): (s: seq<nat>)
    ensures |s| == |kids| && forall i :: 0 <= i < |kids| ==> s[i] == NodeCount(kids[i])
  {
    seq(|kids|, i requires 0 <= i < |kids| => NodeCount(kids[i]))
  }

  lemma SumNatAll(s: seq<nat>)
    ensures forall i :: 0 <= i < |s| ==> s[i] <= SumNat(s)
  {
    forall i | 0 <= i < |s| {
      SumNatBounds(s, i);
    }
  }

  /** Replacing children by children of the same sizes keeps the count. */
  lemma NodeCountKids(w: Node, ks: seq<Node>)
    requires w.Frame? && |ks| == |w.childList|
    requires forall i :: 0 <= i < |ks| ==> NodeCount(ks[i]) == NodeCount(w.childList[i])
    ensures NodeCount(w.(childList := ks)) == NodeCount(w)
  {
    assert Counts(ks) == Counts(w.childList);
  }

  /** Two lists of children that differ only where the first one was
      rewritten keep the same counts. */
  predicate SameCounts(a: seq<Node>, b: seq<Node>)
  {
    |a| == |b| && forall i :: 0 <= i < |a| ==> NodeCount(a[i]) == NodeCount(b[i])
  }

  lemma SameCountsUpdate(a: seq<Node>, b: seq<Node>, i: nat, t: Node)
    requires SameCounts(a, b) && i < |a| && NodeCount(t) == NodeCount(a[i])
    ensures SameCounts(a[i := t], b)
  {
  }

  /** Two trees with the same widgets in the same places: the same kinds,
      names and enabled flags, level by level. Layout preserves this. */
  predicate SameShape(u: Node, v: Node)
  {
    && u.Leaf? == v.Leaf? && u.name == v.name && u.isEnabled == v.isEnabled
    && (u.Frame? ==>
         && |u.childList| == |v.childList|
         && forall i :: 0 <= i < |u.childList| ==> SameShape(u.childList[i], v.childList[i]))
  }

  /** Two child lists with the same shape, child by child. */
  predicate KidsShape(ks: seq<Node>, ks': seq<Node>)
  {
    |ks| == |ks'| && forall i :: 0 <= i < |ks| ==> SameShape(ks[i], ks'[i])
  }

  lemma {:induction false} SameShapeRefl(w: Node)
    ensures SameShape(w, w)
  {
    if w.Frame? {
      forall i | 0 <= i < |w.childList| {
        SameShapeRefl(w.childList[i]);
      }
    }
  }

  lemma {:induction false} SameShapeTrans(u: Node, v: Node, t: Node)
    requires SameShape(u, v) && SameShape(v, t)
    ensures SameShape(u, t)
  {
    if u.Frame? {
      forall i | 0 <= i < |u.childList| {
        SameShapeTrans(u.childList[i], v.childList[i], t.childList[i]);
      }
    }
  }

  /** Rewriting one widget's state on an axis keeps the shape. */
  lemma WithAxisShape(u: Node, w: Node, a: Axis, l: AxisLayout)
    requires SameShape(u, w)
    ensures SameShape(u, WithAxis(w, a, l))
  {
  }

  /** A frame whose children are replaced by children of the same shape
      keeps its shape. */
  lemma KidsShapeFrame(u: Node, w: Node, ks: seq<Node>)
    requires SameShape(u, w) && w.Frame? && KidsShape(w.childList, ks)
    ensures SameShape(u, w.(childList := ks))
  {
    forall i | 0 <= i < |u.childList|
      ensures SameShape(u.childList[i], ks[i])
    {
      SameShapeTrans(u.childList[i], w.childList[i], ks[i]);
    }
  }
}
