/** The GUI frame (`GUI`): it owns the widget tree and the name registry,
    refuses bad widgets as they are created, and `doSetUp` lays the tree
    out: it sets every buffer from the GUI's size on each axis, then sizes
    the whole tree on each axis (a `shrinkToFit` GUI taking its
    children's size) and gives the GUI the range [0, size], then positions
    every widget on each axis. */
module WidgetGui {
  import opened Wrappers
  import opened WidgetTypes
  import opened WidgetTree
  import opened WidgetBuild
  import opened WidgetSizing
  import opened WidgetFit
  import opened WidgetPosition

  /** The tree as a stage of `doSetUp` leaves it, and whether it raised. */
  datatype Stage = Stage(tree: Node, outcome: Outcome<WidgetError>)

  // ---- The three loops of doSetUp, one axis at a time.

  /** The first loop's work on axis a: the buffers below the GUI from its
      size on a, then the GUI's own. */
  function BufferAxis(w: Node, a: Axis): Node
  {
    OwnBuffers(Buffered(w, a, SizeOf(w, a)), a, SizeOf(w, a))
  }

  /** The first loop over axes 0 .. n-1. */
  function BuffersUpTo(w: Node, n: nat): Node
    requires n <= 2
  {
    if n == 0 then w else BufferAxis(BuffersUpTo(w, n - 1), n - 1)
  }

  /** The second loop's work on axis a: size the tree (given its widget
      count as fuel); a `shrinkToFit` GUI takes its inner buffer plus its
      children's total and becomes `exact`; the GUI's range is [0, size]. */
  function SizeAxis(w: Node, a: Axis): Stage
  {
    var s := TotalSize(w, a, NodeCount(w));
    if s.total.Failure? then Stage(s.tree, Fail(s.total.error))
    else
      var l := s.tree.axes.At(a);
      var l' := if l.spaceDemand == ShrinkToFit then l.(size := l.innerBuffer + s.total.value, spaceDemand := Exact) else l;
      Stage(WithAxis(s.tree, a, l'.(range := Some(Range(0.0, l'.size)))), Pass)
  }

  /** The second loop over axes 0 .. n-1, stopping at the first error. */
  function SizesUpTo(w: Node, n: nat): Stage
    requires n <= 2
  {
    if n == 0 then Stage(w, Pass)
    else
      var s := SizesUpTo(w, n - 1);
      if s.outcome.Fail? then s else SizeAxis(s.tree, n - 1)
  }

  /** The third loop over axes 0 .. n-1, stopping at the first error. */
  function PositionsUpTo(w: Node, n: nat): Stage
    requires n <= 2
  {
    if n == 0 then Stage(w, Pass)
    else
      var s := PositionsUpTo(w, n - 1);
      if s.outcome.Fail? then s
      else
        var p := Positioned(s.tree, n - 1);
        Stage(p.tree, p.outcome)
  }

  /** The layout part of `doSetUp`. */
  function SetUp(w: Node): Stage
  {
    var s := SizesUpTo(BuffersUpTo(w, 2), 2);
    if s.outcome.Fail? then s else PositionsUpTo(s.tree, 2)
  }

  /** The three loops unrolled over the two axes. */
  lemma BuffersUnrolled(w: Node)
    ensures BuffersUpTo(w, 2) == BufferAxis(BufferAxis(w, 0), 1)
  {
    assert BuffersUpTo(w, 1) == BufferAxis(w, 0);
  }

  lemma SizesUnrolled(w: Node)
    ensures SizesUpTo(w, 2) ==
      (var s0 := SizeAxis(w, 0); if s0.outcome.Fail? then s0 else SizeAxis(s0.tree, 1))
  {
    assert SizesUpTo(w, 1) == SizeAxis(w, 0);
  }

  lemma PositionsUnrolled(w: Node)
    ensures PositionsUpTo(w, 2) ==
      (var p0 := Positioned(w, 0);
       if p0.outcome.Fail? then Stage(p0.tree, p0.outcome)
       else var p1 := Positioned(p0.tree, 1); Stage(p1.tree, p1.outcome))
  {
    assert PositionsUpTo(w, 1) == Stage(Positioned(w, 0).tree, Positioned(w, 0).outcome);
  }

  // ---- What doSetUp promises.

  /** The first loop on axis a sets every buffer on a, the GUI's
      included, from the GUI's size on a, and changes nothing else. */
  lemma BufferAxisSets(w: Node, a: Axis)
    ensures var r := BufferAxis(w, a);
      && BuffersSet(r, a, SizeOf(w, a)) && KidsBuffered(r, a, SizeOf(w, a))
      && SameShape(w, r)
      && r.axes.At(a).(innerBuffer := 0.0, outerBuffer := 0.0) == w.axes.At(a).(innerBuffer := 0.0, outerBuffer := 0.0)
      && forall b: Axis :: b != a ==> r.axes.At(b) == w.axes.At(b)
  {
    var t := Buffered(w, a, SizeOf(w, a));
    BufferedSets(w, a, SizeOf(w, a));
    BufferedKeeps(w, a, SizeOf(w, a));
    ExceptBuffersShape(w, t, a, true);
    WithAxisShape(w, t, a, ScaledBuffers(t.axes.At(a), SizeOf(w, a)));
  }

  /** The second loop's work on axis a at the GUI: it raises exactly when
      sizing the tree does; otherwise a `shrinkToFit` GUI is now `exact`
      at its inner buffer plus its children's total, any other keeps its
      demand and size, and the range on a is [0, size]. Other axes stay. */
  lemma SizeAxisRoot(w: Node, a: Axis)
    ensures var r := SizeAxis(w, a); var s := TotalSize(w, a, NodeCount(w));
      && (r.outcome.Fail? <==> s.total.Failure?)
      && (r.outcome.Fail? ==> r.tree == s.tree && r.outcome.error == s.total.error)
      && (r.outcome.Pass? ==>
            && DemandOf(r.tree, a) == (if DemandOf(w, a) == ShrinkToFit then Exact else DemandOf(w, a))
            && SizeOf(r.tree, a) == (if DemandOf(w, a) == ShrinkToFit then Inner(w, a) + s.total.value else SizeOf(w, a))
            && RangeOf(r.tree, a) == Some(Range(0.0, SizeOf(r.tree, a))))
      && forall b: Axis :: b != a ==> r.tree.axes.At(b) == w.axes.At(b)
  {
  }

  /** Setting up never adds, drops, renames or re-enables a widget, and
      never makes a widget `expandToFit`, whether it succeeds or not. */
  lemma SetUpKeeps(w: Node)
    ensures var t := SetUp(w).tree;
      && SameShape(w, t)
      && forall b: Axis :: DemandOf(t, b) == ExpandToFit ==> DemandOf(w, b) == ExpandToFit
  {
    var b1 := BufferAxis(w, 0);
    var b2 := BufferAxis(b1, 1);
    BufferAxisSets(w, 0);
    BufferAxisSets(b1, 1);
    SameShapeTrans(w, b1, b2);
    BuffersUnrolled(w);
    SizesUnrolled(b2);
    var s0 := SizeAxis(b2, 0);
    SizeAxisShape(b2, 0);
    SameShapeTrans(w, b2, s0.tree);
    if s0.outcome.Pass? {
      var s1 := SizeAxis(s0.tree, 1);
      SizeAxisShape(s0.tree, 1);
      SameShapeTrans(w, s0.tree, s1.tree);
      if s1.outcome.Pass? {
        PositionsUnrolled(s1.tree);
        var p0 := Positioned(s1.tree, 0);
        PositionedShape(s1.tree, 0);
        SameShapeTrans(w, s1.tree, p0.tree);
        if p0.outcome.Pass? {
          PositionedShape(p0.tree, 1);
          SameShapeTrans(w, p0.tree, Positioned(p0.tree, 1).tree);
        }
      }
    }
  }

  lemma SizeAxisShape(w: Node, a: Axis)
    ensures SameShape(w, SizeAxis(w, a).tree)
    ensures forall b: Axis :: DemandOf(SizeAxis(w, a).tree, b) == ExpandToFit ==> DemandOf(w, b) == ExpandToFit
  {
    var s := TotalSize(w, a, NodeCount(w));
    TotalSizeShape(w, a, NodeCount(w));
    if s.total.Success? {
      var l := s.tree.axes.At(a);
      var l' := if l.spaceDemand == ShrinkToFit then l.(size := l.innerBuffer + s.total.value, spaceDemand := Exact) else l;
      WithAxisShape(w, s.tree, a, l'.(range := Some(Range(0.0, l'.size))));
    }
  }

  lemma PositionedShape(w: Node, a: Axis)
    ensures SameShape(w, Positioned(w, a).tree)
    ensures forall b: Axis :: DemandOf(Positioned(w, a).tree, b) == DemandOf(w, b)
  {
    PositionKeeps(w, a, RangeOf(w, a));
    SameButRangesShape(w, Positioned(w, a).tree, a);
  }

  /** Sizing on axis a leaves a GUI that was not `expandToFit` on a
      `exact` on a with the range [0, size]. */
  lemma SizeAxisSettles(w: Node, a: Axis)
    requires DemandOf(w, a) != ExpandToFit
    ensures var r := SizeAxis(w, a);
      r.outcome.Pass? ==> DemandOf(r.tree, a) == Exact && RangeOf(r.tree, a) == Some(Range(0.0, SizeOf(r.tree, a)))
  {
    SizeAxisRoot(w, a);
  }

  /** A GUI that sizes without error on both axes is `exact` on both with
      the range [0, size], if it was not `expandToFit`. */
  lemma SizesSettleRoot(w: Node)
    requires forall b: Axis :: DemandOf(w, b) != ExpandToFit
    ensures var s := SizesUpTo(w, 2);
      s.outcome.Pass? ==> forall b: Axis ::
        DemandOf(s.tree, b) == Exact && RangeOf(s.tree, b) == Some(Range(0.0, SizeOf(s.tree, b)))
  {
    SizesUnrolled(w);
    var s0 := SizeAxis(w, 0);
    SizeAxisRoot(w, 0);
    SizeAxisSettles(w, 0);
    if s0.outcome.Pass? {
      var s1 := SizeAxis(s0.tree, 1);
      assert DemandOf(s0.tree, 1) == DemandOf(w, 1);
      SizeAxisRoot(s0.tree, 1);
      SizeAxisSettles(s0.tree, 1);
      assert s1.tree.axes.At(0) == s0.tree.axes.At(0);
    }
  }

  /** Positioning on axis a keeps the GUI's own layout and, when it
      succeeds, gives every widget below a range on a and finds it
      `exact` on a. */
  lemma PositionedSettles(t: Node, a: Axis)
    requires RangeOf(t, a).Some?
    ensures var p := Positioned(t, a);
      && p.tree.axes == t.axes && SameButRanges(t, p.tree, a)
      && (p.outcome.Pass? ==> AllRanged(p.tree, a) && KidsExact(p.tree, a))
  {
    var p := Positioned(t, a);
    PositionKeeps(t, a, RangeOf(t, a));
    assert p.tree.axes.At(a) == t.axes.At(a);
    assert p.tree.axes.At(1 - a) == t.axes.At(1 - a);
    if p.outcome.Pass? {
      PositionRanges(t, a, RangeOf(t, a));
      PositionExact(t, a, RangeOf(t, a));
    }
  }

  /** What positioning axis 0 found survives positioning axis 1. */
  lemma SettleCombine(u: Node, v: Node)
    requires SameButRanges(u, v, 1)
    requires AllRanged(u, 0) && KidsExact(u, 0) && AllRanged(v, 1) && KidsExact(v, 1)
    ensures forall b: Axis :: AllRanged(v, b) && KidsExact(v, b)
  {
    RangedKept(u, v, 1, 0);
    ExactKept(u, v, 1, 0);
    forall b: Axis
      ensures AllRanged(v, b) && KidsExact(v, b)
    {
      if b == 0 {
        assert AllRanged(v, 0) && KidsExact(v, 0);
      } else {
        assert AllRanged(v, 1) && KidsExact(v, 1);
      }
    }
  }

  /** Positioning both axes of a GUI with a range on both keeps its own
      layout, and on success gives every widget below it a range and finds
      it `exact`, on both axes. */
  lemma PositionsSettle(t: Node)
    requires RangeOf(t, 0).Some? && RangeOf(t, 1).Some?
    ensures var r := PositionsUpTo(t, 2);
      && r.tree.axes == t.axes
      && (r.outcome.Pass? ==> forall b: Axis :: AllRanged(r.tree, b) && KidsExact(r.tree, b))
  {
    PositionsUnrolled(t);
    var p0 := Positioned(t, 0);
    PositionedSettles(t, 0);
    if p0.outcome.Pass? {
      assert RangeOf(p0.tree, 1) == RangeOf(t, 1);
      var p1 := Positioned(p0.tree, 1);
      PositionedSettles(p0.tree, 1);
      if p1.outcome.Pass? {
        SettleCombine(p0.tree, p1.tree);
      }
    }
  }

  /** A successful set-up leaves a GUI that was not `expandToFit` `exact`
      on both axes with the range [0, size], and every widget below it
      `exact` with a range on both axes. */
  lemma SetUpSettles(w: Node)
    requires forall b: Axis :: DemandOf(w, b) != ExpandToFit
    ensures var r := SetUp(w);
      r.outcome.Pass? ==> forall b: Axis ::
        && DemandOf(r.tree, b) == Exact && RangeOf(r.tree, b) == Some(Range(0.0, SizeOf(r.tree, b)))
        && AllRanged(r.tree, b) && KidsExact(r.tree, b)
  {
    var b1 := BufferAxis(w, 0);
    BufferAxisSets(w, 0);
    BufferAxisSets(b1, 1);
    BuffersUnrolled(w);
    var b2 := BuffersUpTo(w, 2);
    assert forall b: Axis :: DemandOf(b2, b) == DemandOf(w, b);
    SizesSettleRoot(b2);
    var s := SizesUpTo(b2, 2);
    if s.outcome.Pass? {
      PositionsSettle(s.tree);
    }
  }

  /** Positioning raises only the errors positioning can raise. */
  lemma PositionsErrors(w: Node)
    ensures var r := PositionsUpTo(w, 2); r.outcome.Fail? ==> PlaceError(r.outcome.error)
  {
    PositionsUnrolled(w);
    PositionErrors(w, 0, RangeOf(w, 0));
    var p := Positioned(w, 0);
    if p.outcome.Pass? {
      PositionErrors(p.tree, 1, RangeOf(p.tree, 1));
    }
  }

  // ---- The GUI's invariant.

  /** The GUI is a frame that is not `expandToFit`; `_widgetDict` holds
      exactly the names below it, each once; no enabled widget has a
      disabled parent. */
  ghost predicate Registered(root: Node, names: set<string>)
  {
    && root.Frame?
    && (forall b: Axis :: DemandOf(root, b) != ExpandToFit)
    && (forall n :: CountBelow(root, n) <= 1)
    && (forall n :: n in names <==> CountBelow(root, n) > 0)
    && EnabledClosed(root)
  }

  /** A new GUI frame holds no names. */
  lemma GuiRootRegistered(name: string, sizes: PerAxis<Size>, isEnabled: bool, innerBufferFrac: Option<PerAxis<real>>,
                          childSequenceDir: int, alongJustify: string, crossJustify: string)
    requires GuiRoot(name, sizes, isEnabled, innerBufferFrac, childSequenceDir, alongJustify, crossJustify).Success?
    ensures Registered(GuiRoot(name, sizes, isEnabled, innerBufferFrac, childSequenceDir, alongJustify, crossJustify).value, {})
  {
    NoNamesBelow(GuiRoot(name, sizes, isEnabled, innerBufferFrac, childSequenceDir, alongJustify, crossJustify).value);
  }

  /** A widget that passes every check keeps the invariant and the demand
      rules once attached, with its name registered. */
  lemma AttachRegistered(root: Node, names: set<string>, p: seq<nat>, args: WidgetArgs)
    requires Registered(root, names) && IsPath(root, p) && AddCheck(root, names, p, args).Pass?
    ensures var root' := Attach(root, p, NewWidget(args, Find(root, p).isEnabled));
      && Registered(root', names + {args.name})
      && (Legal(root) ==> Legal(root'))
  {
    var c := NewWidget(args, Find(root, p).isEnabled);
    var root' := Attach(root, p, c);
    var names' := names + {args.name};
    NewWidgetFits(root, names, p, args);
    assert args.name !in names;
    forall n
      ensures CountBelow(root', n) <= 1 && (n in names' <==> CountBelow(root', n) > 0)
    {
      AttachNames(root, p, c, n);
      assert NameCount(c, n) == (if n == args.name then 1 else 0);
      if n == args.name {
        assert CountBelow(root, n) == 0;
      }
    }
    AttachEnabled(root, p, c);
    assert root'.axes == root.axes;
    assert forall b: Axis :: DemandOf(root', b) == DemandOf(root, b);
    if Legal(root) {
      AttachLegal(root, p, c);
    }
  }

  /** Setting up keeps the invariant, whether it succeeds or not. */
  lemma SetUpRegistered(w: Node, names: set<string>)
    requires Registered(w, names)
    ensures Registered(SetUp(w).tree, names)
  {
    SetUpKeeps(w);
    var t := SetUp(w).tree;
    forall n {
      ShapeNames(w, t, n);
    }
    ShapeEnabled(w, t);
  }

  // ---- The loops of doSetUp.

  /** The first loop: the buffers on each axis in turn. */
  method SetBuffers(w: Node) returns (r: Node)
    ensures r == BuffersUpTo(w, 2)
  {
    r := w;
    for xOrY := 0 to 2
      invariant r == BuffersUpTo(w, xOrY)
    {
      var scale := SizeOf(r, xOrY);
      var t := SetBuffersForChildren(r, xOrY, scale);
      var l := t.axes.At(xOrY);
      assert BufferAxis(r, xOrY) == BuffersUpTo(w, xOrY + 1);
      r := WithAxis(t, xOrY, ScaledBuffers(l, scale));
    }
  }

  lemma SizesStep(w: Node, n: nat)
    requires n < 2
    ensures SizesUpTo(w, n + 1) == if SizesUpTo(w, n).outcome.Fail? then SizesUpTo(w, n) else SizeAxis(SizesUpTo(w, n).tree, n)
  {
  }

  /** Once an axis has failed, the later axes are not sized. */
  lemma {:induction false} SizesStopped(w: Node, n: nat)
    requires n <= 2 && SizesUpTo(w, n).outcome.Fail?
    ensures SizesUpTo(w, 2) == SizesUpTo(w, n)
    decreases 2 - n
  {
    if n < 2 {
      SizesStep(w, n);
      SizesStopped(w, n + 1);
    }
  }

  /** The second loop: the sizes on each axis in turn, stopping at the
      first error. */
  method SizeTree(w: Node) returns (r: Stage)
    ensures r == SizesUpTo(w, 2) && r.outcome != Fail(FuelExhausted)
  {
    var root := w;
    for xOrY := 0 to 2
      invariant SizesUpTo(w, xOrY) == Stage(root, Pass)
    {
      ghost var before := root;
      var s := CalcTotalSizeChildren(root, xOrY, NodeCount(root));
      SizesStep(w, xOrY);
      if s.total.Failure? {
        SizesStopped(w, xOrY + 1);
        return Stage(s.tree, Fail(s.total.error));
      }
      var l := s.tree.axes.At(xOrY);
      if l.spaceDemand == ShrinkToFit {
        l := l.(size := l.innerBuffer + s.total.value, spaceDemand := Exact);
      }
      root := WithAxis(s.tree, xOrY, l.(range := Some(Range(0.0, l.size))));
      assert SizeAxis(before, xOrY) == Stage(root, Pass);
    }
    return Stage(root, Pass);
  }

  /** The third loop: the positions on each axis in turn, stopping at the
      first error. */
  method PositionTree(w: Node) returns (r: Stage)
    ensures r == PositionsUpTo(w, 2)
  {
    var root := w;
    for xOrY := 0 to 2
      invariant PositionsUpTo(w, xOrY) == Stage(root, Pass)
    {
      var p := PositionChildren(root, xOrY);
      if p.outcome.Fail? {
        assert PositionsUpTo(w, xOrY + 1) == Stage(p.tree, p.outcome);
        assert PositionsUpTo(w, 2) == PositionsUpTo(w, xOrY + 1);
        return Stage(p.tree, p.outcome);
      }
      root := p.tree;
    }
    return Stage(root, Pass);
  }

  /** The GUI: the tree it owns, the keys of `_widgetDict`, and whether
      `doSetUp` has completed. */
  class Gui {
    var root: Node
    var widgetNames: set<string>
    var isSetUp: bool

    ghost predicate Valid()
      reads this
    {
      Registered(root, widgetNames)
    }

    constructor Init(root: Node)
      ensures this.root == root && widgetNames == {} && !isSetUp
    {
      this.root := root;
      widgetNames := {};
      isSetUp := false;
    }

    /** `GUI.__init__`: the justifications, then each axis's demand and size. */
    static method New(name: string, sizes: PerAxis<Size>, isEnabled: bool, innerBufferFrac: Option<PerAxis<real>>,
                      childSequenceDir: int, alongJustify: string, crossJustify: string)
      returns (r: Result<Gui, WidgetError>)
      ensures var spec := GuiRoot(name, sizes, isEnabled, innerBufferFrac, childSequenceDir, alongJustify, crossJustify);
        && (r.Failure? <==> spec.Failure?)
        && (r.Failure? ==> r.error == spec.error)
        && (r.Success? ==> && fresh(r.value) && r.value.Valid() && r.value.root == spec.value
                           && r.value.widgetNames == {} && !r.value.isSetUp)
    {
      if ParseAlong(alongJustify).None? {
        return Failure(UnknownAlongJustify(alongJustify, name));
      }
      if ParseCross(crossJustify).None? {
        return Failure(UnknownCrossJustify(alongJustify, name));
      }
      for xOrY := 0 to 2
        invariant forall b: Axis :: b < xOrY ==> GuiAxisCheck(sizes, b).Pass?
      {
        if sizes.At(xOrY).spaceDemand == ExpandToFit {
          return Failure(GuiExpands);
        }
        if sizes.At(xOrY).size.None? {
          return Failure(GuiWithoutSize);
        }
      }
      var root := GuiRoot(name, sizes, isEnabled, innerBufferFrac, childSequenceDir, alongJustify, crossJustify).value;
      GuiRootRegistered(name, sizes, isEnabled, innerBufferFrac, childSequenceDir, alongJustify, crossJustify);
      var g := new Gui.Init(root);
      return Success(g);
    }

    /** A widget's construction with the frame at path `parent` as its
        parent: every check, then the append to the parent's children and
        the name's registration. A refused widget leaves the GUI as it
        was (see the justification finding). */
    method AddWidget(parent: seq<nat>, args: WidgetArgs) returns (outcome: Outcome<WidgetError>)
      requires Valid() && IsPath(root, parent)
      modifies this
      ensures Valid() && isSetUp == old(isSetUp)
      ensures outcome == AddCheck(old(root), old(widgetNames), parent, args)
      ensures outcome.Pass? ==>
        && root == Attach(old(root), parent, NewWidget(args, Find(old(root), parent).isEnabled))
        && widgetNames == old(widgetNames) + {args.name}
      ensures outcome.Fail? ==> root == old(root) && widgetNames == old(widgetNames)
      ensures Legal(old(root)) ==> Legal(root)
    {
      var p := Find(root, parent);
      if args.name in widgetNames {
        return Fail(NameTaken(args.name));
      }
      for i := 0 to 2
        invariant forall b: Axis :: b < i ==> !(args.frame.None? && args.sizes.At(b).spaceDemand == ShrinkToFit)
      {
        if args.frame.None? && args.sizes.At(i).spaceDemand == ShrinkToFit {
          return Fail(ShrinkOnNonFrame);
        }
      }
      assert args.sizes.At(0) == args.sizes.x && args.sizes.At(1) == args.sizes.y;
      for xOrY := 0 to 2
        invariant forall b: Axis :: b < xOrY ==> !(DemandOf(p, b) == ShrinkToFit && args.sizes.At(b).spaceDemand == ExpandToFit)
      {
        if DemandOf(p, xOrY) == ShrinkToFit && args.sizes.At(xOrY).spaceDemand == ExpandToFit {
          return Fail(ExpandUnderShrink(xOrY));
        }
      }
      if p.Leaf? {
        return Fail(ParentNotFrame);
      }
      var justified := JustifyCheck(args);
      if justified.Fail? {
        return justified;
      }
      AttachRegistered(root, widgetNames, parent, args);
      root := Attach(root, parent, NewWidget(args, p.isEnabled));
      widgetNames := widgetNames + {args.name};
      return Pass;
    }

    /** The layout part of `doSetUp`: buffers, sizes and positions, the
        tree replaced as each loop leaves it. */
    method DoSetUp() returns (outcome: Outcome<WidgetError>)
      requires Valid()
      modifies this
      ensures Valid() && widgetNames == old(widgetNames)
      ensures Stage(root, outcome) == SetUp(old(root))
      ensures outcome != Fail(FuelExhausted)
      ensures isSetUp == (old(isSetUp) || outcome.Pass?)
    {
      SetUpRegistered(root, widgetNames);
      ghost var w := root;
      root := SetBuffers(root);
      var s := SizeTree(root);
      root := s.tree;
      if s.outcome.Fail? {
        return s.outcome;
      }
      PositionsErrors(root);
      var p := PositionTree(root);
      root := p.tree;
      if p.outcome.Fail? {
        return p.outcome;
      }
      isSetUp := true;
      return Pass;
    }
  }
}
