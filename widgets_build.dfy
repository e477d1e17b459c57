/** Building the widget tree: the checks of `GUI.__init__` for the GUI
    frame, and those of `_Widget.__init__` and `Frame.__init__` for every
    other widget, in the order the source makes them, with the state a new
    widget starts in. */
module WidgetBuild {
  import opened Wrappers
  import opened WidgetTypes
  import opened WidgetTree

  /** The class default of `_innerBufferFrac` and `_outerBufferFrac`. */
  const DefaultBufferFrac: real := 0.025

  /** What a Frame adds to a widget's arguments (the source's defaults are
      1, 'spread' and 'centre'). */
  datatype FrameArgs = FrameArgs(childSequenceDir: int, alongJustify: string, crossJustify: string)

  /** The arguments of a widget's constructor that the layout reads; a
      widget without `frame` cannot hold children. */
  datatype WidgetArgs = WidgetArgs(
    name: string,
    sizes: PerAxis<Size>,
    isEnabled: bool,
    innerBufferFrac: Option<PerAxis<real>>,
    outerBufferFrac: Option<PerAxis<real>>,
    frame: Option<FrameArgs>)

  function FracOr(fracs: Option<PerAxis<real>>, b: Axis): real
  {
    if fracs.Some? then fracs.value.At(b) else DefaultBufferFrac
  }

  /** A widget's state on one axis before layout: the demand and size it
      was given, its buffer fractions, no buffers and no range yet. */
  function StartLayout(s: Size, innerFrac: real, outerFrac: real): (l: AxisLayout)
    ensures l.spaceDemand == s.spaceDemand && l.range.None?
    ensures s.size.Some? ==> l.size == s.size.value
    ensures l.innerBufferFrac == innerFrac && l.outerBufferFrac == outerFrac
  {
    AxisLayout(s.spaceDemand, if s.size.Some? then s.size.value else 0.0, innerFrac, outerFrac, 0.0, 0.0, None)
  }

  // ---- The GUI frame.

  /** The checks `GUI.__init__` makes on axis b once the Frame is built. */
  function GuiAxisCheck(sizes: PerAxis<Size>, b: Axis): (r: Outcome<WidgetError>)
    ensures r.Pass? <==> sizes.At(b).spaceDemand != ExpandToFit && sizes.At(b).size.Some?
    ensures sizes.At(b).spaceDemand == ExpandToFit ==> r == Fail(GuiExpands)
    ensures sizes.At(b).spaceDemand != ExpandToFit && sizes.At(b).size.None? ==> r == Fail(GuiWithoutSize)
  {
    if sizes.At(b).spaceDemand == ExpandToFit then Fail(GuiExpands)
    else if sizes.At(b).size.None? then Fail(GuiWithoutSize)
    else Pass
  }

  /** The GUI frame `GUI.__init__` builds: the justifications are checked
      first (as `Frame.__init__` does), then each axis in turn. Its outer
      buffer fraction is 0 and it has no children yet. The message for an
      unknown cross justification names the along justification, as the
      source's format arguments do. */
  function GuiRoot(name: string, sizes: PerAxis<Size>, isEnabled: bool, innerBufferFrac: Option<PerAxis<real>>,
                   childSequenceDir: int, alongJustify: string, crossJustify: string): (r: Result<Node, WidgetError>)
    ensures r.Success? <==>
      && ParseAlong(alongJustify).Some? && ParseCross(crossJustify).Some?
      && forall b: Axis :: sizes.At(b).spaceDemand != ExpandToFit && sizes.At(b).size.Some?
    ensures ParseAlong(alongJustify).None? ==> r == Failure(UnknownAlongJustify(alongJustify, name))
    ensures ParseAlong(alongJustify).Some? && ParseCross(crossJustify).None? ==>
      r == Failure(UnknownCrossJustify(alongJustify, name))
    ensures ParseAlong(alongJustify).Some? && ParseCross(crossJustify).Some? && r.Failure? ==>
      r.error == GuiExpands || r.error == GuiWithoutSize
    ensures r.Success? ==>
      && r.value.Frame? && r.value.childList == [] && r.value.name == name && r.value.isEnabled == isEnabled
      && Some(r.value.alongJustify) == ParseAlong(alongJustify) && Some(r.value.crossJustify) == ParseCross(crossJustify)
      && r.value.childSequenceDir == childSequenceDir
      && Legal(r.value) && EnabledClosed(r.value)
      && forall b: Axis ::
           && DemandOf(r.value, b) == sizes.At(b).spaceDemand && DemandOf(r.value, b) != ExpandToFit
           && SizeOf(r.value, b) == sizes.At(b).size.value
           && r.value.axes.At(b).outerBufferFrac == 0.0
           && r.value.axes.At(b).innerBufferFrac == FracOr(innerBufferFrac, b)
           && r.value.axes.At(b).range.None?
  {
    match ParseAlong(alongJustify)
    case None => Failure(UnknownAlongJustify(alongJustify, name))
    case Some(along) =>
      match ParseCross(crossJustify)
      case None => Failure(UnknownCrossJustify(alongJustify, name))
      case Some(cross) =>
        var x := GuiAxisCheck(sizes, 0);
        var y := GuiAxisCheck(sizes, 1);
        if x.Fail? then Failure(x.error)
        else if y.Fail? then Failure(y.error)
        else
          var axes := PerAxis(StartLayout(sizes.x, FracOr(innerBufferFrac, 0), 0.0),
                              StartLayout(sizes.y, FracOr(innerBufferFrac, 1), 0.0));
          Success(Frame(name, isEnabled, axes, [], childSequenceDir, along, cross))
  }

  // ---- Every other widget.

  /** The along and cross justifications of a Frame are known ones. */
  predicate JustifyOk(args: WidgetArgs)
  {
    args.frame.Some? ==> ParseAlong(args.frame.value.alongJustify).Some? && ParseCross(args.frame.value.crossJustify).Some?
  }

  /** The checks `Frame.__init__` makes after the widget has been appended
      to its parent. */
  function JustifyCheck(args: WidgetArgs): (r: Outcome<WidgetError>)
    ensures r.Pass? <==> JustifyOk(args)
  {
    if args.frame.None? then Pass
    else if ParseAlong(args.frame.value.alongJustify).None? then
      Fail(UnknownAlongJustify(args.frame.value.alongJustify, args.name))
    else if ParseCross(args.frame.value.crossJustify).None? then
      Fail(UnknownCrossJustify(args.frame.value.alongJustify, args.name))
    else Pass
  }

  /** The checks `_Widget.__init__` makes before it appends the widget to
      its parent, in order: the name against `_widgetDict`, `shrinkToFit`
      on a widget that cannot hold children, `expandToFit` under a
      `shrinkToFit` parent (X first), and a parent that is not a Frame. */
  function AppendCheck(root: Node, names: set<string>, p: seq<nat>, args: WidgetArgs): (r: Outcome<WidgetError>)
    requires IsPath(root, p)
    ensures r.Pass? <==>
      && args.name !in names
      && (args.frame.None? ==> forall b: Axis :: args.sizes.At(b).spaceDemand != ShrinkToFit)
      && (forall b: Axis :: DemandOf(Find(root, p), b) == ShrinkToFit ==> args.sizes.At(b).spaceDemand != ExpandToFit)
      && Find(root, p).Frame?
    ensures args.name in names ==> r == Fail(NameTaken(args.name))
    ensures r.Fail? ==> !r.error.UnknownAlongJustify? && !r.error.UnknownCrossJustify?
    ensures args.name !in names && args.frame.None? && args.sizes.x.spaceDemand == ShrinkToFit ==> r == Fail(ShrinkOnNonFrame)
    ensures r == Fail(ParentNotFrame) ==> Find(root, p).Leaf?
  {
    var parent := Find(root, p);
    if args.name in names then Fail(NameTaken(args.name))
    else if args.frame.None? && (args.sizes.x.spaceDemand == ShrinkToFit || args.sizes.y.spaceDemand == ShrinkToFit) then
      assert args.sizes.At(0).spaceDemand == ShrinkToFit || args.sizes.At(1).spaceDemand == ShrinkToFit;
      Fail(ShrinkOnNonFrame)
    else if DemandOf(parent, 0) == ShrinkToFit && args.sizes.x.spaceDemand == ExpandToFit then Fail(ExpandUnderShrink(0))
    else if DemandOf(parent, 1) == ShrinkToFit && args.sizes.y.spaceDemand == ExpandToFit then Fail(ExpandUnderShrink(1))
    else if parent.Leaf? then Fail(ParentNotFrame)
    else Pass
  }

  /** Every refusal a widget's construction can raise: the checks before
      the append, then the justifications. */
  function AddCheck(root: Node, names: set<string>, p: seq<nat>, args: WidgetArgs): (r: Outcome<WidgetError>)
    requires IsPath(root, p)
    ensures r.Pass? <==> AppendCheck(root, names, p, args).Pass? && JustifyOk(args)
    ensures AppendCheck(root, names, p, args).Fail? ==> r == AppendCheck(root, names, p, args)
  {
    var before := AppendCheck(root, names, p, args);
    if before.Fail? then before else JustifyCheck(args)
  }

  /** The widget as constructed under a parent that is enabled or not: a
      child of a disabled parent is disabled whatever it asked for. */
  function NewWidget(args: WidgetArgs, parentEnabled: bool): (r: Node)
    requires JustifyOk(args)
    ensures r.name == args.name && r.Frame? == args.frame.Some?
    ensures r.isEnabled == (parentEnabled && args.isEnabled)
    ensures r.Frame? ==> r.childList == [] && r.childSequenceDir == args.frame.value.childSequenceDir
    ensures r.Frame? ==> Some(r.alongJustify) == ParseAlong(args.frame.value.alongJustify)
    ensures r.Frame? ==> Some(r.crossJustify) == ParseCross(args.frame.value.crossJustify)
    ensures forall b: Axis ::
      && DemandOf(r, b) == args.sizes.At(b).spaceDemand
      && (args.sizes.At(b).size.Some? ==> SizeOf(r, b) == args.sizes.At(b).size.value)
      && r.axes.At(b).innerBufferFrac == FracOr(args.innerBufferFrac, b)
      && r.axes.At(b).outerBufferFrac == FracOr(args.outerBufferFrac, b)
      && r.axes.At(b).range.None?
  {
    var axes := PerAxis(StartLayout(args.sizes.x, FracOr(args.innerBufferFrac, 0), FracOr(args.outerBufferFrac, 0)),
                        StartLayout(args.sizes.y, FracOr(args.innerBufferFrac, 1), FracOr(args.outerBufferFrac, 1)));
    var enabled := parentEnabled && args.isEnabled;
    match args.frame
    case None => Leaf(args.name, enabled, axes)
    case Some(fa) =>
      Frame(args.name, enabled, axes, [], fa.childSequenceDir,
            ParseAlong(fa.alongJustify).value, ParseCross(fa.crossJustify).value)
  }

  /** A widget that passed the checks keeps the tree's demand rules and
      its enabled flags closed, and has no names below it. */
  lemma NewWidgetFits(root: Node, names: set<string>, p: seq<nat>, args: WidgetArgs)
    requires IsPath(root, p) && AddCheck(root, names, p, args).Pass?
    ensures var c := NewWidget(args, Find(root, p).isEnabled);
      && Legal(c) && EnabledClosed(c) && (c.isEnabled ==> Find(root, p).isEnabled)
      && (forall b: Axis :: DemandOf(Find(root, p), b) == ShrinkToFit ==> DemandOf(c, b) != ExpandToFit)
      && forall n :: NameCount(c, n) == (if n == args.name then 1 else 0)
  {
    var c := NewWidget(args, Find(root, p).isEnabled);
    forall n
      ensures NameCount(c, n) == (if n == args.name then 1 else 0)
    {
      assert CountBelow(c, n) == 0;
    }
  }

  // ---- The registry when a Frame's justification is refused.

  /** `_widgetDict` after a widget's construction as the source orders it:
      the widget is appended and its name registered as soon as the checks
      before the append pass, so a construction that then raises on an
      unknown justification leaves its name (and the half-built frame)
      behind. */
  function NamesAsWritten(root: Node, names: set<string>, p: seq<nat>, args: WidgetArgs): (r: set<string>)
    requires IsPath(root, p)
    ensures AppendCheck(root, names, p, args).Pass? <==> r == names + {args.name} && args.name !in names
    ensures AppendCheck(root, names, p, args).Fail? ==> r == names
  {
    if AppendCheck(root, names, p, args).Pass? then names + {args.name} else names
  }

  /** As written, a Frame refused for an unknown justification cannot be
      built again under its own name with a correct one. */
  lemma RetryRefusedAsWritten()
    ensures var root := GuiRoot("gui", PerAxis(Size(Exact, Some(1.0)), Size(Exact, Some(1.0))), true, None, 1, "spread", "centre").value;
      var bad := WidgetArgs("f", PerAxis(Size(Exact, Some(0.5)), Size(Exact, Some(0.5))), true, None, None,
                            Some(FrameArgs(1, "middle", "centre")));
      var good := bad.(frame := Some(FrameArgs(1, "spread", "centre")));
      && AddCheck(root, {}, [], bad) == Fail(UnknownAlongJustify("middle", "f"))
      && NamesAsWritten(root, {}, [], bad) == {"f"}
      && AddCheck(root, NamesAsWritten(root, {}, [], bad), [], good) == Fail(NameTaken("f"))
  {
    assert ParseAlong("middle").None?;
  }

  /** With the registry left alone on a refusal, the same widget with a
      known justification is accepted if and only if it was refused for
      its justification alone. */
  lemma RetryAccepted(root: Node, names: set<string>, p: seq<nat>, args: WidgetArgs, fa: FrameArgs)
    requires IsPath(root, p) && args.frame.Some?
    requires ParseAlong(fa.alongJustify).Some? && ParseCross(fa.crossJustify).Some?
    ensures AddCheck(root, names, p, args.(frame := Some(fa))).Pass? <==>
      AddCheck(root, names, p, args).Pass? || AddCheck(root, names, p, args).error.UnknownAlongJustify? ||
      AddCheck(root, names, p, args).error.UnknownCrossJustify?
  {
    assert AppendCheck(root, names, p, args.(frame := Some(fa))) == AppendCheck(root, names, p, args);
  }
}
