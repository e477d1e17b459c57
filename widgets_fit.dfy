/** `Frame.calcTotalSizeChildren`: fixes the size of every `shrinkToFit`
    child from its own children, gives every `expandToFit` child its
    minimum, checks an `exact` frame has room for the children and shares
    the spare room among the expanding ones; returns the children's (minimum)
    total size. It changes the children in place, so the model returns the
    rewritten tree along with the result, as far as it got when it raised.
    The recursion into a child's own children is bounded by a fuel count
    `f`, one unit per level; the loops below are given the tree's widget
    count and are proved never to run out. */
module WidgetFit {
  import opened Wrappers
  import opened WidgetTypes
  import opened WidgetSizing

  /** What `calcTotalSizeChildren` leaves behind: the tree and the returned
      size, or the error it raised. */
  datatype Sizing = Sizing(tree: Node, total: Result<real, WidgetError>)

  /** One child as the first loop leaves it, and whether it raised. */
  datatype Step = Step(tree: Node, outcome: Outcome<WidgetError>)

  /** The child list after a loop over it, the expanding children counted,
      and whether it stopped on an error. */
  datatype Sweep = Sweep(kids: seq<Node>, count: nat, outcome: Outcome<WidgetError>)

  /** What the loops do not touch: the widget's own fields and the number
      of its children. */
  predicate Keeps(u: Node, v: Node)
  {
    && u.axes == v.axes && u.Leaf? == v.Leaf? && u.name == v.name && u.isEnabled == v.isEnabled
    && (u.Frame? ==> && |u.childList| == |v.childList| && u.childSequenceDir == v.childSequenceDir
                     && u.alongJustify == v.alongJustify && u.crossJustify == v.crossJustify)
  }

  /** The minimum room the children take: their run length along the
      sequence axis, the largest of them across it. */
  function MinChildSize(ks: seq<Node>, a: Axis, parallel: bool): real
  {
    if parallel then ParallelTotal(ks, a) else MaxSize(ks, a, |ks|)
  }

  /** `calcTotalSizeChildren(a)` on widget `w`. A widget without children
      (every non-Frame widget among them) returns 0.0 and changes nothing. */
  function TotalSize(w: Node, a: Axis, f: nat): (r: Sizing)
    ensures Keeps(w, r.tree)
    decreases f, 2, 1
  {
    if w.Leaf? || |w.childList| == 0 then Sizing(w, Success(0.0))
    else Settle(w, a, f, FirstPass(f, a, w.childList, 0, 0))
  }

  /** The rest of `calcTotalSizeChildren`, once the first loop has left the
      children as `p` says: the consistency check, the children's minimum,
      the room check of an exact frame and the second loop. */
  function Settle(w: Node, a: Axis, f: nat, p: Sweep): (r: Sizing)
    requires w.Frame? && |p.kids| == |w.childList|
    ensures Keeps(w, r.tree)
    decreases f, 2, 0
  {
    var w1 := w.(childList := p.kids);
    if p.outcome.Fail? then Sizing(w1, Failure(p.outcome.error))
    else if DemandOf(w, a) == ShrinkToFit && p.count > 0 then Sizing(w1, Failure(ShrinkWithExpandingChild))
    else
      var parallel := w.childSequenceDir == a;
      var minChildSize := MinChildSize(p.kids, a, parallel);
      if DemandOf(w, a) != Exact then Sizing(w1, Success(minChildSize))
      else
        var spareSpace := Spare(w, a, p.kids);
        if spareSpace < 0.0 then Sizing(w1, Failure(ChildrenTooLarge(a, w.name)))
        else if p.count == 0 then Sizing(w1, Success(minChildSize))
        else
          var q := SecondPass(f, a, p.kids, 0, parallel, Share(w, a, parallel, spareSpace, p.count));
          var w2 := w.(childList := q.kids);
          if q.outcome.Fail? then Sizing(w2, Failure(q.outcome.error))
          else Sizing(w2, Success(SizeOf(w, a) - Inner(w, a)))
  }

  /** The room an exact frame has left once its children take their minimum. */
  function Spare(w: Node, a: Axis, ks: seq<Node>): real
    requires w.Frame?
  {
    SizeOf(w, a) - Inner(w, a) - MinChildSize(ks, a, w.childSequenceDir == a)
  }

  /** What an expanding child is given: along the sequence the spare room
      divided among the k expanding children, on top of its minimum; across
      it the frame's size less its inner buffer. */
  function Share(w: Node, a: Axis, parallel: bool, spareSpace: real, k: nat): real
    requires k > 0
  {
    if parallel then spareSpace / (k as real) else SizeOf(w, a) - Inner(w, a)
  }

  /** The first loop over the children, from child i on, stopping at the
      first error. */
  function FirstPass(f: nat, a: Axis, ks: seq<Node>, i: nat, count: nat): (r: Sweep)
    requires i <= |ks|
    ensures |r.kids| == |ks|
    decreases f, 1, |ks| - i
  {
    if i == |ks| then Sweep(ks, count, Outcome.Pass)
    else
      var s := SizeChild(ks[i], a, f);
      var count' := if DemandOf(ks[i], a) == ExpandToFit then count + 1 else count;
      var ks' := ks[i := s.tree];
      if s.outcome.Fail? then Sweep(ks', count', s.outcome)
      else FirstPass(f, a, ks', i + 1, count')
  }

  /** The first loop's work on one child: a shrinking child gets its inner
      buffer plus its children's total and becomes `exact`; an expanding
      child gets its minimum (inner buffer plus its children's minimum);
      an exact frame has its own children fixed. */
  function SizeChild(c: Node, a: Axis, f: nat): (r: Step)
    decreases f, 0
  {
    var l := c.axes.At(a);
    if f == 0 then Step(c, Fail(FuelExhausted))
    else match l.spaceDemand
    case ShrinkToFit =>
      var s := TotalSize(c, a, f - 1);
      if s.total.Failure? then Step(s.tree, Fail(s.total.error))
      else Step(WithAxis(s.tree, a, l.(size := l.innerBuffer + s.total.value, spaceDemand := Exact)), Outcome.Pass)
    case ExpandToFit =>
      var c1 := WithAxis(c, a, l.(size := l.innerBuffer));
      if c1.Leaf? then Step(c1, Outcome.Pass)
      else
        var s := TotalSize(c1, a, f - 1);
        if s.total.Failure? then Step(s.tree, Fail(s.total.error))
        else Step(WithAxis(s.tree, a, l.(size := l.innerBuffer + s.total.value)), Outcome.Pass)
    case Exact =>
      if c.Leaf? then Step(c, Outcome.Pass)
      else
        var s := TotalSize(c, a, f - 1);
        Step(s.tree, if s.total.Failure? then Fail(s.total.error) else Outcome.Pass)
  }

  /** The second loop, from child i on: every expanding child gets its
      share and becomes `exact`, and a frame among them has its own
      children fixed again. */
  function SecondPass(f: nat, a: Axis, ks: seq<Node>, i: nat, parallel: bool, amount: real): (r: Sweep)
    requires i <= |ks|
    ensures |r.kids| == |ks|
    decreases f, 1, |ks| - i
  {
    if i == |ks| then Sweep(ks, 0, Outcome.Pass)
    else if DemandOf(ks[i], a) != ExpandToFit then SecondPass(f, a, ks, i + 1, parallel, amount)
    else
      var s := Grow(ks[i], a, parallel, amount, f);
      var ks' := ks[i := s.tree];
      if s.outcome.Fail? then Sweep(ks', 0, s.outcome)
      else SecondPass(f, a, ks', i + 1, parallel, amount)
  }

  function Grow(c: Node, a: Axis, parallel: bool, amount: real, f: nat): (r: Step)
    decreases f, 0
  {
    var l := c.axes.At(a);
    var c1 := WithAxis(c, a, l.(size := if parallel then l.size + amount else amount, spaceDemand := Exact));
    if f == 0 then Step(c, Fail(FuelExhausted))
    else if c1.Leaf? then Step(c1, Outcome.Pass)
    else
      var s := TotalSize(c1, a, f - 1);
      Step(s.tree, if s.total.Failure? then Fail(s.total.error) else Outcome.Pass)
  }

  // ---- What calcTotalSizeChildren promises.

  /** The number of expanding children among the first n. */
  function CountExpand(ks: seq<Node>, a: Axis, n: nat): nat
    requires n <= |ks|
  {
    if n == 0 then 0 else CountExpand(ks, a, n - 1) + (if DemandOf(ks[n - 1], a) == ExpandToFit then 1 else 0)
  }

  /** Two child lists with the same expanding positions. */
  predicate SameExpands(ks: seq<Node>, ks': seq<Node>, a: Axis)
  {
    |ks| == |ks'| &&
    forall j :: 0 <= j < |ks| ==> (DemandOf(ks[j], a) == ExpandToFit <==> DemandOf(ks'[j], a) == ExpandToFit)
  }

  lemma {:induction false} CountExpandSame(ks: seq<Node>, ks': seq<Node>, a: Axis, n: nat)
    requires SameExpands(ks, ks', a) && n <= |ks|
    ensures CountExpand(ks, a, n) == CountExpand(ks', a, n)
  {
    if n > 0 {
      CountExpandSame(ks, ks', a, n - 1);
    }
  }

  /** The loop's counter is positive exactly when some child expands. */
  lemma {:induction false} CountExpandPositive(ks: seq<Node>, a: Axis, n: nat)
    requires n <= |ks|
    ensures CountExpand(ks, a, n) > 0 <==> exists j :: 0 <= j < n && DemandOf(ks[j], a) == ExpandToFit
  {
    if n > 0 {
      CountExpandPositive(ks, a, n - 1);
    }
  }

  /** The children as the first loop leaves them when none of them raises. */
  function Sized(ks: seq<Node>, a: Axis, f: nat): (r: seq<Node>)
    ensures |r| == |ks| && forall j :: 0 <= j < |ks| ==> r[j] == SizeChild(ks[j], a, f).tree
  {
    seq(|ks|, j requires 0 <= j < |ks| => SizeChild(ks[j], a, f).tree)
  }

  /** The children as the second loop leaves them when none of them raises. */
  function Grown(ks: seq<Node>, a: Axis, parallel: bool, amount: real, f: nat): (r: seq<Node>)
    ensures |r| == |ks|
    ensures forall j :: 0 <= j < |ks| ==>
      r[j] == if DemandOf(ks[j], a) == ExpandToFit then Grow(ks[j], a, parallel, amount, f).tree else ks[j]
  {
    seq(|ks|, j requires 0 <= j < |ks| =>
      if DemandOf(ks[j], a) == ExpandToFit then Grow(ks[j], a, parallel, amount, f).tree else ks[j])
  }

  /** Sizing one child keeps it expanding or not, keeps its outer buffer,
      makes a shrinking child exact at its inner buffer plus its children's
      total, and leaves an exact child's size alone. */
  lemma SizeChildFacts(c: Node, a: Axis, f: nat)
    ensures var s := SizeChild(c, a, f);
      && (DemandOf(s.tree, a) == ExpandToFit <==> DemandOf(c, a) == ExpandToFit)
      && Outer(s.tree, a) == Outer(c, a)
      && (s.outcome.Pass? && DemandOf(c, a) != ExpandToFit ==> DemandOf(s.tree, a) == Exact)
      && (s.outcome.Pass? && DemandOf(c, a) == Exact ==> SizeOf(s.tree, a) == SizeOf(c, a))
      && (s.outcome.Pass? && DemandOf(c, a) == ShrinkToFit ==>
            f > 0 && TotalSize(c, a, f - 1).total.Success? &&
            SizeOf(s.tree, a) == Inner(c, a) + TotalSize(c, a, f - 1).total.value)
      && (s.outcome.Pass? && DemandOf(c, a) == ExpandToFit ==>
            && f > 0
            && (c.Leaf? ==> SizeOf(s.tree, a) == Inner(c, a))
            && (c.Frame? ==>
                  && TotalSize(AtMinimum(c, a), a, f - 1).total.Success?
                  && SizeOf(s.tree, a) == Inner(c, a) + TotalSize(AtMinimum(c, a), a, f - 1).total.value))
  {
  }

  /** An expanding child before the first loop measures it: its size on
      axis a set to its inner buffer. */
  function AtMinimum(c: Node, a: Axis): (r: Node)
    ensures SizeOf(r, a) == Inner(c, a) && Inner(r, a) == Inner(c, a) && DemandOf(r, a) == DemandOf(c, a)
    ensures r.Frame? == c.Frame? && (r.Frame? ==> r.childList == c.childList && r.childSequenceDir == c.childSequenceDir)
  {
    WithAxis(c, a, c.axes.At(a).(size := c.axes.At(a).innerBuffer))
  }

  /** The first loop leaves an expanding child at its minimum: its inner
      buffer, plus, for a frame, the room its children take as they are
      left. */
  lemma ExpandChildMinimum(c: Node, a: Axis, f: nat)
    requires DemandOf(c, a) == ExpandToFit && SizeChild(c, a, f).outcome.Pass?
    ensures var s := SizeChild(c, a, f);
      SizeOf(s.tree, a) == Inner(c, a) +
        (if c.Leaf? then 0.0 else MinChildSize(s.tree.childList, a, c.childSequenceDir == a))
  {
    SizeChildFacts(c, a, f);
    if c.Frame? {
      TotalSizeMeasures(AtMinimum(c, a), a, f - 1);
    }
  }

  /** Growing a child makes it exact at its new size. */
  lemma GrowFacts(c: Node, a: Axis, parallel: bool, amount: real, f: nat)
    ensures var s := Grow(c, a, parallel, amount, f);
      && Outer(s.tree, a) == Outer(c, a)
      && (s.outcome.Pass? ==>
            && DemandOf(s.tree, a) == Exact
            && SizeOf(s.tree, a) == (if parallel then SizeOf(c, a) + amount else amount))
  {
  }

  /** The first loop from child i: earlier children untouched, and each
      child still expanding exactly when it was. */
  lemma {:induction false} FirstPassKeeps(f: nat, a: Axis, ks: seq<Node>, i: nat, count: nat)
    requires i <= |ks|
    ensures var r := FirstPass(f, a, ks, i, count);
      SameExpands(r.kids, ks, a) && forall j :: 0 <= j < i ==> r.kids[j] == ks[j]
    decreases |ks| - i
  {
    if i < |ks| {
      var s := SizeChild(ks[i], a, f);
      SizeChildFacts(ks[i], a, f);
      var count' := if DemandOf(ks[i], a) == ExpandToFit then count + 1 else count;
      if s.outcome.Pass? {
        FirstPassKeeps(f, a, ks[i := s.tree], i + 1, count');
      }
    }
  }

  /** The first loop from child i sizes the later children one by one and
      stops at the first child that raises. */
  lemma {:induction false} FirstPassEach(f: nat, a: Axis, ks: seq<Node>, i: nat, count: nat)
    requires i <= |ks|
    ensures var r := FirstPass(f, a, ks, i, count);
      && (r.outcome.Pass? <==> forall j :: i <= j < |ks| ==> SizeChild(ks[j], a, f).outcome.Pass?)
      && (r.outcome.Pass? ==> forall j :: i <= j < |ks| ==> r.kids[j] == SizeChild(ks[j], a, f).tree)
    decreases |ks| - i
  {
    if i < |ks| {
      var s := SizeChild(ks[i], a, f);
      var count' := if DemandOf(ks[i], a) == ExpandToFit then count + 1 else count;
      var ks' := ks[i := s.tree];
      if s.outcome.Pass? {
        FirstPassEach(f, a, ks', i + 1, count');
        FirstPassKeeps(f, a, ks', i + 1, count');
        assert forall j :: i < j < |ks| ==> SizeChild(ks'[j], a, f) == SizeChild(ks[j], a, f);
      }
    }
  }

  /** The first loop from child i advances the counter by the expanding
      children from i on. */
  lemma {:induction false} FirstPassCounts(f: nat, a: Axis, ks: seq<Node>, i: nat, count: nat)
    requires i <= |ks|
    ensures var r := FirstPass(f, a, ks, i, count);
      r.outcome.Pass? ==> r.count + CountExpand(ks, a, i) == count + CountExpand(ks, a, |ks|)
    decreases |ks| - i
  {
    if i < |ks| {
      var s := SizeChild(ks[i], a, f);
      SizeChildFacts(ks[i], a, f);
      var count' := if DemandOf(ks[i], a) == ExpandToFit then count + 1 else count;
      var ks' := ks[i := s.tree];
      assert SameExpands(ks', ks, a);
      if s.outcome.Pass? {
        FirstPassCounts(f, a, ks', i + 1, count');
        CountExpandSame(ks', ks, a, |ks|);
        CountExpandSame(ks', ks, a, i + 1);
      }
    }
  }

  /** The first loop as a whole: it passes exactly when every child is
      sized without error, and then leaves the sized children and the
      number of expanding ones. */
  lemma FirstPassSized(f: nat, a: Axis, ks: seq<Node>)
    ensures var p := FirstPass(f, a, ks, 0, 0);
      && (p.outcome.Pass? <==> forall j :: 0 <= j < |ks| ==> SizeChild(ks[j], a, f).outcome.Pass?)
      && (p.outcome.Pass? ==> p.kids == Sized(ks, a, f) && p.count == CountExpand(ks, a, |ks|))
  {
    FirstPassEach(f, a, ks, 0, 0);
    FirstPassCounts(f, a, ks, 0, 0);
    var p := FirstPass(f, a, ks, 0, 0);
    if p.outcome.Pass? {
      assert p.kids == Sized(ks, a, f);
    }
  }

  /** The second loop from child i leaves the earlier children untouched. */
  lemma {:induction false} SecondPassKeeps(f: nat, a: Axis, ks: seq<Node>, i: nat, parallel: bool, amount: real)
    requires i <= |ks|
    ensures var r := SecondPass(f, a, ks, i, parallel, amount);
      forall j :: 0 <= j < i ==> r.kids[j] == ks[j]
    decreases |ks| - i
  {
    if i < |ks| {
      if DemandOf(ks[i], a) != ExpandToFit {
        SecondPassKeeps(f, a, ks, i + 1, parallel, amount);
      } else {
        var s := Grow(ks[i], a, parallel, amount, f);
        if s.outcome.Pass? {
          SecondPassKeeps(f, a, ks[i := s.tree], i + 1, parallel, amount);
        }
      }
    }
  }

  /** The second loop from child i grows every later expanding child and
      stops at the first one that raises. */
  lemma {:induction false} SecondPassEach(f: nat, a: Axis, ks: seq<Node>, i: nat, parallel: bool, amount: real)
    requires i <= |ks|
    ensures var r := SecondPass(f, a, ks, i, parallel, amount);
      && (r.outcome.Pass? <==>
            forall j :: i <= j < |ks| && DemandOf(ks[j], a) == ExpandToFit ==> Grow(ks[j], a, parallel, amount, f).outcome.Pass?)
      && (r.outcome.Pass? ==> forall j :: i <= j < |ks| ==> r.kids[j] == Grown(ks, a, parallel, amount, f)[j])
    decreases |ks| - i
  {
    if i < |ks| {
      if DemandOf(ks[i], a) != ExpandToFit {
        SecondPassEach(f, a, ks, i + 1, parallel, amount);
        SecondPassKeeps(f, a, ks, i + 1, parallel, amount);
      } else {
        var s := Grow(ks[i], a, parallel, amount, f);
        var ks' := ks[i := s.tree];
        if s.outcome.Pass? {
          SecondPassEach(f, a, ks', i + 1, parallel, amount);
          SecondPassKeeps(f, a, ks', i + 1, parallel, amount);
          assert forall j :: i < j < |ks| ==> ks'[j] == ks[j];
          assert forall j :: i < j < |ks| ==> Grown(ks', a, parallel, amount, f)[j] == Grown(ks, a, parallel, amount, f)[j];
        }
      }
    }
  }

  /** The second loop as a whole: when it passes it leaves the grown children. */
  lemma SecondPassGrown(f: nat, a: Axis, ks: seq<Node>, parallel: bool, amount: real)
    ensures var q := SecondPass(f, a, ks, 0, parallel, amount);
      q.outcome.Pass? ==> q.kids == Grown(ks, a, parallel, amount, f)
  {
    SecondPassEach(f, a, ks, 0, parallel, amount);
    var q := SecondPass(f, a, ks, 0, parallel, amount);
    if q.outcome.Pass? {
      assert q.kids == Grown(ks, a, parallel, amount, f);
    }
  }

  /** The rest of calcTotalSizeChildren, case by case. */
  lemma SettleFacts(w: Node, a: Axis, f: nat, p: Sweep)
    requires w.Frame? && |p.kids| == |w.childList|
    ensures var r := Settle(w, a, f, p); var parallel := w.childSequenceDir == a;
      var grows := DemandOf(w, a) == Exact && p.count > 0 && Spare(w, a, p.kids) >= 0.0;
      && (r.total.Success? ==>
          && p.outcome.Pass?
          && (DemandOf(w, a) == ShrinkToFit ==> p.count == 0)
          && (DemandOf(w, a) == Exact ==> Spare(w, a, p.kids) >= 0.0)
          && r.tree.childList ==
               (if grows then SecondPass(f, a, p.kids, 0, parallel, Share(w, a, parallel, Spare(w, a, p.kids), p.count)).kids
                else p.kids)
          && (grows ==> SecondPass(f, a, p.kids, 0, parallel, Share(w, a, parallel, Spare(w, a, p.kids), p.count)).outcome.Pass?)
          && r.total.value == (if grows then SizeOf(w, a) - Inner(w, a) else MinChildSize(p.kids, a, parallel)))
      && (p.outcome.Pass? ==>
          && (DemandOf(w, a) == ShrinkToFit && p.count > 0 ==> r.total == Failure(ShrinkWithExpandingChild))
          && (DemandOf(w, a) == Exact && Spare(w, a, p.kids) < 0.0 ==> r.total == Failure(ChildrenTooLarge(a, w.name))))
  {
  }

  /** calcTotalSizeChildren on a frame with children, step by step: on
      success every child was sized, a shrinking frame has no expanding
      child, an exact one has room to spare, and the children are the sized
      ones, grown when the frame is exact and some of them expand; the
      refusals happen exactly where the source raises. */
  lemma TotalSizeSteps(w: Node, a: Axis, f: nat)
    requires w.Frame? && |w.childList| > 0
    ensures var r := TotalSize(w, a, f); var kids := w.childList; var sized := Sized(kids, a, f);
      var parallel := w.childSequenceDir == a; var k := CountExpand(kids, a, |kids|);
      var grows := DemandOf(w, a) == Exact && k > 0;
      && (r.total.Success? ==>
          && (forall j :: 0 <= j < |kids| ==> SizeChild(kids[j], a, f).outcome.Pass?)
          && (DemandOf(w, a) == ShrinkToFit ==> k == 0)
          && (DemandOf(w, a) == Exact ==> Spare(w, a, sized) >= 0.0)
          && r.tree.childList ==
               (if grows then Grown(sized, a, parallel, Share(w, a, parallel, Spare(w, a, sized), k), f) else sized)
          && r.total.value == (if grows then SizeOf(w, a) - Inner(w, a) else MinChildSize(sized, a, parallel)))
      && ((forall j :: 0 <= j < |kids| ==> SizeChild(kids[j], a, f).outcome.Pass?) ==>
          && (DemandOf(w, a) == ShrinkToFit && k > 0 ==> r.total == Failure(ShrinkWithExpandingChild))
          && (DemandOf(w, a) == Exact && Spare(w, a, sized) < 0.0 ==> r.total == Failure(ChildrenTooLarge(a, w.name))))
  {
    var kids := w.childList;
    var p := FirstPass(f, a, kids, 0, 0);
    assert TotalSize(w, a, f) == Settle(w, a, f, p);
    SettleFacts(w, a, f, p);
    FirstPassSized(f, a, kids);
    if p.outcome.Pass? {
      var parallel := w.childSequenceDir == a;
      if DemandOf(w, a) == Exact && Spare(w, a, p.kids) >= 0.0 && p.count > 0 {
        SecondPassGrown(f, a, p.kids, parallel, Share(w, a, parallel, Spare(w, a, p.kids), p.count));
      }
    }
  }

  /** The room the expanding children among the first n are given when
      each gets `amount`. */
  function ExpandShare(ks: seq<Node>, a: Axis, amount: real, n: nat): real
    requires n <= |ks|
  {
    if n == 0 then 0.0 else ExpandShare(ks, a, amount, n - 1) + (if DemandOf(ks[n - 1], a) == ExpandToFit then amount else 0.0)
  }

  lemma {:induction false} ExpandShareCounts(ks: seq<Node>, a: Axis, amount: real, n: nat)
    requires n <= |ks|
    ensures ExpandShare(ks, a, amount, n) == (CountExpand(ks, a, n) as real) * amount
  {
    if n > 0 {
      ExpandShareCounts(ks, a, amount, n - 1);
      var c := CountExpand(ks, a, n - 1);
      assert ((c + 1) as real) * amount == (c as real) * amount + amount;
    }
  }

  /** Along the sequence, growing every expanding child by the same amount
      lengthens the run by that amount per expanding child. */
  lemma {:induction false} ParallelSumShifted(ks: seq<Node>, ks': seq<Node>, a: Axis, amount: real, n: nat)
    requires n <= |ks| == |ks'|
    requires forall j :: 0 <= j < |ks| ==> Outer(ks'[j], a) == Outer(ks[j], a)
    requires forall j :: 0 <= j < |ks| ==>
      SizeOf(ks'[j], a) == SizeOf(ks[j], a) + (if DemandOf(ks[j], a) == ExpandToFit then amount else 0.0)
    ensures ParallelSum(ks', a, n) == ParallelSum(ks, a, n) + ExpandShare(ks, a, amount, n)
  {
    if n > 0 {
      ParallelSumShifted(ks, ks', a, amount, n - 1);
    }
  }

  /** What growing does to each child's size and buffer, when every
      expanding child grew without error. */
  lemma GrownFacts(ks: seq<Node>, a: Axis, parallel: bool, amount: real, f: nat)
    requires forall j :: 0 <= j < |ks| && DemandOf(ks[j], a) == ExpandToFit ==>
      Grow(ks[j], a, parallel, amount, f).outcome.Pass?
    ensures var g := Grown(ks, a, parallel, amount, f);
      forall j :: 0 <= j < |ks| ==>
        && Outer(g[j], a) == Outer(ks[j], a)
        && DemandOf(g[j], a) == (if DemandOf(ks[j], a) == ExpandToFit then Exact else DemandOf(ks[j], a))
        && SizeOf(g[j], a) ==
             (if DemandOf(ks[j], a) != ExpandToFit then SizeOf(ks[j], a)
              else if parallel then SizeOf(ks[j], a) + amount else amount)
  {
    forall j | 0 <= j < |ks| {
      GrowFacts(ks[j], a, parallel, amount, f);
    }
  }

  /** Across the sequence, when every expanding child is given the room m
      and no child took more than m, the largest child is m. */
  lemma CrossFilledMax(ks: seq<Node>, ks': seq<Node>, a: Axis, m: real)
    requires |ks| == |ks'| && MaxSize(ks, a, |ks|) <= m
    requires forall j :: 0 <= j < |ks| ==>
      SizeOf(ks'[j], a) == if DemandOf(ks[j], a) == ExpandToFit then m else SizeOf(ks[j], a)
    requires exists j :: 0 <= j < |ks| && DemandOf(ks[j], a) == ExpandToFit
    ensures MaxSize(ks', a, |ks'|) == m
  {
    MaxSizeIsMax(ks, a, |ks|);
    MaxSizeIsMax(ks', a, |ks'|);
  }

  /** What sizing does to each child's demand and buffer. */
  lemma SizedFacts(ks: seq<Node>, a: Axis, f: nat)
    ensures var s := Sized(ks, a, f);
      && SameExpands(s, ks, a)
      && forall j :: 0 <= j < |ks| ==>
        && Outer(s[j], a) == Outer(ks[j], a)
        && (SizeChild(ks[j], a, f).outcome.Pass? && DemandOf(ks[j], a) != ExpandToFit ==> DemandOf(s[j], a) == Exact)
        && (SizeChild(ks[j], a, f).outcome.Pass? && DemandOf(ks[j], a) == Exact ==> SizeOf(s[j], a) == SizeOf(ks[j], a))
        && (SizeChild(ks[j], a, f).outcome.Pass? && DemandOf(ks[j], a) == ShrinkToFit ==>
              f > 0 && TotalSize(ks[j], a, f - 1).total.Success? &&
              SizeOf(s[j], a) == Inner(ks[j], a) + TotalSize(ks[j], a, f - 1).total.value)
        && (SizeChild(ks[j], a, f).outcome.Pass? && DemandOf(ks[j], a) == ExpandToFit ==>
              && f > 0
              && (ks[j].Leaf? ==> SizeOf(s[j], a) == Inner(ks[j], a))
              && (ks[j].Frame? ==>
                    && TotalSize(AtMinimum(ks[j], a), a, f - 1).total.Success?
                    && SizeOf(s[j], a) == Inner(ks[j], a) + TotalSize(AtMinimum(ks[j], a), a, f - 1).total.value))
  {
    forall j | 0 <= j < |ks| {
      SizeChildFacts(ks[j], a, f);
    }
  }

  /** On success, when the frame is exact and some child expands, the
      second loop grew every expanding child without error. */
  lemma TotalSizeGrew(w: Node, a: Axis, f: nat)
    requires w.Frame? && |w.childList| > 0 && TotalSize(w, a, f).total.Success?
    requires DemandOf(w, a) == Exact && CountExpand(w.childList, a, |w.childList|) > 0
    ensures var kids := w.childList; var sized := Sized(kids, a, f); var k := CountExpand(kids, a, |kids|);
      var parallel := w.childSequenceDir == a;
      forall j :: 0 <= j < |sized| && DemandOf(sized[j], a) == ExpandToFit ==>
        Grow(sized[j], a, parallel, Share(w, a, parallel, Spare(w, a, sized), k), f).outcome.Pass?
  {
    var kids := w.childList;
    var p := FirstPass(f, a, kids, 0, 0);
    assert TotalSize(w, a, f) == Settle(w, a, f, p);
    SettleFacts(w, a, f, p);
    FirstPassSized(f, a, kids);
    var parallel := w.childSequenceDir == a;
    SecondPassEach(f, a, p.kids, 0, parallel, Share(w, a, parallel, Spare(w, a, p.kids), p.count));
  }

  /** On success every child ends `exact`, except that under an expanding
      frame an expanding child is left expanding. */
  lemma TotalSizeDemands(w: Node, a: Axis, f: nat)
    requires w.Frame? && TotalSize(w, a, f).total.Success?
    ensures var kids := TotalSize(w, a, f).tree.childList;
      forall j :: 0 <= j < |kids| ==>
        DemandOf(kids[j], a) ==
          (if DemandOf(w, a) == ExpandToFit && DemandOf(w.childList[j], a) == ExpandToFit then ExpandToFit else Exact)
  {
    var kids := w.childList;
    if |kids| > 0 {
      TotalSizeSteps(w, a, f);
      CountExpandPositive(kids, a, |kids|);
      var sized := Sized(kids, a, f);
      SizedFacts(kids, a, f);
      var parallel := w.childSequenceDir == a;
      var k := CountExpand(kids, a, |kids|);
      if DemandOf(w, a) == Exact && k > 0 {
        TotalSizeGrew(w, a, f);
        GrownFacts(sized, a, parallel, Share(w, a, parallel, Spare(w, a, sized), k), f);
      }
    }
  }

  /** On success a shrinking child is sized to its inner buffer plus what
      its own children need, an exact child keeps its size, and no child's
      outer buffer changes. */
  lemma TotalSizeFixesChildren(w: Node, a: Axis, f: nat)
    requires w.Frame? && TotalSize(w, a, f).total.Success?
    ensures var kids := TotalSize(w, a, f).tree.childList;
      forall j :: 0 <= j < |kids| ==>
        var c := w.childList[j];
        && Outer(kids[j], a) == Outer(c, a)
        && (DemandOf(c, a) == Exact ==> SizeOf(kids[j], a) == SizeOf(c, a))
        && (DemandOf(c, a) == ShrinkToFit ==>
              f > 0 && TotalSize(c, a, f - 1).total.Success? &&
              SizeOf(kids[j], a) == Inner(c, a) + TotalSize(c, a, f - 1).total.value)
  {
    var kids := w.childList;
    if |kids| > 0 {
      TotalSizeSteps(w, a, f);
      var sized := Sized(kids, a, f);
      SizedFacts(kids, a, f);
      var parallel := w.childSequenceDir == a;
      var k := CountExpand(kids, a, |kids|);
      if DemandOf(w, a) == Exact && k > 0 {
        TotalSizeGrew(w, a, f);
        GrownFacts(sized, a, parallel, Share(w, a, parallel, Spare(w, a, sized), k), f);
      }
    }
  }

  /** Along the sequence, sharing the room left over equally among the k
      expanding children makes the run fill the room. */
  lemma AlongFilled(ks: seq<Node>, ks': seq<Node>, a: Axis, k: nat, room: real)
    requires |ks| == |ks'| && k == CountExpand(ks, a, |ks|) > 0
    requires forall j :: 0 <= j < |ks| ==> Outer(ks'[j], a) == Outer(ks[j], a)
    requires forall j :: 0 <= j < |ks| ==>
      SizeOf(ks'[j], a) == SizeOf(ks[j], a) +
        (if DemandOf(ks[j], a) == ExpandToFit then (room - ParallelTotal(ks, a)) / (k as real) else 0.0)
    ensures ParallelTotal(ks', a) == room
  {
    var spare := room - ParallelTotal(ks, a);
    ParallelSumShifted(ks, ks', a, spare / (k as real), |ks|);
    ExpandShareCounts(ks, a, spare / (k as real), |ks|);
    assert (k as real) * (spare / (k as real)) == spare;
  }

  /** Along the sequence, the grown run fills the frame exactly. */
  lemma FilledAlong(w: Node, a: Axis, ks: seq<Node>, f: nat)
    requires w.Frame? && w.childSequenceDir == a && CountExpand(ks, a, |ks|) > 0
    requires forall j :: 0 <= j < |ks| && DemandOf(ks[j], a) == ExpandToFit ==>
      Grow(ks[j], a, true, Share(w, a, true, Spare(w, a, ks), CountExpand(ks, a, |ks|)), f).outcome.Pass?
    ensures var k := CountExpand(ks, a, |ks|);
      ParallelTotal(Grown(ks, a, true, Share(w, a, true, Spare(w, a, ks), k), f), a) == SizeOf(w, a) - Inner(w, a)
  {
    var k := CountExpand(ks, a, |ks|);
    var amount := Share(w, a, true, Spare(w, a, ks), k);
    GrownFacts(ks, a, true, amount, f);
    AlongFilled(ks, Grown(ks, a, true, amount, f), a, k, SizeOf(w, a) - Inner(w, a));
  }

  /** Across the sequence, the largest grown child fills the frame exactly. */
  lemma FilledAcross(w: Node, a: Axis, ks: seq<Node>, f: nat)
    requires w.Frame? && w.childSequenceDir != a && CountExpand(ks, a, |ks|) > 0 && Spare(w, a, ks) >= 0.0
    requires forall j :: 0 <= j < |ks| && DemandOf(ks[j], a) == ExpandToFit ==>
      Grow(ks[j], a, false, Share(w, a, false, Spare(w, a, ks), CountExpand(ks, a, |ks|)), f).outcome.Pass?
    ensures var k := CountExpand(ks, a, |ks|);
      var g := Grown(ks, a, false, Share(w, a, false, Spare(w, a, ks), k), f);
      MaxSize(g, a, |g|) == SizeOf(w, a) - Inner(w, a)
  {
    var k := CountExpand(ks, a, |ks|);
    var amount := Share(w, a, false, Spare(w, a, ks), k);
    CountExpandPositive(ks, a, |ks|);
    GrownFacts(ks, a, false, amount, f);
    CrossFilledMax(ks, Grown(ks, a, false, amount, f), a, amount);
  }

  /** On success the result is the room the children take as they are
      left: their run along the sequence, the largest of them across it.
      An exact frame holds it, and is filled when some child expanded. */
  lemma TotalSizeMeasures(w: Node, a: Axis, f: nat)
    requires w.Frame? && TotalSize(w, a, f).total.Success?
    ensures var r := TotalSize(w, a, f);
      && r.total.value == MinChildSize(r.tree.childList, a, w.childSequenceDir == a)
      && (DemandOf(w, a) == Exact && 0 < |w.childList| ==> r.total.value <= SizeOf(w, a) - Inner(w, a))
      && (DemandOf(w, a) == Exact && (exists j :: 0 <= j < |w.childList| && DemandOf(w.childList[j], a) == ExpandToFit)
          ==> r.total.value == SizeOf(w, a) - Inner(w, a))
  {
    var kids := w.childList;
    if |kids| > 0 {
      TotalSizeSteps(w, a, f);
      CountExpandPositive(kids, a, |kids|);
      if DemandOf(w, a) == Exact && CountExpand(kids, a, |kids|) > 0 {
        var sized := Sized(kids, a, f);
        SizedFacts(kids, a, f);
        CountExpandSame(kids, sized, a, |kids|);
        TotalSizeGrew(w, a, f);
        if w.childSequenceDir == a {
          FilledAlong(w, a, sized, f);
        } else {
          FilledAcross(w, a, sized, f);
        }
      }
    } else {
      assert ParallelSum(kids, a, 0) == 0.0 && MaxSize(kids, a, 0) == 0.0;
    }
  }

  /** The two refusals: a shrinking frame with an expanding child, and an
      exact frame whose children, once sized, need more than its room. */
  lemma TotalSizeRefuses(w: Node, a: Axis, f: nat)
    requires w.Frame? && forall j :: 0 <= j < |w.childList| ==> SizeChild(w.childList[j], a, f).outcome.Pass?
    ensures DemandOf(w, a) == ShrinkToFit && (exists j :: 0 <= j < |w.childList| && DemandOf(w.childList[j], a) == ExpandToFit)
      ==> TotalSize(w, a, f).total == Failure(ShrinkWithExpandingChild)
    ensures DemandOf(w, a) == Exact && 0 < |w.childList| &&
      MinChildSize(Sized(w.childList, a, f), a, w.childSequenceDir == a) > SizeOf(w, a) - Inner(w, a)
      ==> TotalSize(w, a, f).total == Failure(ChildrenTooLarge(a, w.name))
  {
    if |w.childList| > 0 {
      TotalSizeSteps(w, a, f);
      CountExpandPositive(w.childList, a, |w.childList|);
    }
  }

  // ---- The source's loops, proved against the functions above. Each is
  // given fuel no smaller than the widget count of its tree, and so never
  // reports running out; the count of the tree it returns is the count of
  // the tree it was given.

  method CalcTotalSizeChildren(w: Node, a: Axis, ghost f: nat) returns (r: Sizing)
    requires NodeCount(w) <= f
    ensures r == TotalSize(w, a, f)
    ensures NodeCount(r.tree) == NodeCount(w) && r.total != Failure(FuelExhausted)
    decreases f, 2
  {
    if w.Leaf? || |w.childList| == 0 {
      return Sizing(w, Success(0.0));
    }
    var p := FixChildren(w, a, f);
    assert TotalSize(w, a, f) == Settle(w, a, f, p);
    NodeCountKids(w, p.kids);
    var w1 := w.(childList := p.kids);
    if p.outcome.Fail? {
      return Sizing(w1, Failure(p.outcome.error));
    }
    var l := w.axes.At(a);
    if l.spaceDemand == ShrinkToFit && p.count > 0 {
      return Sizing(w1, Failure(ShrinkWithExpandingChild));
    }
    var parallel := w.childSequenceDir == a;
    var minChildSize;
    if parallel {
      minChildSize := CalcTotalSizeParallelChildren(w1, a);
    } else {
      minChildSize := MaxChildSize(w1, a);
    }
    if l.spaceDemand != Exact {
      return Sizing(w1, Success(minChildSize));
    }
    var spareSpace := l.size - l.innerBuffer - minChildSize;
    assert spareSpace == Spare(w, a, p.kids);
    if spareSpace < 0.0 {
      return Sizing(w1, Failure(ChildrenTooLarge(a, w.name)));
    }
    if p.count == 0 {
      return Sizing(w1, Success(minChildSize));
    }
    var amount := Share(w, a, parallel, spareSpace, p.count);
    var q := GrowChildren(w, a, p.kids, parallel, amount, f);
    NodeCountKids(w, q.kids);
    var w2 := w.(childList := q.kids);
    if q.outcome.Fail? {
      return Sizing(w2, Failure(q.outcome.error));
    }
    return Sizing(w2, Success(l.size - l.innerBuffer));
  }

  /** The first loop: each child sized in turn, the expanding ones counted. */
  method FixChildren(w: Node, a: Axis, ghost f: nat) returns (r: Sweep)
    requires w.Frame? && NodeCount(w) <= f
    ensures r == FirstPass(f, a, w.childList, 0, 0)
    ensures SameCounts(r.kids, w.childList) && r.outcome != Fail(FuelExhausted)
    decreases f, 1
  {
    var ks := w.childList;
    var count := 0;
    var i := 0;
    while i < |ks|
      invariant i <= |ks| && SameCounts(ks, w.childList)
      invariant FirstPass(f, a, ks, i, count) == FirstPass(f, a, w.childList, 0, 0)
    {
      ghost var c0 := count;
      if ks[i].axes.At(a).spaceDemand == ExpandToFit {
        count := count + 1;
      }
      var s := SizeChildStep(ks[i], a, f);
      FirstPassStep(f, a, ks, i, c0, s);
      SameCountsUpdate(ks, w.childList, i, s.tree);
      ks := ks[i := s.tree];
      if s.outcome.Fail? {
        return Sweep(ks, count, s.outcome);
      }
      i := i + 1;
    }
    return Sweep(ks, count, Outcome.Pass);
  }

  lemma FirstPassStep(f: nat, a: Axis, ks: seq<Node>, i: nat, count: nat, s: Step)
    requires i < |ks| && s == SizeChild(ks[i], a, f)
    ensures var c := if DemandOf(ks[i], a) == ExpandToFit then count + 1 else count;
      FirstPass(f, a, ks, i, count) ==
        if s.outcome.Fail? then Sweep(ks[i := s.tree], c, s.outcome) else FirstPass(f, a, ks[i := s.tree], i + 1, c)
  {
  }

  method SizeChildStep(c: Node, a: Axis, ghost f: nat) returns (r: Step)
    requires NodeCount(c) < f
    ensures r == SizeChild(c, a, f)
    ensures NodeCount(r.tree) == NodeCount(c) && r.outcome != Fail(FuelExhausted)
    decreases f, 0
  {
    var l := c.axes.At(a);
    match l.spaceDemand
    case ShrinkToFit =>
      var s := CalcTotalSizeChildren(c, a, f - 1);
      if s.total.Failure? {
        return Step(s.tree, Fail(s.total.error));
      }
      return Step(WithAxis(s.tree, a, l.(size := l.innerBuffer + s.total.value, spaceDemand := Exact)), Outcome.Pass);
    case ExpandToFit =>
      var child := WithAxis(c, a, l.(size := l.innerBuffer));
      if child.Leaf? {
        return Step(child, Outcome.Pass);
      }
      var s := CalcTotalSizeChildren(child, a, f - 1);
      if s.total.Failure? {
        return Step(s.tree, Fail(s.total.error));
      }
      return Step(WithAxis(s.tree, a, l.(size := l.innerBuffer + s.total.value)), Outcome.Pass);
    case Exact =>
      if c.Leaf? {
        return Step(c, Outcome.Pass);
      }
      var s := CalcTotalSizeChildren(c, a, f - 1);
      return Step(s.tree, if s.total.Failure? then Fail(s.total.error) else Outcome.Pass);
  }

  /** The second loop: every expanding child given its share. */
  method GrowChildren(w: Node, a: Axis, kids: seq<Node>, parallel: bool, amount: real, ghost f: nat)
    returns (r: Sweep)
    requires w.Frame? && SameCounts(kids, w.childList) && NodeCount(w) <= f
    ensures r == SecondPass(f, a, kids, 0, parallel, amount)
    ensures SameCounts(r.kids, w.childList) && r.outcome != Fail(FuelExhausted)
    decreases f, 1
  {
    var ks := kids;
    var i := 0;
    while i < |ks|
      invariant i <= |ks| && SameCounts(ks, w.childList)
      invariant SecondPass(f, a, ks, i, parallel, amount) == SecondPass(f, a, kids, 0, parallel, amount)
    {
      if ks[i].axes.At(a).spaceDemand == ExpandToFit {
        var s := GrowStep(ks[i], a, parallel, amount, f);
        ks := ks[i := s.tree];
        if s.outcome.Fail? {
          return Sweep(ks, 0, s.outcome);
        }
      }
      i := i + 1;
    }
    return Sweep(ks, 0, Outcome.Pass);
  }

  method GrowStep(c: Node, a: Axis, parallel: bool, amount: real, ghost f: nat) returns (r: Step)
    requires NodeCount(c) < f
    ensures r == Grow(c, a, parallel, amount, f)
    ensures NodeCount(r.tree) == NodeCount(c) && r.outcome != Fail(FuelExhausted)
    decreases f, 0
  {
    var l := c.axes.At(a);
    var child := WithAxis(c, a, l.(size := if parallel then l.size + amount else amount, spaceDemand := Exact));
    if child.Leaf? {
      return Step(child, Outcome.Pass);
    }
    var s := CalcTotalSizeChildren(child, a, f - 1);
    return Step(s.tree, if s.total.Failure? then Fail(s.total.error) else Outcome.Pass);
  }

  // ---- Sizing never adds, drops, renames or re-enables a widget.

  lemma {:induction false} TotalSizeShape(w: Node, a: Axis, f: nat)
    ensures SameShape(w, TotalSize(w, a, f).tree)
    decreases f, 2, 1
  {
    SameShapeRefl(w);
    if w.Frame? && |w.childList| > 0 {
      var p := FirstPass(f, a, w.childList, 0, 0);
      FirstPassShape(f, a, w.childList, 0, 0);
      SettleShape(w, a, f, p);
    }
  }

  lemma {:induction false} SettleShape(w: Node, a: Axis, f: nat, p: Sweep)
    requires w.Frame? && KidsShape(w.childList, p.kids)
    ensures SameShape(w, Settle(w, a, f, p).tree)
    decreases f, 2, 0
  {
    SameShapeRefl(w);
    KidsShapeFrame(w, w, p.kids);
    var parallel := w.childSequenceDir == a;
    if p.outcome.Pass? && DemandOf(w, a) == Exact && p.count > 0 && Spare(w, a, p.kids) >= 0.0 {
      var amount := Share(w, a, parallel, Spare(w, a, p.kids), p.count);
      var q := SecondPass(f, a, p.kids, 0, parallel, amount);
      SecondPassShape(f, a, p.kids, 0, parallel, amount);
      forall j | 0 <= j < |q.kids|
        ensures SameShape(w.childList[j], q.kids[j])
      {
        SameShapeTrans(w.childList[j], p.kids[j], q.kids[j]);
      }
      KidsShapeFrame(w, w, q.kids);
    }
  }

  lemma {:induction false} FirstPassShape(f: nat, a: Axis, ks: seq<Node>, i: nat, count: nat)
    requires i <= |ks|
    ensures KidsShape(ks, FirstPass(f, a, ks, i, count).kids)
    decreases f, 1, |ks| - i
  {
    forall j | 0 <= j < |ks| {
      SameShapeRefl(ks[j]);
    }
    if i < |ks| {
      var s := SizeChild(ks[i], a, f);
      SizeChildShape(ks[i], a, f);
      var count' := if DemandOf(ks[i], a) == ExpandToFit then count + 1 else count;
      var ks' := ks[i := s.tree];
      if s.outcome.Pass? {
        var r := FirstPass(f, a, ks', i + 1, count');
        FirstPassShape(f, a, ks', i + 1, count');
        forall j | 0 <= j < |ks|
          ensures SameShape(ks[j], r.kids[j])
        {
          SameShapeTrans(ks[j], ks'[j], r.kids[j]);
        }
      }
    }
  }

  lemma {:induction false} SizeChildShape(c: Node, a: Axis, f: nat)
    ensures SameShape(c, SizeChild(c, a, f).tree)
    decreases f, 0
  {
    SameShapeRefl(c);
    if f > 0 {
      var l := c.axes.At(a);
      if l.spaceDemand == ExpandToFit {
        var c1 := WithAxis(c, a, l.(size := l.innerBuffer));
        WithAxisShape(c, c, a, l.(size := l.innerBuffer));
        if c1.Frame? {
          TotalSizeShape(c1, a, f - 1);
          SameShapeTrans(c, c1, TotalSize(c1, a, f - 1).tree);
        }
      } else if l.spaceDemand == ShrinkToFit || c.Frame? {
        TotalSizeShape(c, a, f - 1);
      }
    }
  }

  lemma {:induction false} SecondPassShape(f: nat, a: Axis, ks: seq<Node>, i: nat, parallel: bool, amount: real)
    requires i <= |ks|
    ensures KidsShape(ks, SecondPass(f, a, ks, i, parallel, amount).kids)
    decreases f, 1, |ks| - i
  {
    forall j | 0 <= j < |ks| {
      SameShapeRefl(ks[j]);
    }
    if i < |ks| {
      if DemandOf(ks[i], a) != ExpandToFit {
        SecondPassShape(f, a, ks, i + 1, parallel, amount);
      } else {
        var s := Grow(ks[i], a, parallel, amount, f);
        GrowShape(ks[i], a, parallel, amount, f);
        var ks' := ks[i := s.tree];
        if s.outcome.Pass? {
          var r := SecondPass(f, a, ks', i + 1, parallel, amount);
          SecondPassShape(f, a, ks', i + 1, parallel, amount);
          forall j | 0 <= j < |ks|
            ensures SameShape(ks[j], r.kids[j])
          {
            SameShapeTrans(ks[j], ks'[j], r.kids[j]);
          }
        }
      }
    }
  }

  lemma {:induction false} GrowShape(c: Node, a: Axis, parallel: bool, amount: real, f: nat)
    ensures SameShape(c, Grow(c, a, parallel, amount, f).tree)
    decreases f, 0
  {
    SameShapeRefl(c);
    var l := c.axes.At(a);
    var l1 := l.(size := if parallel then l.size + amount else amount, spaceDemand := Exact);
    var c1 := WithAxis(c, a, l1);
    WithAxisShape(c, c, a, l1);
    if f > 0 && c1.Frame? {
      TotalSizeShape(c1, a, f - 1);
      SameShapeTrans(c, c1, TotalSize(c1, a, f - 1).tree);
    }
  }
}
