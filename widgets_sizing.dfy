/** The buffer and size computations of `Frame`: `setBuffersForChildren`
    (buffers as fractions of the GUI's size on the axis) and
    `calcTotalSizeParallelChildren` (the end-to-end length of a run of
    children), with the end-of-run halving of the outer buffers. */
module WidgetSizing {
  import opened Wrappers
  import opened WidgetTypes

  // ---- setBuffersForChildren

  /** The buffer conversion for one child: both buffers on axis a become
      the child's fractions times the scale. */
  function OwnBuffers(c: Node, a: Axis, scale: real): (r: Node)
    ensures NodeCount(r) == NodeCount(c)
  {
    WithAxis(c, a, ScaledBuffers(c.axes.At(a), scale))
  }

  function ScaledBuffers(l: AxisLayout, scale: real): (r: AxisLayout)
    ensures r.outerBuffer == l.outerBufferFrac * scale && r.innerBuffer == l.innerBufferFrac * scale
    ensures r.(innerBuffer := l.innerBuffer, outerBuffer := l.outerBuffer) == l
  {
    l.(outerBuffer := l.outerBufferFrac * scale, innerBuffer := l.innerBufferFrac * scale)
  }

  /** The tree after `setBuffersForChildren(a)` with scale gui.size[a]: each
      child is converted, then its own children. The widget itself is left
      alone. */
  function Buffered(w: Node, a: Axis, scale: real): (r: Node)
    ensures r.axes == w.axes && r.Leaf? == w.Leaf? && NodeCount(r) == NodeCount(w)
    ensures r.Frame? ==> |r.childList| == |w.childList|
    decreases NodeCount(w), 1
  {
    if w.Leaf? then w
    else
      var ks := BufferedKids(w, a, scale);
      NodeCountKids(w, ks);
      w.(childList := ks)
  }

  function BufferedKids(w: Node, a: Axis, scale: real): (ks: seq<Node>)
    requires w.Frame?
    ensures |ks| == |w.childList|
    ensures forall i :: 0 <= i < |ks| ==>
      ks[i] == Rebuffered(w.childList[i], a, scale) && NodeCount(ks[i]) == NodeCount(w.childList[i])
    decreases NodeCount(w), 0
  {
    var kids := w.childList;
    seq(|kids|, i requires 0 <= i < |kids| => Rebuffered(kids[i], a, scale))
  }

  function Rebuffered(c: Node, a: Axis, scale: real): (r: Node)
    ensures NodeCount(r) == NodeCount(c)
    decreases NodeCount(c), 2
  {
    Buffered(OwnBuffers(c, a, scale), a, scale)
  }

  /** The buffers of `c` on axis a are its fractions times the scale. */
  predicate BuffersSet(c: Node, a: Axis, scale: real)
  {
    Inner(c, a) == c.axes.At(a).innerBufferFrac * scale && Outer(c, a) == c.axes.At(a).outerBufferFrac * scale
  }

  /** Every widget strictly below `w` has its buffers set on axis a. */
  predicate KidsBuffered(w: Node, a: Axis, scale: real)
  {
    w.Frame? ==> forall i :: 0 <= i < |w.childList| ==>
      BuffersSet(w.childList[i], a, scale) && KidsBuffered(w.childList[i], a, scale)
  }

  /** `u` and `v` are the same tree apart from the buffers on axis a of the
      widgets strictly below the root (`top` holds at the root). */
  predicate SameExceptBuffers(u: Node, v: Node, a: Axis, top: bool)
    decreases u
  {
    && u.Leaf? == v.Leaf? && u.name == v.name && u.isEnabled == v.isEnabled
    && (top ==> u.axes == v.axes)
    && (!top ==> AxesMatch(u.axes, v.axes, a))
    && (u.Frame? ==>
         && u.childSequenceDir == v.childSequenceDir
         && u.alongJustify == v.alongJustify && u.crossJustify == v.crossJustify
         && |u.childList| == |v.childList|
         && forall i :: 0 <= i < |u.childList| ==> SameExceptBuffers(u.childList[i], v.childList[i], a, false))
  }

  /** Equal on every axis, except for the buffers on axis a. */
  predicate AxesMatch(p: PerAxis<AxisLayout>, q: PerAxis<AxisLayout>, a: Axis)
  {
    && p.At(a).(innerBuffer := 0.0, outerBuffer := 0.0) == q.At(a).(innerBuffer := 0.0, outerBuffer := 0.0)
    && forall b: Axis :: b != a ==> p.At(b) == q.At(b)
  }

  /** Converting buffers keeps the tree's shape. */
  lemma {:induction false} ExceptBuffersShape(u: Node, v: Node, a: Axis, top: bool)
    requires SameExceptBuffers(u, v, a, top)
    ensures SameShape(u, v)
    decreases u
  {
    if u.Frame? {
      forall i | 0 <= i < |u.childList| {
        ExceptBuffersShape(u.childList[i], v.childList[i], a, false);
      }
    }
  }

  /** setBuffersForChildren sets every buffer below the widget on axis a. */
  lemma {:induction false} BufferedSets(w: Node, a: Axis, scale: real)
    ensures KidsBuffered(Buffered(w, a, scale), a, scale)
    decreases NodeCount(w)
  {
    if w.Frame? {
      var r := Buffered(w, a, scale);
      forall i | 0 <= i < |w.childList|
        ensures BuffersSet(r.childList[i], a, scale) && KidsBuffered(r.childList[i], a, scale)
      {
        var c1 := OwnBuffers(w.childList[i], a, scale);
        BufferedSets(c1, a, scale);
      }
    }
  }

  /** It changes nothing but those buffers. */
  lemma {:induction false} BufferedKeeps(w: Node, a: Axis, scale: real)
    ensures SameExceptBuffers(w, Buffered(w, a, scale), a, true)
    decreases NodeCount(w)
  {
    if w.Frame? {
      var r := Buffered(w, a, scale);
      forall i | 0 <= i < |w.childList|
        ensures SameExceptBuffers(w.childList[i], r.childList[i], a, false)
      {
        var c1 := OwnBuffers(w.childList[i], a, scale);
        BufferedKeeps(c1, a, scale);
      }
    }
  }

  /** On a tree whose buffers are already set, the conversion changes
      nothing; in particular running it twice is running it once. */
  lemma {:induction false} BufferedIdentity(w: Node, a: Axis, scale: real)
    requires KidsBuffered(w, a, scale)
    ensures Buffered(w, a, scale) == w
    decreases NodeCount(w)
  {
    if w.Frame? {
      var kids := w.childList;
      var ks := BufferedKids(w, a, scale);
      forall i | 0 <= i < |kids|
        ensures ks[i] == kids[i]
      {
        var c := kids[i];
        var l := c.axes.At(a);
        assert ScaledBuffers(l, scale) == l;
        assert c.axes.With(a, l) == c.axes;
        assert OwnBuffers(c, a, scale) == c;
        BufferedIdentity(c, a, scale);
      }
      assert ks == kids;
    }
  }

  lemma BufferedIdempotent(w: Node, a: Axis, scale: real)
    ensures Buffered(Buffered(w, a, scale), a, scale) == Buffered(w, a, scale)
  {
    BufferedSets(w, a, scale);
    BufferedIdentity(Buffered(w, a, scale), a, scale);
  }

  /** `setBuffersForChildren` with the source's loop. */
  method SetBuffersForChildren(w: Node, a: Axis, scale: real) returns (r: Node)
    ensures r == Buffered(w, a, scale)
    decreases NodeCount(w)
  {
    if w.Leaf? {
      return w;
    }
    var kids := w.childList;
    ghost var target := BufferedKids(w, a, scale);
    var ks := kids;
    var i := 0;
    while i < |kids|
      invariant 0 <= i <= |kids| && |ks| == |kids|
      invariant forall j :: 0 <= j < i ==> ks[j] == target[j]
    {
      var child := kids[i];
      child := WithAxis(child, a, ScaledBuffers(child.axes.At(a), scale));
      if child.Frame? {
        child := SetBuffersForChildren(child, a, scale);
      }
      assert child == Rebuffered(kids[i], a, scale) == target[i];
      ks := ks[i := child];
      i := i + 1;
    }
    assert ks == target;
    return w.(childList := ks);
  }

  // ---- calcTotalSizeParallelChildren

  /** What child i adds to the run: its size, plus half its outer buffer if
      it is the first or the last child, its whole outer buffer otherwise. */
  function ParallelTerm(ks: seq<Node>, a: Axis, i: nat): real
    requires i < |ks|
  {
    SizeOf(ks[i], a) + (if i < 1 || i >= |ks| - 1 then Outer(ks[i], a) / 2.0 else Outer(ks[i], a))
  }

  function ParallelSum(ks: seq<Node>, a: Axis, n: nat): real
    requires n <= |ks|
  {
    if n == 0 then 0.0 else ParallelSum(ks, a, n - 1) + ParallelTerm(ks, a, n - 1)
  }

  /** `calcTotalSizeParallelChildren`. */
  function ParallelTotal(ks: seq<Node>, a: Axis): real
  {
    ParallelSum(ks, a, |ks|)
  }

  function SizeSum(ks: seq<Node>, a: Axis, n: nat): real
    requires n <= |ks|
  {
    if n == 0 then 0.0 else SizeSum(ks, a, n - 1) + SizeOf(ks[n - 1], a)
  }

  function OuterSum(ks: seq<Node>, a: Axis, n: nat): real
    requires n <= |ks|
  {
    if n == 0 then 0.0 else OuterSum(ks, a, n - 1) + Outer(ks[n - 1], a)
  }

  lemma {:induction false} ParallelSumInside(ks: seq<Node>, a: Axis, n: nat)
    requires 1 <= n < |ks|
    ensures ParallelSum(ks, a, n) == SizeSum(ks, a, n) + OuterSum(ks, a, n) - Outer(ks[0], a) / 2.0
  {
    if n > 1 {
      ParallelSumInside(ks, a, n - 1);
    }
  }

  /** The run's length in closed form: all sizes and all outer buffers, less
      half the first and half the last child's buffer; a single child counts
      half of its buffer once. */
  lemma ParallelTotalClosed(ks: seq<Node>, a: Axis)
    ensures |ks| == 0 ==> ParallelTotal(ks, a) == 0.0
    ensures |ks| == 1 ==> ParallelTotal(ks, a) == SizeOf(ks[0], a) + Outer(ks[0], a) / 2.0
    ensures |ks| >= 2 ==>
      ParallelTotal(ks, a) ==
        SizeSum(ks, a, |ks|) + OuterSum(ks, a, |ks|) - Outer(ks[0], a) / 2.0 - Outer(ks[|ks| - 1], a) / 2.0
  {
    if |ks| == 1 {
      assert ParallelSum(ks, a, 0) == 0.0;
      assert ParallelSum(ks, a, 1) == ParallelTerm(ks, a, 0);
    } else if |ks| >= 2 {
      ParallelSumInside(ks, a, |ks| - 1);
    }
  }

  /** The sum depends only on the sizes and outer buffers on axis a. */
  lemma {:induction false} ParallelSumBySizes(ks: seq<Node>, ks': seq<Node>, a: Axis, n: nat)
    requires n <= |ks| == |ks'|
    requires forall i :: 0 <= i < |ks| ==> SizeOf(ks[i], a) == SizeOf(ks'[i], a) && Outer(ks[i], a) == Outer(ks'[i], a)
    ensures ParallelSum(ks, a, n) == ParallelSum(ks', a, n)
  {
    if n > 0 {
      ParallelSumBySizes(ks, ks', a, n - 1);
    }
  }

  method CalcTotalSizeParallelChildren(w: Node, a: Axis) returns (totalChildrenSize: real)
    requires w.Frame?
    ensures totalChildrenSize == ParallelTotal(w.childList, a)
  {
    var kids := w.childList;
    totalChildrenSize := 0.0;
    var numChildren := |kids|;
    for i := 0 to numChildren
      invariant totalChildrenSize == ParallelSum(kids, a, i)
    {
      var child := kids[i];
      totalChildrenSize := totalChildrenSize + child.axes.At(a).size;
      if i < 1 || i >= numChildren - 1 {
        totalChildrenSize := totalChildrenSize + child.axes.At(a).outerBuffer / 2.0;
      } else {
        totalChildrenSize := totalChildrenSize + child.axes.At(a).outerBuffer;
      }
    }
  }

  // ---- The largest child size, as the cross-axis loop of calcTotalSizeChildren finds it.

  function MaxSize(ks: seq<Node>, a: Axis, n: nat): real
    requires n <= |ks|
  {
    if n == 0 then 0.0
    else
      var m := MaxSize(ks, a, n - 1);
      if m < SizeOf(ks[n - 1], a) then SizeOf(ks[n - 1], a) else m
  }

  /** The loop's result is the largest size, or 0.0 when every size is
      negative or there are no children. */
  lemma {:induction false} MaxSizeIsMax(ks: seq<Node>, a: Axis, n: nat)
    requires n <= |ks|
    ensures MaxSize(ks, a, n) >= 0.0
    ensures forall i :: 0 <= i < n ==> SizeOf(ks[i], a) <= MaxSize(ks, a, n)
    ensures MaxSize(ks, a, n) == 0.0 || exists i :: 0 <= i < n && SizeOf(ks[i], a) == MaxSize(ks, a, n)
  {
    if n > 0 {
      MaxSizeIsMax(ks, a, n - 1);
    }
  }

  lemma {:induction false} MaxSizeBySizes(ks: seq<Node>, ks': seq<Node>, a: Axis, n: nat)
    requires n <= |ks| == |ks'|
    requires forall i :: 0 <= i < |ks| ==> SizeOf(ks[i], a) == SizeOf(ks'[i], a)
    ensures MaxSize(ks, a, n) == MaxSize(ks', a, n)
  {
    if n > 0 {
      MaxSizeBySizes(ks, ks', a, n - 1);
    }
  }

  method MaxChildSize(w: Node, a: Axis) returns (minChildSize: real)
    requires w.Frame?
    ensures minChildSize == MaxSize(w.childList, a, |w.childList|)
  {
    var kids := w.childList;
    minChildSize := 0.0;
    for i := 0 to |kids|
      invariant minChildSize == MaxSize(kids, a, i)
    {
      if minChildSize < kids[i].axes.At(a).size {
        minChildSize := kids[i].axes.At(a).size;
      }
    }
  }
}
