/** Positioning (`Geometry._calcPositionsofChildren`): once every extent is
    fixed, each frame places its children relative to its own range according to
    its `childrenJustify`, then each child does the same for its children.
    Positions are computed in real arithmetic. */
module GeometryPosition {
  import opened Wrappers
  import opened GeometryTypes

  /** What the walk needs: sizes on the axis and a range on every widget. */
  predicate PositionReady(w: Widget, di: nat)
  {
    HasAxis(w, di) && AllRanged(w, di)
  }

  lemma KidsRangedOf(w: Widget, di: nat)
    requires w.Frame? && PositionReady(w, di)
    ensures KidsRanged(w.childList, di)
  {
    forall c | c in w.childList
      ensures di < |c.sizes| && c.sizes[di].range.Some?
    {
      var i :| 0 <= i < |w.childList| && w.childList[i] == c;
    }
  }

  /** Σ (extent + 2·outer) over a run of children. */
  function PackedLength(ks: seq<Widget>, di: nat): real
    requires KidsRanged(ks, di)
  {
    ExtentSum(ks, di) + OuterSum(ks, di)
  }

  /** The child moved to start at lo, keeping its extent on axis di. */
  function PlaceAt(c: Widget, di: nat, lo: real): (r: Widget)
    requires Ranged(c, di)
    ensures Ranged(r, di) && r.sizes[di].range == Some(Range(lo, lo + Extent(c, di)))
    ensures Extent(r, di) == Extent(c, di)
    ensures r.sizes[di] == c.sizes[di].(range := r.sizes[di].range)
    ensures NodeCount(r) == NodeCount(c)
  {
    WithSize(c, di, c.sizes[di].(range := Some(Range(lo, lo + Extent(c, di)))))
  }

  /** Where child i starts when the run is packed forward from x0 with an
      extra gap g between neighbours: every earlier child takes its extent,
      both its outer buffers and g, and child i then skips its own outer
      buffer. */
  function ForwardLo(ks: seq<Widget>, di: nat, x0: real, g: real, i: nat): real
    requires KidsRanged(ks, di) && i < |ks|
  {
    Cursor(ks, di, x0, g, i) + Outer(ks[i], di)
  }

  /** Where the forward packing stands once the first i children are placed:
      x0, past their packed length and i gaps g. */
  function Cursor(ks: seq<Widget>, di: nat, x0: real, g: real, i: nat): real
    requires KidsRanged(ks, di) && i <= |ks|
  {
    assert forall k :: k in ks[..i] ==> k in ks;
    x0 + PackedLength(ks[..i], di) + Spacing(i, g)
  }

  /** The forward packing that starts at BackwardStart(xs) stands at xs once
      every child is placed. */
  lemma CursorAtEnd(ks: seq<Widget>, di: nat, xs: real)
    requires KidsRanged(ks, di)
    ensures Cursor(ks, di, BackwardStart(ks, di, xs), 0.0, |ks|) == xs
  {
    assert ks[..|ks|] == ks;
    SpacingZero(|ks|);
  }

  /** Placing child i moves the cursor past the child, both its outer
      buffers and one gap g. */
  lemma CursorStep(ks: seq<Widget>, di: nat, x0: real, g: real, i: nat)
    requires KidsRanged(ks, di) && i < |ks|
    ensures Cursor(ks, di, x0, g, i + 1) == ForwardLo(ks, di, x0, g, i) + Extent(ks[i], di) + Outer(ks[i], di) + g
  {
    PackStep(ks, di, i, g);
  }

  /** The run of children packed forward from x0. */
  function PackForward(ks: seq<Widget>, di: nat, x0: real, g: real): (r: seq<Widget>)
    requires KidsRanged(ks, di)
    ensures |r| == |ks|
    ensures forall i :: 0 <= i < |ks| ==> r[i] == PlaceAt(ks[i], di, ForwardLo(ks, di, x0, g, i))
  {
    seq(|ks|, i requires 0 <= i < |ks| => PlaceAt(ks[i], di, ForwardLo(ks, di, x0, g, i)))
  }

  function Lo(w: Widget, di: nat): real
    requires Ranged(w, di)
  {
    w.sizes[di].range.value.lo
  }

  function Hi(w: Widget, di: nat): real
    requires Ranged(w, di)
  {
    w.sizes[di].range.value.hi
  }

  function JustifyOf(w: Widget, di: nat): Justify
    requires di < |w.sizes|
  {
    w.sizes[di].childrenJustify
  }

  /** Along the sequence axis, the extra gap between neighbours: only a
      `spread` frame with two or more children has one, which shares out
      what the interior leaves beyond the packed span. */
  function ParallelGap(w: Widget, di: nat): real
    requires w.Frame? && |w.childList| > 0 && PositionReady(w, di)
  {
    KidsRangedOf(w, di);
    var n := |w.childList|;
    if JustifyOf(w, di) == Spread && n > 1
    then (Extent(w, di) - 2.0 * Inner(w, di) - ParallelSpan(w.childList, di)) / (n - 1) as real
    else 0.0
  }

  /** Along the sequence axis, the x0 the forward packing starts from. For
      `toHighest` the source packs backward from hi - inner; the x0 given
      here is where that backward packing ends. */
  function ParallelStart(w: Widget, di: nat): real
    requires w.Frame? && |w.childList| > 0 && PositionReady(w, di)
  {
    KidsRangedOf(w, di);
    var kids := w.childList;
    var first := Outer(kids[0], di);
    match JustifyOf(w, di)
    case ToLowest => Lo(w, di) + Inner(w, di) - first
    case ToHighest => BackwardStart(kids, di, Hi(w, di) - Inner(w, di) + Outer(kids[|kids| - 1], di))
    case Centre => CentredStart(kids, di, Lo(w, di), Hi(w, di), ParallelSpan(kids, di))
    case Spread =>
      if |kids| == 1 then CentredStart(kids, di, Lo(w, di), Hi(w, di), ParallelSpan(kids, di))
      else Lo(w, di) + Inner(w, di) - first
  }

  /** The start of a run of total span `total` centred on the midpoint of
      [lo, hi]. */
  function CentredStart(kids: seq<Widget>, di: nat, lo: real, hi: real, total: real): real
    requires |kids| > 0 && KidsRanged(kids, di)
  {
    0.5 * (hi + lo) - 0.5 * total - Outer(kids[0], di)
  }

  /** The start of the forward packing of the run that ends at xs. */
  function BackwardStart(kids: seq<Widget>, di: nat, xs: real): real
    requires KidsRanged(kids, di)
  {
    xs - PackedLength(kids, di)
  }

  /** Across the sequence axis, where a child of extent `delta` starts. */
  function CrossLo(w: Widget, di: nat, delta: real): real
    requires PositionReady(w, di)
  {
    match JustifyOf(w, di)
    case ToLowest => Lo(w, di) + Inner(w, di)
    case ToHighest => Hi(w, di) - Inner(w, di) - delta
    case Centre => 0.5 * (Hi(w, di) + Lo(w, di)) - 0.5 * delta
    case Spread => 0.5 * (Hi(w, di) + Lo(w, di)) - 0.5 * delta
  }

  function CrossPlace(w: Widget, di: nat): (r: seq<Widget>)
    requires w.Frame? && PositionReady(w, di)
    ensures |r| == |w.childList|
    ensures forall i :: 0 <= i < |r| ==>
      r[i] == PlaceAt(w.childList[i], di, CrossLo(w, di, Extent(w.childList[i], di)))
  {
    var kids := w.childList;
    seq(|kids|, i requires 0 <= i < |kids| => PlaceAt(kids[i], di, CrossLo(w, di, Extent(kids[i], di))))
  }

  /** The children of one frame placed relative to its range. */
  function LevelPlaced(w: Widget, di: nat): (r: seq<Widget>)
    requires w.Frame? && |w.childList| > 0 && PositionReady(w, di)
    ensures |r| == |w.childList|
    ensures forall i :: 0 <= i < |r| ==> Ranged(r[i], di) && Extent(r[i], di) == Extent(w.childList[i], di)
  {
    KidsRangedOf(w, di);
    if w.childSequenceDir == di then PackForward(w.childList, di, ParallelStart(w, di), ParallelGap(w, di))
    else CrossPlace(w, di)
  }

  /** Each placed child keeps its extent, its sizes on the other axes, and
      everything below it; only where it starts changes. */
  lemma LevelPlacedKeeps(w: Widget, di: nat)
    requires w.Frame? && |w.childList| > 0 && PositionReady(w, di)
    ensures forall i :: 0 <= i < |w.childList| ==>
      && LevelPlaced(w, di)[i] == PlaceAt(w.childList[i], di, Lo(LevelPlaced(w, di)[i], di))
      && PositionReady(LevelPlaced(w, di)[i], di)
      && NodeCount(LevelPlaced(w, di)[i]) == NodeCount(w.childList[i])
  {
    var r := LevelPlaced(w, di);
    forall i | 0 <= i < |w.childList|
      ensures r[i] == PlaceAt(w.childList[i], di, Lo(r[i], di))
      ensures PositionReady(r[i], di)
    {
      var c := w.childList[i];
      assert PositionReady(c, di);
    }
  }

  /** `_calcPositionsofChildren` on axis di. The widget's own range is not
      changed; it has already been placed by its parent. */
  function Positioned(w: Widget, di: nat): (r: Widget)
    requires PositionReady(w, di)
    ensures r.sizes == w.sizes && r.Frame? == w.Frame? && r.name == w.name
    ensures w.Frame? ==> |r.childList| == |w.childList| && r.childSequenceDir == w.childSequenceDir
    ensures w.Frame? && |w.childList| > 0 ==>
      forall i :: 0 <= i < |w.childList| ==> r.childList[i].sizes == LevelPlaced(w, di)[i].sizes
    decreases NodeCount(w), 1
  {
    if w.Leaf? || |w.childList| == 0 then w
    else
      var ks := LevelPlaced(w, di);
      LevelPlacedKeeps(w, di);
      w.(childList := PositionKids(w, ks, di))
  }

  function PositionKids(w: Widget, ks: seq<Widget>, di: nat): (r: seq<Widget>)
    requires w.Frame? && |ks| == |w.childList|
    requires forall i :: 0 <= i < |ks| ==> PositionReady(ks[i], di) && NodeCount(ks[i]) == NodeCount(w.childList[i])
    ensures |r| == |ks|
    ensures forall i :: 0 <= i < |ks| ==> r[i] == Positioned(ks[i], di)
    decreases NodeCount(w), 0
  {
    seq(|ks|, i requires 0 <= i < |ks| => Positioned(ks[i], di))
  }

  // ---- What the walk keeps.

  /** `b` is `a` with every range on axis di moved but no extent changed, and
      nothing else on axis di touched. */
  predicate Moved(a: Widget, b: Widget, di: nat)
  {
    && Ranged(a, di) && Ranged(b, di)
    && a.sizes[di].(range := b.sizes[di].range) == b.sizes[di]
    && Extent(a, di) == Extent(b, di)
    && a.Frame? == b.Frame?
    && (a.Frame? ==>
         && |a.childList| == |b.childList|
         && forall i :: 0 <= i < |a.childList| ==> Moved(a.childList[i], b.childList[i], di))
  }

  lemma {:induction false} MovedRefl(w: Widget, di: nat)
    requires PositionReady(w, di)
    ensures Moved(w, w, di)
    decreases w
  {
    if w.Frame? {
      forall i | 0 <= i < |w.childList| {
        MovedRefl(w.childList[i], di);
      }
    }
  }

  lemma {:induction false} MovedTrans(a: Widget, b: Widget, c: Widget, di: nat)
    requires Moved(a, b, di) && Moved(b, c, di)
    ensures Moved(a, c, di)
    decreases a
  {
    if a.Frame? {
      forall i | 0 <= i < |a.childList| {
        MovedTrans(a.childList[i], b.childList[i], c.childList[i], di);
      }
    }
  }

  /** Placing a child moves it and nothing below it. */
  lemma PlaceAtMoves(c: Widget, di: nat, lo: real)
    requires PositionReady(c, di)
    ensures PositionReady(PlaceAt(c, di, lo), di)
    ensures Moved(c, PlaceAt(c, di, lo), di) && SameExceptAxis(c, PlaceAt(c, di, lo), di)
  {
    var r := PlaceAt(c, di, lo);
    if c.Frame? {
      forall i | 0 <= i < |c.childList|
        ensures Moved(c.childList[i], r.childList[i], di) && SameExceptAxis(c.childList[i], r.childList[i], di)
      {
        MovedRefl(c.childList[i], di);
        SameExceptAxisRefl(c.childList[i], di);
      }
    }
  }

  /** The walk keeps every range, moves widgets without resizing them, and
      changes nothing off axis di. */
  lemma {:induction false} PositionedKeeps(w: Widget, di: nat)
    requires PositionReady(w, di)
    ensures PositionReady(Positioned(w, di), di)
    ensures Moved(w, Positioned(w, di), di) && SameExceptAxis(w, Positioned(w, di), di)
    decreases NodeCount(w), 1
  {
    if w.Frame? && |w.childList| > 0 {
      var m := Positioned(w, di).childList;
      forall i | 0 <= i < |w.childList|
        ensures PositionReady(m[i], di) && Moved(w.childList[i], m[i], di)
        ensures SameExceptAxis(w.childList[i], m[i], di)
      {
        PositionedKidKeeps(w, di, i);
      }
      assert PositionReady(w.(childList := m), di);
    } else {
      MovedRefl(w, di);
      SameExceptAxisRefl(w, di);
    }
  }

  lemma {:induction false} PositionedKidKeeps(w: Widget, di: nat, i: nat)
    requires w.Frame? && |w.childList| > 0 && PositionReady(w, di) && i < |w.childList|
    ensures PositionReady(Positioned(w, di).childList[i], di)
    ensures Moved(w.childList[i], Positioned(w, di).childList[i], di)
    ensures SameExceptAxis(w.childList[i], Positioned(w, di).childList[i], di)
    decreases NodeCount(w), 0
  {
    var ks := LevelPlaced(w, di);
    LevelPlacedKeeps(w, di);
    var c := w.childList[i];
    assert PositionReady(c, di);
    PlaceAtMoves(c, di, Lo(ks[i], di));
    assert Positioned(w, di).childList[i] == Positioned(ks[i], di);
    PositionedKeeps(ks[i], di);
    MovedTrans(c, ks[i], Positioned(ks[i], di), di);
    SameExceptAxisTrans(c, ks[i], Positioned(ks[i], di), di);
  }

  // ---- Where the children go.

  /** In a forward packing, the gap between neighbours is their two outer
      buffers plus g; the first child starts one outer buffer past x0; and
      the last one ends the packed span plus (n - 1)·g further on. */
  lemma PackForwardShape(ks: seq<Widget>, di: nat, x0: real, g: real)
    requires |ks| > 0 && KidsRanged(ks, di)
    ensures var r := PackForward(ks, di, x0, g);
      && KidsRanged(r, di)
      && Lo(r[0], di) == x0 + Outer(ks[0], di)
      && Hi(r[|r| - 1], di) == x0 + Outer(ks[0], di) + ParallelSpan(ks, di) + Spacing(|ks| - 1, g)
      && forall i :: 0 <= i < |ks| - 1 ==>
           Lo(r[i + 1], di) - Hi(r[i], di) == Outer(ks[i], di) + Outer(ks[i + 1], di) + g
  {
    var r := PackForward(ks, di, x0, g);
    var n := |ks|;
    assert KidsRanged(r, di) by {
      forall k | k in r
        ensures di < |k.sizes| && k.sizes[di].range.Some?
      {
        var i :| 0 <= i < n && r[i] == k;
      }
    }
    assert ks[..0] == [];
    forall i | 0 <= i < n - 1
      ensures Lo(r[i + 1], di) - Hi(r[i], di) == Outer(ks[i], di) + Outer(ks[i + 1], di) + g
    {
      PackGap(ks, di, x0, g, i);
    }
    PackLast(ks, di, x0, g);
  }

  lemma PackGap(ks: seq<Widget>, di: nat, x0: real, g: real, i: nat)
    requires KidsRanged(ks, di) && i + 1 < |ks|
    ensures ForwardLo(ks, di, x0, g, i + 1) - (ForwardLo(ks, di, x0, g, i) + Extent(ks[i], di))
            == Outer(ks[i], di) + Outer(ks[i + 1], di) + g
  {
    PackStep(ks, di, i, g);
    var c := Spacing(i, g);
    var c' := Spacing(i + 1, g);
    assert ForwardLo(ks, di, x0, g, i) == x0 + PackedLength(ks[..i], di) + c + Outer(ks[i], di);
    assert ForwardLo(ks, di, x0, g, i + 1) == x0 + PackedLength(ks[..i + 1], di) + c' + Outer(ks[i + 1], di);
  }

  lemma PackFirst(ks: seq<Widget>, di: nat, x0: real, g: real)
    requires |ks| > 0 && KidsRanged(ks, di)
    ensures Lo(PackForward(ks, di, x0, g)[0], di) == x0 + Outer(ks[0], di)
  {
    assert ks[..0] == [];
  }

  lemma PackLastNoGap(ks: seq<Widget>, di: nat, x0: real)
    requires |ks| > 0 && KidsRanged(ks, di)
    ensures Hi(PackForward(ks, di, x0, 0.0)[|ks| - 1], di) == x0 + Outer(ks[0], di) + ParallelSpan(ks, di)
  {
    SpacingZero(|ks| - 1);
    PackLastAt(ks, di, x0, 0.0, 0.0);
  }

  /** With a gap that shares out `avail` beyond the packed span, the last
      child ends `avail` past where the first one starts. */
  lemma PackSpread(ks: seq<Widget>, di: nat, x0: real, g: real, avail: real)
    requires |ks| > 1 && KidsRanged(ks, di)
    requires Spacing(|ks| - 1, g) == avail - ParallelSpan(ks, di)
    ensures Hi(PackForward(ks, di, x0, g)[|ks| - 1], di) == x0 + Outer(ks[0], di) + avail
  {
    PackLastAt(ks, di, x0, g, avail - ParallelSpan(ks, di));
  }

  lemma PackLastAt(ks: seq<Widget>, di: nat, x0: real, g: real, spacing: real)
    requires |ks| > 0 && KidsRanged(ks, di) && spacing == Spacing(|ks| - 1, g)
    ensures Hi(PackForward(ks, di, x0, g)[|ks| - 1], di) == x0 + Outer(ks[0], di) + ParallelSpan(ks, di) + spacing
  {
    PackLast(ks, di, x0, g);
  }

  lemma PackLast(ks: seq<Widget>, di: nat, x0: real, g: real)
    requires |ks| > 0 && KidsRanged(ks, di)
    ensures ForwardLo(ks, di, x0, g, |ks| - 1) + Extent(ks[|ks| - 1], di)
            == x0 + Outer(ks[0], di) + ParallelSpan(ks, di) + Spacing(|ks| - 1, g)
  {
    var n := |ks|;
    PackStep(ks, di, n - 1, g);
    assert ks[..n] == ks;
  }

  /** One step of the forward sum. */
  lemma PackStep(ks: seq<Widget>, di: nat, i: nat, g: real)
    requires KidsRanged(ks, di) && i < |ks|
    ensures KidsRanged(ks[..i], di) && KidsRanged(ks[..i + 1], di)
    ensures PackedLength(ks[..i + 1], di) == PackedLength(ks[..i], di) + Extent(ks[i], di) + 2.0 * Outer(ks[i], di)
    ensures Spacing(i + 1, g) == Spacing(i, g) + g
  {
    assert forall k :: k in ks[..i + 1] ==> k in ks;
    assert ks[..i + 1][..i] == ks[..i];
  }

  /** Σ (extent + 2·outer) of the children less the first and last outer
      buffers: the length the children take up when packed with no extra gap. */
  function LevelSpan(w: Widget, di: nat): real
    requires w.Frame? && |w.childList| > 0 && PositionReady(w, di)
  {
    KidsRangedOf(w, di);
    ParallelSpan(w.childList, di)
  }

  /** The placement along the sequence axis, justify by justify: neighbours
      are always their two outer buffers (plus the spread gap) apart;
      `toLowest` starts at lo + inner, `toHighest` ends at hi - inner,
      `centre` (and `spread` with a single child) centres the packed span on
      the midpoint, and `spread` with two or more children runs from
      lo + inner to hi - inner. */
  lemma ParallelJustified(w: Widget, di: nat)
    requires w.Frame? && |w.childList| > 0 && PositionReady(w, di) && w.childSequenceDir == di
    ensures var p := Positioned(w, di).childList;
      var n := |p|;
      var kids := w.childList;
      var t := LevelSpan(w, di);
      var j := JustifyOf(w, di);
      && (forall i :: 0 <= i < n - 1 ==>
            Lo(p[i + 1], di) - Hi(p[i], di) == Outer(kids[i], di) + Outer(kids[i + 1], di) + ParallelGap(w, di))
      && (j == Spread && n > 1 ==>
            ParallelGap(w, di) == (Extent(w, di) - 2.0 * Inner(w, di) - t) / (n - 1) as real)
      && (!(j == Spread && n > 1) ==> ParallelGap(w, di) == 0.0)
      && (j == ToLowest ==>
            Lo(p[0], di) == Lo(w, di) + Inner(w, di) && Hi(p[n - 1], di) == Lo(w, di) + Inner(w, di) + t)
      && (j == ToHighest ==>
            Hi(p[n - 1], di) == Hi(w, di) - Inner(w, di) && Lo(p[0], di) == Hi(w, di) - Inner(w, di) - t)
      && (j == Centre || (j == Spread && n == 1) ==>
            Lo(p[0], di) == 0.5 * (Hi(w, di) + Lo(w, di)) - 0.5 * t &&
            Hi(p[n - 1], di) == 0.5 * (Hi(w, di) + Lo(w, di)) + 0.5 * t)
      && (j == Spread && n > 1 ==>
            Lo(p[0], di) == Lo(w, di) + Inner(w, di) && Hi(p[n - 1], di) == Hi(w, di) - Inner(w, di))
  {
    ParallelPlaced(w, di);
  }

  /** The same placement, stated on the level step. */
  lemma ParallelPlaced(w: Widget, di: nat)
    requires w.Frame? && |w.childList| > 0 && PositionReady(w, di) && w.childSequenceDir == di
    ensures var p := LevelPlaced(w, di);
      var n := |p|;
      var kids := w.childList;
      var t := LevelSpan(w, di);
      var j := JustifyOf(w, di);
      && (forall i :: 0 <= i < n - 1 ==>
            Lo(p[i + 1], di) - Hi(p[i], di) == Outer(kids[i], di) + Outer(kids[i + 1], di) + ParallelGap(w, di))
      && (j == Spread && n > 1 ==>
            ParallelGap(w, di) == (Extent(w, di) - 2.0 * Inner(w, di) - t) / (n - 1) as real)
      && (!(j == Spread && n > 1) ==> ParallelGap(w, di) == 0.0)
      && (j == ToLowest ==>
            Lo(p[0], di) == Lo(w, di) + Inner(w, di) && Hi(p[n - 1], di) == Lo(w, di) + Inner(w, di) + t)
      && (j == ToHighest ==>
            Hi(p[n - 1], di) == Hi(w, di) - Inner(w, di) && Lo(p[0], di) == Hi(w, di) - Inner(w, di) - t)
      && (j == Centre || (j == Spread && n == 1) ==>
            Lo(p[0], di) == 0.5 * (Hi(w, di) + Lo(w, di)) - 0.5 * t &&
            Hi(p[n - 1], di) == 0.5 * (Hi(w, di) + Lo(w, di)) + 0.5 * t)
      && (j == Spread && n > 1 ==>
            Lo(p[0], di) == Lo(w, di) + Inner(w, di) && Hi(p[n - 1], di) == Hi(w, di) - Inner(w, di))
  {
    var n := |w.childList|;
    PlacedGaps(w, di);
    if JustifyOf(w, di) == Spread && n > 1 {
      PlacedSpread(w, di);
      SpreadGapValue(w, di);
    } else {
      PlacedNoGap(w, di);
    }
  }

  /** The first child starts one outer buffer past the start; with no extra
      gap the last one ends the packed span further on. */
  lemma PlacedNoGapEnds(w: Widget, di: nat)
    requires w.Frame? && |w.childList| > 0 && PositionReady(w, di) && w.childSequenceDir == di
    requires ParallelGap(w, di) == 0.0
    ensures var p := LevelPlaced(w, di);
      && Lo(p[0], di) == ParallelStart(w, di) + Outer(w.childList[0], di)
      && Hi(p[|p| - 1], di) == Lo(p[0], di) + LevelSpan(w, di)
  {
    KidsRangedOf(w, di);
    PackFirst(w.childList, di, ParallelStart(w, di), 0.0);
    PackLastNoGap(w.childList, di, ParallelStart(w, di));
  }

  lemma PlacedGaps(w: Widget, di: nat)
    requires w.Frame? && |w.childList| > 0 && PositionReady(w, di) && w.childSequenceDir == di
    ensures var p := LevelPlaced(w, di);
      forall i :: 0 <= i < |p| - 1 ==>
        Lo(p[i + 1], di) - Hi(p[i], di) == Outer(w.childList[i], di) + Outer(w.childList[i + 1], di) + ParallelGap(w, di)
  {
    KidsRangedOf(w, di);
    var kids := w.childList;
    var p := LevelPlaced(w, di);
    forall i | 0 <= i < |p| - 1
      ensures Lo(p[i + 1], di) - Hi(p[i], di) == Outer(kids[i], di) + Outer(kids[i + 1], di) + ParallelGap(w, di)
    {
      PackGap(kids, di, ParallelStart(w, di), ParallelGap(w, di), i);
    }
  }

  lemma PlacedNoGap(w: Widget, di: nat)
    requires w.Frame? && |w.childList| > 0 && PositionReady(w, di) && w.childSequenceDir == di
    requires !(JustifyOf(w, di) == Spread && |w.childList| > 1)
    ensures var p := LevelPlaced(w, di);
      var t := LevelSpan(w, di);
      var j := JustifyOf(w, di);
      && ParallelGap(w, di) == 0.0
      && (j == ToLowest ==>
            Lo(p[0], di) == Lo(w, di) + Inner(w, di) && Hi(p[|p| - 1], di) == Lo(w, di) + Inner(w, di) + t)
      && (j == ToHighest ==>
            Hi(p[|p| - 1], di) == Hi(w, di) - Inner(w, di) && Lo(p[0], di) == Hi(w, di) - Inner(w, di) - t)
      && (j == Centre || j == Spread ==>
            Lo(p[0], di) == 0.5 * (Hi(w, di) + Lo(w, di)) - 0.5 * t &&
            Hi(p[|p| - 1], di) == 0.5 * (Hi(w, di) + Lo(w, di)) + 0.5 * t)
  {
    KidsRangedOf(w, di);
    PlacedNoGapEnds(w, di);
  }

  lemma PlacedSpread(w: Widget, di: nat)
    requires w.Frame? && |w.childList| > 0 && PositionReady(w, di) && w.childSequenceDir == di
    requires JustifyOf(w, di) == Spread && |w.childList| > 1
    ensures var p := LevelPlaced(w, di);
      Lo(p[0], di) == Lo(w, di) + Inner(w, di) && Hi(p[|p| - 1], di) == Hi(w, di) - Inner(w, di)
  {
    var kids := w.childList;
    var x0 := ParallelStart(w, di);
    var g := ParallelGap(w, di);
    KidsRangedOf(w, di);
    assert x0 + Outer(kids[0], di) == Lo(w, di) + Inner(w, di);
    SpreadGapShares(w, di);
    PlacedSpreadEnds(kids, di, x0, g, Extent(w, di) - 2.0 * Inner(w, di));
    assert LevelPlaced(w, di) == PackForward(kids, di, x0, g);
  }

  /** The spread gap: the room left inside the frame over one fewer gap
      than there are children. */
  lemma SpreadGapValue(w: Widget, di: nat)
    requires w.Frame? && |w.childList| > 1 && PositionReady(w, di) && JustifyOf(w, di) == Spread
    ensures ParallelGap(w, di) == (Extent(w, di) - 2.0 * Inner(w, di) - LevelSpan(w, di)) / (|w.childList| - 1) as real
  {
  }

  lemma PlacedSpreadEnds(ks: seq<Widget>, di: nat, x0: real, g: real, avail: real)
    requires |ks| > 1 && KidsRanged(ks, di)
    requires Spacing(|ks| - 1, g) == avail - ParallelSpan(ks, di)
    ensures Lo(PackForward(ks, di, x0, g)[0], di) == x0 + Outer(ks[0], di)
    ensures Hi(PackForward(ks, di, x0, g)[|ks| - 1], di) == x0 + Outer(ks[0], di) + avail
  {
    PackFirst(ks, di, x0, g);
    PackSpread(ks, di, x0, g, avail);
  }

  lemma SpreadGapShares(w: Widget, di: nat)
    requires w.Frame? && |w.childList| > 1 && PositionReady(w, di) && JustifyOf(w, di) == Spread
    ensures KidsRanged(w.childList, di)
    ensures Spacing(|w.childList| - 1, ParallelGap(w, di)) == Extent(w, di) - 2.0 * Inner(w, di) - LevelSpan(w, di)
  {
    KidsRangedOf(w, di);
    SharedGap(Extent(w, di) - 2.0 * Inner(w, di) - LevelSpan(w, di), |w.childList| - 1);
  }

  /** Across the sequence axis every child gets the same treatment:
      `toLowest` starts it at lo + inner, `toHighest` ends it at hi - inner,
      and `centre` or `spread` centres it on the parent's midpoint. */
  lemma CrossJustified(w: Widget, di: nat)
    requires w.Frame? && |w.childList| > 0 && PositionReady(w, di) && w.childSequenceDir != di
    ensures var p := Positioned(w, di).childList;
      var j := JustifyOf(w, di);
      forall i :: 0 <= i < |p| ==>
        && (j == ToLowest ==> Lo(p[i], di) == Lo(w, di) + Inner(w, di))
        && (j == ToHighest ==> Hi(p[i], di) == Hi(w, di) - Inner(w, di))
        && (j == Centre || j == Spread ==> Lo(p[i], di) + Hi(p[i], di) == Hi(w, di) + Lo(w, di))
  {
  }

  // ---- The source's loops.

  /** `_calcPositionsofChildren` on axis di, with the source's loops. */
  method PositionChildren(w: Widget, di: nat) returns (r: Widget)
    requires PositionReady(w, di)
    ensures r == Positioned(w, di)
    decreases NodeCount(w), 1
  {
    if w.Leaf? || |w.childList| == 0 {
      return w;
    }
    var ks := PlaceLevel(w, di);
    LevelPlacedKeeps(w, di);
    var kids := PositionKidsInOrder(w, ks, di);
    return w.(childList := kids);
  }

  /** The recursive calls, child by child. */
  method PositionKidsInOrder(w: Widget, ks: seq<Widget>, di: nat) returns (r: seq<Widget>)
    requires w.Frame? && |ks| == |w.childList|
    requires forall i :: 0 <= i < |ks| ==> PositionReady(ks[i], di) && NodeCount(ks[i]) == NodeCount(w.childList[i])
    ensures r == PositionKids(w, ks, di)
    decreases NodeCount(w), 0
  {
    r := ks;
    var i := 0;
    while i < |ks|
      invariant 0 <= i <= |ks| && |r| == |ks|
      invariant forall j :: 0 <= j < i ==> r[j] == Positioned(ks[j], di)
    {
      var c := PositionChildren(ks[i], di);
      r := r[i := c];
      i := i + 1;
    }
  }

  /** The placement of one frame's children, dispatched on the sequence axis
      and the justify as the source does. */
  method PlaceLevel(w: Widget, di: nat) returns (ks: seq<Widget>)
    requires w.Frame? && |w.childList| > 0 && PositionReady(w, di)
    ensures ks == LevelPlaced(w, di)
  {
    KidsRangedOf(w, di);
    var kids := w.childList;
    var numChildren := |kids|;
    var size := w.sizes[di];
    var lo, hi := size.range.value.lo, size.range.value.hi;
    var inner := size.innerBuffer.value;
    if w.childSequenceDir != di {
      ks := CrossPlaceLoop(w, di);
      return;
    }
    ghost var x0, g := ParallelStart(w, di), ParallelGap(w, di);
    assert LevelPlaced(w, di) == PackForward(kids, di, x0, g);
    match size.childrenJustify
    case ToLowest =>
      var x := lo + inner - kids[0].sizes[di].outerBuffer.value;
      assert x == x0 && g == 0.0;
      ks := PackLoop(kids, di, x, 0.0);
    case ToHighest =>
      var x := hi - inner + kids[numChildren - 1].sizes[di].outerBuffer.value;
      assert BackwardStart(kids, di, x) == x0 && g == 0.0;
      ks := PackBackwardLoop(kids, di, x);
    case Centre =>
      var totalWidthChildren := TotalWidthChildren(kids, di);
      assert CentredStart(kids, di, lo, hi, totalWidthChildren) == x0 && g == 0.0;
      ks := PackCentred(kids, di, lo, hi, totalWidthChildren);
    case Spread =>
      var totalWidthChildren := TotalWidthChildren(kids, di);
      if numChildren == 1 {
        assert CentredStart(kids, di, lo, hi, totalWidthChildren) == x0 && g == 0.0;
        ks := PackCentred(kids, di, lo, hi, totalWidthChildren);
      } else {
        var availableSpace := hi - lo;
        availableSpace := availableSpace - 2.0 * inner;
        var addedSpaceBetweenChildren := (availableSpace - totalWidthChildren) / (numChildren - 1) as real;
        var x := lo + inner - kids[0].sizes[di].outerBuffer.value;
        assert x == x0 && addedSpaceBetweenChildren == g;
        ks := PackLoop(kids, di, x, addedSpaceBetweenChildren);
      }
  }

  /** The centred packing: the span is centred on the midpoint of [lo, hi]. */
  method PackCentred(kids: seq<Widget>, di: nat, lo: real, hi: real, total: real) returns (ks: seq<Widget>)
    requires |kids| > 0 && KidsRanged(kids, di)
    ensures ks == PackForward(kids, di, CentredStart(kids, di, lo, hi, total), 0.0)
  {
    var x := 0.5 * (hi + lo);
    x := x - 0.5 * total;
    x := x - kids[0].sizes[di].outerBuffer.value;
    assert x == CentredStart(kids, di, lo, hi, total);
    ks := PackLoop(kids, di, x, 0.0);
  }

  /** Σ (extent + 2·outer) over the children, less the first and last outer
      buffers. */
  method TotalWidthChildren(kids: seq<Widget>, di: nat) returns (total: real)
    requires |kids| > 0 && KidsRanged(kids, di)
    ensures total == ParallelSpan(kids, di)
  {
    total := 0.0;
    var i := 0;
    while i < |kids|
      invariant 0 <= i <= |kids|
      invariant KidsRanged(kids[..i], di)
      invariant total == ExtentSum(kids[..i], di) + OuterSum(kids[..i], di)
    {
      PackStep(kids, di, i, 0.0);
      total := total + Extent(kids[i], di);
      total := total + 2.0 * Outer(kids[i], di);
      i := i + 1;
    }
    assert kids[..i] == kids;
    total := total - kids[0].sizes[di].outerBuffer.value;
    total := total - kids[|kids| - 1].sizes[di].outerBuffer.value;
  }

  /** The forward loop of `toLowest`, `centre` and `spread`: x moves past each
      child's outer buffer, the child is placed at x, and x moves past the
      child, its outer buffer again and the gap g (0 except for `spread`). */
  method PackLoop(kids: seq<Widget>, di: nat, x0: real, g: real) returns (ks: seq<Widget>)
    requires KidsRanged(kids, di)
    ensures ks == PackForward(kids, di, x0, g)
  {
    ghost var target := PackForward(kids, di, x0, g);
    ks := kids;
    var x := x0;
    var i := 0;
    assert kids[..0] == [];
    while i < |kids|
      invariant 0 <= i <= |kids| && |ks| == |kids|
      invariant forall j :: 0 <= j < i ==> ks[j] == target[j]
      invariant x == Cursor(kids, di, x0, g, i)
    {
      var child := kids[i];
      assert child in kids;
      x := x + child.sizes[di].outerBuffer.value;
      assert x == ForwardLo(kids, di, x0, g, i);
      var delta := Extent(child, di);
      ghost var prev := ks;
      ks := ks[i := PlaceAt(child, di, x)];
      assert ks[i] == target[i];
      assert forall j :: 0 <= j < i ==> ks[j] == prev[j];
      CursorStep(kids, di, x0, g, i);
      x := x + delta;
      x := x + child.sizes[di].outerBuffer.value;
      x := x + g;
      i := i + 1;
    }
  }

  /** The backward loop of `toHighest`: from hi - inner plus the last outer
      buffer, each child from the last to the first is placed to end at x
      less its outer buffer. It produces the forward packing that ends there. */
  method PackBackwardLoop(kids: seq<Widget>, di: nat, xs: real) returns (ks: seq<Widget>)
    requires |kids| > 0 && KidsRanged(kids, di)
    ensures ks == PackForward(kids, di, BackwardStart(kids, di, xs), 0.0)
  {
    var numChildren := |kids|;
    ghost var x0 := BackwardStart(kids, di, xs);
    ghost var target := PackForward(kids, di, x0, 0.0);
    CursorAtEnd(kids, di, xs);
    ks := kids;
    var x := xs;
    var ci := 0;
    while ci < numChildren
      invariant 0 <= ci <= numChildren && |ks| == numChildren
      invariant forall j :: numChildren - ci <= j < numChildren ==> ks[j] == target[j]
      invariant x == Cursor(kids, di, x0, 0.0, numChildren - ci)
    {
      var idx := numChildren - 1 - ci;
      var child := kids[idx];
      assert child in kids;
      x := x - child.sizes[di].outerBuffer.value;
      var delta := Extent(child, di);
      var childLo := x - delta;
      BackwardStep(kids, di, x0, ks, idx, childLo);
      ks := ks[idx := PlaceAt(child, di, childLo)];
      x := x - delta;
      x := x - child.sizes[di].outerBuffer.value;
      ci := ci + 1;
    }
  }

  /** One step of the backward loop: placing child idx to end one outer
      buffer before the cursor puts it where the forward packing does, and
      leaves the cursor where the forward packing stands before it. */
  lemma BackwardStep(kids: seq<Widget>, di: nat, x0: real, ks: seq<Widget>, idx: nat, lo: real)
    requires KidsRanged(kids, di) && idx < |kids| == |ks|
    requires kids[idx] in kids
    requires lo + Extent(kids[idx], di) + Outer(kids[idx], di) == Cursor(kids, di, x0, 0.0, idx + 1)
    requires forall j :: idx < j < |kids| ==> ks[j] == PackForward(kids, di, x0, 0.0)[j]
    ensures lo - Outer(kids[idx], di) == Cursor(kids, di, x0, 0.0, idx)
    ensures forall j :: idx <= j < |kids| ==>
      ks[idx := PlaceAt(kids[idx], di, lo)][j] == PackForward(kids, di, x0, 0.0)[j]
  {
    CursorStep(kids, di, x0, 0.0, idx);
    assert lo == ForwardLo(kids, di, x0, 0.0, idx);
    assert PlaceAt(kids[idx], di, lo) == PackForward(kids, di, x0, 0.0)[idx];
  }

  /** The loops across the sequence axis. */
  method CrossPlaceLoop(w: Widget, di: nat) returns (ks: seq<Widget>)
    requires w.Frame? && PositionReady(w, di)
    ensures ks == CrossPlace(w, di)
  {
    var kids := w.childList;
    var size := w.sizes[di];
    var justify := size.childrenJustify;
    var x := match justify
      case ToLowest => size.range.value.lo + size.innerBuffer.value
      case ToHighest => size.range.value.hi - size.innerBuffer.value
      case _ => 0.5 * (size.range.value.hi + size.range.value.lo);
    ks := kids;
    var i := 0;
    while i < |kids|
      invariant 0 <= i <= |kids| && |ks| == |kids|
      invariant forall j :: 0 <= j < i ==> ks[j] == CrossPlace(w, di)[j]
    {
      var child := kids[i];
      var delta := Extent(child, di);
      var childLo := match justify
        case ToLowest => x
        case ToHighest => x - delta
        case _ => x - 0.5 * delta;
      ks := ks[i := PlaceAt(child, di, childLo)];
      i := i + 1;
    }
  }
}
