/** Pre-order expand resolution (`Geometry._expandChildren`): at each frame
    the free room is handed to the `expandToFit` children, which become
    `exact`, before the children are visited. An error stops the walk and
    leaves the tree as far as it got. */
module GeometryExpand {
  import opened Wrappers
  import opened GeometryTypes

  /** What holds once shrinking is done: sizes on the axis, ranges on exact
      widgets, no `shrinkToFit` left. */
  predicate ExpandReady(w: Widget, di: nat)
  {
    HasAxis(w, di) && ExactRanged(w, di) && NoShrink(w, di)
  }

  /** The tree as the walk leaves it, and whether it raised. */
  datatype Expansion = Expansion(tree: Widget, outcome: Outcome<LayoutError>)

  /** A, the room left along the sequence axis once the fixed children and
      every child's 2·outer are taken from the interior, with the first and
      last outer buffers given back. */
  function ExpandRoom(w: Widget, di: nat): real
    requires w.Frame? && |w.childList| > 0 && ExpandReady(w, di) && DemandOf(w, di) == Exact
  {
    var kids := w.childList;
    Interior(w, di) + Outer(kids[0], di) + Outer(kids[|kids| - 1], di)
      - FixedSum(kids, di) - OuterSum(kids, di)
  }

  /** A/k, the share of the room each of the k expanding children gets. */
  function Share(w: Widget, di: nat): real
    requires w.Frame? && |w.childList| > 0 && ExpandReady(w, di) && DemandOf(w, di) == Exact
    requires CountExpand(w.childList, di) > 0
  {
    ExpandRoom(w, di) / CountExpand(w.childList, di) as real
  }

  /** The expanding children's shares add back up to the room. */
  lemma ShareSumRoom(w: Widget, di: nat)
    requires w.Frame? && |w.childList| > 0 && ExpandReady(w, di) && DemandOf(w, di) == Exact
    requires CountExpand(w.childList, di) > 0
    ensures ShareSum(w.childList, di, Share(w, di)) == ExpandRoom(w, di)
  {
    ShareSumCount(w.childList, di, Share(w, di));
    SharedGap(ExpandRoom(w, di), CountExpand(w.childList, di));
  }

  /** The child made `exact` with range [0, e]. */
  function SetExact(c: Widget, di: nat, e: real): (r: Widget)
    requires di < |c.sizes|
    ensures |r.sizes| == |c.sizes| && DemandOf(r, di) == Exact && r.sizes[di].range == Some(Range(0.0, e))
  {
    WithSize(c, di, c.sizes[di].(spaceDemand := Exact, range := Some(Range(0.0, e))))
  }

  /** Every expanding child of the list made `exact` with extent e. */
  function Grant(ks: seq<Widget>, di: nat, e: real): (r: seq<Widget>)
    requires KidsHaveAxis(ks, di)
    ensures |r| == |ks|
    ensures forall i :: 0 <= i < |ks| ==>
      r[i] == (if DemandOf(ks[i], di) == ExpandToFit then SetExact(ks[i], di, e) else ks[i])
  {
    seq(|ks|, i requires 0 <= i < |ks| =>
      if DemandOf(ks[i], di) == ExpandToFit then SetExact(ks[i], di, e) else ks[i])
  }

  /** The level step at one exact frame: the children with the room granted,
      or the error raised when there is no room along the sequence axis. */
  function ResolveLevel(w: Widget, di: nat): (r: Result<seq<Widget>, LayoutError>)
    requires w.Frame? && |w.childList| > 0 && ExpandReady(w, di) && DemandOf(w, di) == Exact
    ensures r.Success? ==> |r.value| == |w.childList|
  {
    var kids := w.childList;
    var k := CountExpand(kids, di);
    if k == 0 then Success(kids)
    else if w.childSequenceDir == di then
      if ExpandRoom(w, di) <= 0.0 then Failure(NoSpaceToExpand(di, w.name))
      else Success(Grant(kids, di, Share(w, di)))
    else Success(Grant(kids, di, Interior(w, di)))
  }

  lemma SetExactReady(c: Widget, di: nat, e: real)
    requires ExpandReady(c, di)
    ensures ExpandReady(SetExact(c, di, e), di)
    ensures NodeCount(SetExact(c, di, e)) == NodeCount(c)
    ensures SameExceptAxis(c, SetExact(c, di, e), di)
  {
    var r := SetExact(c, di, e);
    if c.Frame? {
      forall i | 0 <= i < |c.childList| ensures SameExceptAxis(c.childList[i], r.childList[i], di) {
        SameExceptAxisRefl(c.childList[i], di);
      }
    }
  }

  /** After the level step every child is exact, still ready for the walk,
      of the same size as a tree, and otherwise unchanged. */
  lemma ResolveLevelReady(w: Widget, di: nat)
    requires w.Frame? && |w.childList| > 0 && ExpandReady(w, di) && DemandOf(w, di) == Exact
    requires ResolveLevel(w, di).Success?
    ensures var ks := ResolveLevel(w, di).value;
      && |ks| == |w.childList|
      && forall i :: 0 <= i < |ks| ==>
           && ExpandReady(ks[i], di) && DemandOf(ks[i], di) == Exact
           && NodeCount(ks[i]) == NodeCount(w.childList[i])
           && SameExceptAxis(w.childList[i], ks[i], di)
  {
    var kids := w.childList;
    var ks := ResolveLevel(w, di).value;
    forall i | 0 <= i < |kids|
      ensures ExpandReady(ks[i], di) && DemandOf(ks[i], di) == Exact
      ensures NodeCount(ks[i]) == NodeCount(kids[i]) && SameExceptAxis(kids[i], ks[i], di)
    {
      if ks[i] == kids[i] {
        SameExceptAxisRefl(kids[i], di);
      } else {
        var e :| ks[i] == SetExact(kids[i], di, e);
        SetExactReady(kids[i], di, e);
      }
    }
  }

  /** `_expandChildren` on axis di, for a widget its parent has made exact. */
  function Expanded(w: Widget, di: nat): (r: Expansion)
    requires ExpandReady(w, di) && DemandOf(w, di) == Exact
    ensures r.tree.sizes == w.sizes && r.tree.Frame? == w.Frame?
    ensures w.Frame? ==> |r.tree.childList| == |w.childList|
    decreases NodeCount(w), 1
  {
    if w.Leaf? || |w.childList| == 0 then Expansion(w, Pass)
    else
      match ResolveLevel(w, di)
      case Failure(e) => Expansion(w, Fail(e))
      case Success(ks) =>
        ResolveLevelReady(w, di);
        Assemble(w, ks, ExpandKids(w, ks, di))
  }

  /** The frame once the walk over its children stops: the children visited
      carry their results, and the first error, if any, is raised. */
  function Assemble(w: Widget, ks: seq<Widget>, rs: seq<Expansion>): (r: Expansion)
    requires w.Frame? && |rs| == |ks|
    ensures r.tree.Frame? && r.tree.sizes == w.sizes && |r.tree.childList| == |ks|
  {
    var n := FirstFailIndex(Outcomes(rs));
    Expansion(w.(childList := Merge(rs, ks, n)), if n < |rs| then rs[n].outcome else Pass)
  }

  /** The recursive calls on the level-resolved children `ks`, in order. */
  function ExpandKids(w: Widget, ks: seq<Widget>, di: nat): (rs: seq<Expansion>)
    requires w.Frame? && |ks| == |w.childList|
    requires forall i :: 0 <= i < |ks| ==>
      ExpandReady(ks[i], di) && DemandOf(ks[i], di) == Exact && NodeCount(ks[i]) == NodeCount(w.childList[i])
    ensures |rs| == |ks|
    ensures forall i :: 0 <= i < |ks| ==> rs[i] == Expanded(ks[i], di)
    decreases NodeCount(w), 0
  {
    seq(|ks|, i requires 0 <= i < |ks| => Expanded(ks[i], di))
  }

  function Outcomes(rs: seq<Expansion>): (s: seq<Outcome<LayoutError>>)
    ensures |s| == |rs| && forall i :: 0 <= i < |rs| ==> s[i] == rs[i].outcome
  {
    seq(|rs|, i requires 0 <= i < |rs| => rs[i].outcome)
  }

  /** The children once the walk stops after child n: those visited carry
      their results, the rest keep their level-resolved sizes. */
  function Merge(rs: seq<Expansion>, ks: seq<Widget>, n: nat): (r: seq<Widget>)
    requires |rs| == |ks|
    ensures |r| == |ks|
    ensures forall i :: 0 <= i < |ks| ==> r[i] == (if i <= n then rs[i].tree else ks[i])
  {
    seq(|ks|, i requires 0 <= i < |ks| => if i <= n then rs[i].tree else ks[i])
  }

  // ---- What the walk guarantees.

  /** The walk keeps the tree ready, changes nothing off axis di, and leaves
      the widget itself as it found it. */
  lemma {:induction false} ExpandedReady(w: Widget, di: nat)
    requires ExpandReady(w, di) && DemandOf(w, di) == Exact
    ensures ExpandReady(Expanded(w, di).tree, di)
    ensures SameExceptAxis(w, Expanded(w, di).tree, di)
    decreases NodeCount(w), 1
  {
    if w.Frame? && |w.childList| > 0 && ResolveLevel(w, di).Success? {
      var m := Expanded(w, di).tree.childList;
      forall i | 0 <= i < |w.childList|
        ensures ExpandReady(m[i], di) && SameExceptAxis(w.childList[i], m[i], di)
      {
        ExpandedKidReady(w, di, i);
      }
      ReplaceKidsReady(w, m, di);
    } else {
      SameExceptAxisRefl(w, di);
    }
  }

  lemma {:induction false} ExpandedKidReady(w: Widget, di: nat, i: nat)
    requires w.Frame? && |w.childList| > 0 && ExpandReady(w, di) && DemandOf(w, di) == Exact
    requires ResolveLevel(w, di).Success? && i < |w.childList|
    ensures |Expanded(w, di).tree.childList| == |w.childList|
    ensures ExpandReady(Expanded(w, di).tree.childList[i], di)
    ensures SameExceptAxis(w.childList[i], Expanded(w, di).tree.childList[i], di)
    decreases NodeCount(w), 0
  {
    var ks := ResolveLevel(w, di).value;
    ResolveLevelReady(w, di);
    var c := Expanded(w, di).tree.childList[i];
    if c != ks[i] {
      assert c == Expanded(ks[i], di).tree;
      ExpandedReady(ks[i], di);
      SameExceptAxisTrans(w.childList[i], ks[i], c, di);
    }
  }

  /** A frame whose children are swapped for ready ones that differ from them
      only on axis di is itself ready and differs only on axis di. */
  lemma ReplaceKidsReady(w: Widget, m: seq<Widget>, di: nat)
    requires w.Frame? && ExpandReady(w, di) && |m| == |w.childList|
    requires forall i :: 0 <= i < |m| ==> ExpandReady(m[i], di) && SameExceptAxis(w.childList[i], m[i], di)
    ensures ExpandReady(w.(childList := m), di) && SameExceptAxis(w, w.(childList := m), di)
  {
  }

  /** When the walk does not raise, every widget of the tree ends `exact`. */
  lemma {:induction false} ExpandedAllExact(w: Widget, di: nat)
    requires ExpandReady(w, di) && DemandOf(w, di) == Exact
    ensures Expanded(w, di).outcome.Pass? ==> ExpandReady(Expanded(w, di).tree, di) && AllExact(Expanded(w, di).tree, di)
    decreases NodeCount(w)
  {
    ExpandedReady(w, di);
    var r := Expanded(w, di);
    if r.outcome.Pass? && w.Frame? && |w.childList| > 0 {
      var ks := ResolveLevel(w, di).value;
      ResolveLevelReady(w, di);
      var rs := ExpandKids(w, ks, di);
      assert FirstFailIndex(Outcomes(rs)) == |rs|;
      forall i | 0 <= i < |ks|
        ensures AllExact(r.tree.childList[i], di)
      {
        assert r.tree.childList[i] == rs[i].tree;
        ExpandedAllExact(ks[i], di);
      }
    }
  }

  /** The only error the walk raises is the lack of room for expanding
      children along a sequence axis. */
  lemma {:induction false} ExpandedError(w: Widget, di: nat)
    requires ExpandReady(w, di) && DemandOf(w, di) == Exact
    ensures Expanded(w, di).outcome.Fail? ==> Expanded(w, di).outcome.error.NoSpaceToExpand?
    decreases NodeCount(w)
  {
    var r := Expanded(w, di);
    if r.outcome.Fail? && w.Frame? && |w.childList| > 0 && ResolveLevel(w, di).Success? {
      var ks := ResolveLevel(w, di).value;
      ResolveLevelReady(w, di);
      var n := FirstFailIndex(Outcomes(ExpandKids(w, ks, di)));
      ExpandedError(ks[n], di);
    }
  }

  /** The parent is resolved before its children: each child of the result
      has the size the level step gave it, or the walk raised there. */
  lemma ExpandedLevel(w: Widget, di: nat)
    requires w.Frame? && |w.childList| > 0 && ExpandReady(w, di) && DemandOf(w, di) == Exact
    ensures ResolveLevel(w, di).Failure? ==> Expanded(w, di) == Expansion(w, Fail(ResolveLevel(w, di).error))
    ensures ResolveLevel(w, di).Success? ==>
      forall i :: 0 <= i < |w.childList| ==>
        Expanded(w, di).tree.childList[i].sizes == ResolveLevel(w, di).value[i].sizes
  {
    if ResolveLevel(w, di).Success? {
      var ks := ResolveLevel(w, di).value;
      ResolveLevelReady(w, di);
      var rs := ExpandKids(w, ks, di);
      assert Expanded(w, di).tree.childList == Merge(rs, ks, FirstFailIndex(Outcomes(rs)));
    }
  }

  /** m holds the children of kids with share e granted on axis di: each
      expanding child is `exact` with range [0, e], every other child keeps
      its size. */
  predicate Granted(kids: seq<Widget>, m: seq<Widget>, di: nat, e: real)
    requires KidsHaveAxis(kids, di)
  {
    && |m| == |kids|
    && forall i :: 0 <= i < |kids| ==>
         && di < |m[i].sizes|
         && m[i].sizes[di] ==
              if DemandOf(kids[i], di) == ExpandToFit
              then kids[i].sizes[di].(spaceDemand := Exact, range := Some(Range(0.0, e)))
              else kids[i].sizes[di]
  }

  /** Along the sequence axis, with k > 0 expanding children: the walk
      raises when A <= 0; otherwise each expanding child gets [0, A/k] and
      every other child keeps its size. */
  lemma ExpandParallelShares(w: Widget, di: nat)
    requires w.Frame? && |w.childList| > 0 && ExpandReady(w, di) && DemandOf(w, di) == Exact
    requires w.childSequenceDir == di && CountExpand(w.childList, di) > 0
    ensures ExpandRoom(w, di) <= 0.0 ==> Expanded(w, di) == Expansion(w, Fail(NoSpaceToExpand(di, w.name)))
    ensures ExpandRoom(w, di) > 0.0 ==>
      Granted(w.childList, Expanded(w, di).tree.childList, di, Share(w, di))
  {
    ExpandedLevel(w, di);
    if ExpandRoom(w, di) > 0.0 {
      ResolveParallel(w, di);
      GrantedBySizes(w.childList, ResolveLevel(w, di).value, Expanded(w, di).tree.childList, di, Share(w, di));
    }
  }

  /** Across the sequence axis each expanding child gets [0, extent - 2·inner],
      with no check that this is positive; every other child keeps its size. */
  lemma ExpandCrossShares(w: Widget, di: nat)
    requires w.Frame? && |w.childList| > 0 && ExpandReady(w, di) && DemandOf(w, di) == Exact
    requires w.childSequenceDir != di
    ensures ResolveLevel(w, di).Success?
    ensures Granted(w.childList, Expanded(w, di).tree.childList, di, Interior(w, di))
  {
    var kids := w.childList;
    ExpandedLevel(w, di);
    if CountExpand(kids, di) > 0 {
      ResolveCross(w, di);
      GrantedBySizes(kids, ResolveLevel(w, di).value, Expanded(w, di).tree.childList, di, Interior(w, di));
    } else {
      KeptGranted(kids, Expanded(w, di).tree.childList, di, Interior(w, di));
    }
  }

  /** The level step across the sequence axis, with an expanding child. */
  lemma ResolveCross(w: Widget, di: nat)
    requires w.Frame? && |w.childList| > 0 && ExpandReady(w, di) && DemandOf(w, di) == Exact
    requires w.childSequenceDir != di && CountExpand(w.childList, di) > 0
    ensures ResolveLevel(w, di).Success? && ResolveLevel(w, di).value == Grant(w.childList, di, Interior(w, di))
  {
  }

  /** The level step along the sequence axis, with room and an expanding
      child. */
  lemma ResolveParallel(w: Widget, di: nat)
    requires w.Frame? && |w.childList| > 0 && ExpandReady(w, di) && DemandOf(w, di) == Exact
    requires w.childSequenceDir == di && CountExpand(w.childList, di) > 0 && ExpandRoom(w, di) > 0.0
    ensures ResolveLevel(w, di).Success?
    ensures ResolveLevel(w, di).value == Grant(w.childList, di, Share(w, di))
  {
  }

  /** Children sized as the grant sizes them are granted. */
  lemma GrantedBySizes(kids: seq<Widget>, g: seq<Widget>, m: seq<Widget>, di: nat, e: real)
    requires KidsHaveAxis(kids, di) && g == Grant(kids, di, e) && |m| == |kids|
    requires forall i :: 0 <= i < |kids| ==> m[i].sizes == g[i].sizes
    ensures Granted(kids, m, di, e)
  {
    forall i | 0 <= i < |kids|
      ensures di < |m[i].sizes|
      ensures m[i].sizes[di] ==
        if DemandOf(kids[i], di) == ExpandToFit
        then kids[i].sizes[di].(spaceDemand := Exact, range := Some(Range(0.0, e)))
        else kids[i].sizes[di]
    {
      assert kids[i] in kids;
      assert m[i].sizes == g[i].sizes;
    }
  }

  /** With no expanding child, children of unchanged sizes are granted. */
  lemma KeptGranted(kids: seq<Widget>, m: seq<Widget>, di: nat, e: real)
    requires KidsHaveAxis(kids, di) && |m| == |kids| && CountExpand(kids, di) == 0
    requires forall i :: 0 <= i < |kids| ==> m[i].sizes == kids[i].sizes
    ensures Granted(kids, m, di, e)
  {
    forall i | 0 <= i < |kids|
      ensures di < |m[i].sizes| && DemandOf(kids[i], di) != ExpandToFit
    {
      assert kids[i] in kids;
    }
  }

  /** e counted once per expanding child. */
  function ShareSum(ks: seq<Widget>, di: nat, e: real): real
    requires KidsHaveAxis(ks, di)
  {
    if ks == [] then 0.0
    else ShareSum(ks[..|ks| - 1], di, e) + (if DemandOf(ks[|ks| - 1], di) == ExpandToFit then e else 0.0)
  }

  lemma {:induction false} ShareSumCount(ks: seq<Widget>, di: nat, e: real)
    requires KidsHaveAxis(ks, di)
    ensures ShareSum(ks, di, e) == Spacing(CountExpand(ks, di), e)
  {
    if ks != [] {
      ShareSumLast(ks, di, e);
      CountExpandLast(ks, di);
      ShareSumCount(ks[..|ks| - 1], di, e);
      SpacingSucc(CountExpand(ks[..|ks| - 1], di), e);
    }
  }

  lemma ShareSumLast(ks: seq<Widget>, di: nat, e: real)
    requires ks != [] && KidsHaveAxis(ks, di)
    ensures KidsHaveAxis(ks[..|ks| - 1], di)
    ensures ShareSum(ks, di, e) ==
      ShareSum(ks[..|ks| - 1], di, e) + (if DemandOf(ks[|ks| - 1], di) == ExpandToFit then e else 0.0)
  {
    assert forall k :: k in ks[..|ks| - 1] ==> k in ks;
  }

  /** Granting e to every expanding child adds e per expanding child to the
      fixed extents and leaves the buffers alone. */
  lemma {:induction false} GrantSums(ks: seq<Widget>, di: nat, e: real)
    requires KidsHaveAxis(ks, di)
    requires forall k :: k in ks && DemandOf(k, di) != ExpandToFit ==> k.sizes[di].range.Some?
    ensures KidsRanged(Grant(ks, di, e), di)
    ensures ExtentSum(Grant(ks, di, e), di) == FixedSum(ks, di) + ShareSum(ks, di, e)
    ensures OuterSum(Grant(ks, di, e), di) == OuterSum(ks, di)
  {
    GrantRanged(ks, di, e);
    if ks != [] {
      var g := Grant(ks, di, e);
      GrantPrefix(ks, di, e);
      GrantSums(ks[..|ks| - 1], di, e);
      ExtentSumLast(g, di);
      OuterSumLast(g, di);
      OuterSumLast(ks, di);
      FixedSumLast(ks, di);
      assert ShareSum(ks, di, e) ==
        ShareSum(ks[..|ks| - 1], di, e) + (if DemandOf(ks[|ks| - 1], di) == ExpandToFit then e else 0.0);
      assert g[|g| - 1] == (if DemandOf(ks[|ks| - 1], di) == ExpandToFit then SetExact(ks[|ks| - 1], di, e) else ks[|ks| - 1]);
    }
  }

  /** Granting commutes with dropping the last child. */
  lemma GrantPrefix(ks: seq<Widget>, di: nat, e: real)
    requires ks != [] && KidsHaveAxis(ks, di)
    requires forall k :: k in ks && DemandOf(k, di) != ExpandToFit ==> k.sizes[di].range.Some?
    ensures KidsHaveAxis(ks[..|ks| - 1], di)
    ensures forall k :: k in ks[..|ks| - 1] && DemandOf(k, di) != ExpandToFit ==> k.sizes[di].range.Some?
    ensures Grant(ks[..|ks| - 1], di, e) == Grant(ks, di, e)[..|ks| - 1]
  {
    assert forall k :: k in ks[..|ks| - 1] ==> k in ks;
  }

  lemma GrantRanged(ks: seq<Widget>, di: nat, e: real)
    requires KidsHaveAxis(ks, di)
    requires forall k :: k in ks && DemandOf(k, di) != ExpandToFit ==> k.sizes[di].range.Some?
    ensures KidsRanged(Grant(ks, di, e), di)
  {
    var g := Grant(ks, di, e);
    forall k | k in g
      ensures di < |k.sizes| && k.sizes[di].range.Some?
    {
      var i :| 0 <= i < |g| && g[i] == k;
      assert ks[i] in ks;
    }
  }

  /** Along the sequence axis, once the level has room and an expanding
      child, the children laid end to end with their gaps fill the parent's
      interior exactly. */
  lemma ExpandFills(w: Widget, di: nat)
    requires w.Frame? && |w.childList| > 0 && ExpandReady(w, di) && DemandOf(w, di) == Exact
    requires w.childSequenceDir == di && CountExpand(w.childList, di) > 0 && ExpandRoom(w, di) > 0.0
    ensures KidsRanged(Expanded(w, di).tree.childList, di)
    ensures ParallelSpan(Expanded(w, di).tree.childList, di) == Interior(w, di)
  {
    LevelFills(w, di);
    ExpandedLevel(w, di);
    SpanBySizes(ResolveLevel(w, di).value, Expanded(w, di).tree.childList, di);
  }

  lemma LevelFills(w: Widget, di: nat)
    requires w.Frame? && |w.childList| > 0 && ExpandReady(w, di) && DemandOf(w, di) == Exact
    requires w.childSequenceDir == di && CountExpand(w.childList, di) > 0 && ExpandRoom(w, di) > 0.0
    ensures ResolveLevel(w, di).Success? && KidsRanged(ResolveLevel(w, di).value, di)
    ensures ParallelSpan(ResolveLevel(w, di).value, di) == Interior(w, di)
  {
    var kids := w.childList;
    assert KidsHaveAxis(kids, di) && forall c :: c in kids && DemandOf(c, di) != ExpandToFit ==> c.sizes[di].range.Some? by {
      forall c | c in kids
        ensures di < |c.sizes| && (DemandOf(c, di) != ExpandToFit ==> c.sizes[di].range.Some?)
      {
        var i :| 0 <= i < |kids| && kids[i] == c;
      }
    }
    ResolveParallel(w, di);
    GrantSpan(kids, di, Share(w, di));
    ShareSumRoom(w, di);
  }

  lemma GrantSpan(kids: seq<Widget>, di: nat, e: real)
    requires |kids| > 0 && KidsHaveAxis(kids, di)
    requires forall c :: c in kids && DemandOf(c, di) != ExpandToFit ==> c.sizes[di].range.Some?
    ensures KidsRanged(Grant(kids, di, e), di)
    ensures ParallelSpan(Grant(kids, di, e), di) ==
      FixedSum(kids, di) + ShareSum(kids, di, e) + OuterSum(kids, di) - Outer(kids[0], di) - Outer(kids[|kids| - 1], di)
  {
    var ks := Grant(kids, di, e);
    GrantSums(kids, di, e);
    assert Outer(ks[0], di) == Outer(kids[0], di);
    assert Outer(ks[|ks| - 1], di) == Outer(kids[|kids| - 1], di);
  }

  // ---- The source's loops.

  /** `_expandChildren` on axis di, with the source's loops. */
  method ExpandChildren(w: Widget, di: nat) returns (r: Expansion)
    requires ExpandReady(w, di) && DemandOf(w, di) == Exact
    ensures r == Expanded(w, di)
    decreases NodeCount(w), 1
  {
    if w.Leaf? || |w.childList| == 0 {
      return Expansion(w, Pass);
    }
    var level := ExpandLevel(w, di);
    if level.Failure? {
      return Expansion(w, Fail(level.error));
    }
    var ks := level.value;
    ResolveLevelReady(w, di);
    r := ExpandKidsInOrder(w, ks, di);
  }

  /** The level step of `_expandChildren`: count the expanding children,
      find the room, and hand it out. */
  method ExpandLevel(w: Widget, di: nat) returns (r: Result<seq<Widget>, LayoutError>)
    requires w.Frame? && |w.childList| > 0 && ExpandReady(w, di) && DemandOf(w, di) == Exact
    ensures r == ResolveLevel(w, di)
  {
    var kids := w.childList;
    assert KidsHaveAxis(kids, di) by {
      forall c | c in kids
        ensures di < |c.sizes|
      {
        var i :| 0 <= i < |kids| && kids[i] == c;
      }
    }
    var numExpandChildren := CountExpanding(kids, di);
    if numExpandChildren == 0 {
      return Success(kids);
    }
    var availableSpace := Extent(w, di) - 2.0 * Inner(w, di);
    if w.childSequenceDir == di {
      availableSpace := ExpandRoomLoop(w, di);
      if availableSpace <= 0.0 {
        return Failure(NoSpaceToExpand(di, w.name));
      }
      var spacePerWidget := availableSpace / numExpandChildren as real;
      var ks := GrantLoop(kids, di, spacePerWidget);
      return Success(ks);
    }
    var ks := GrantLoop(kids, di, availableSpace);
    return Success(ks);
  }

  method CountExpanding(ks: seq<Widget>, di: nat) returns (n: nat)
    requires KidsHaveAxis(ks, di)
    ensures n == CountExpand(ks, di)
  {
    n := 0;
    var i := 0;
    while i < |ks|
      invariant 0 <= i <= |ks|
      invariant n == CountExpand(ks[..i], di)
    {
      assert ks[..i + 1][..i] == ks[..i];
      if ks[i].sizes[di].spaceDemand == ExpandToFit {
        n := n + 1;
      }
      i := i + 1;
    }
    assert ks[..i] == ks;
  }

  /** The summing loop of the parallel case. */
  method ExpandRoomLoop(w: Widget, di: nat) returns (availableSpace: real)
    requires w.Frame? && |w.childList| > 0 && ExpandReady(w, di) && DemandOf(w, di) == Exact
    ensures availableSpace == ExpandRoom(w, di)
  {
    var kids := w.childList;
    var base := Extent(w, di) - 2.0 * Inner(w, di) + Outer(kids[0], di) + Outer(kids[|kids| - 1], di);
    availableSpace := base;
    var i := 0;
    while i < |kids|
      invariant 0 <= i <= |kids|
      invariant availableSpace == base - FixedSum(kids[..i], di) - OuterSum(kids[..i], di)
    {
      assert kids[..i + 1][..i] == kids[..i];
      if kids[i].sizes[di].spaceDemand != ExpandToFit {
        availableSpace := availableSpace - Extent(kids[i], di);
      }
      availableSpace := availableSpace - 2.0 * Outer(kids[i], di);
      i := i + 1;
    }
    assert kids[..i] == kids;
  }

  /** The loop that makes each expanding child `exact` with range [0, e]. */
  method GrantLoop(kids: seq<Widget>, di: nat, e: real) returns (ks: seq<Widget>)
    requires KidsHaveAxis(kids, di)
    ensures ks == Grant(kids, di, e)
  {
    ks := kids;
    var i := 0;
    while i < |kids|
      invariant 0 <= i <= |kids| && |ks| == |kids|
      invariant forall j :: 0 <= j < i ==> ks[j] == Grant(kids, di, e)[j]
      invariant forall j :: i <= j < |kids| ==> ks[j] == kids[j]
    {
      if kids[i].sizes[di].spaceDemand == ExpandToFit {
        assert kids[i] in kids;
        ks := ks[i := SetExact(kids[i], di, e)];
      }
      i := i + 1;
    }
  }

  /** The closing loop of `_expandChildren`: the recursive call on each
      child in order, stopping at the first error. */
  method ExpandKidsInOrder(w: Widget, ks: seq<Widget>, di: nat) returns (r: Expansion)
    requires w.Frame? && |ks| == |w.childList|
    requires forall i :: 0 <= i < |ks| ==>
      ExpandReady(ks[i], di) && DemandOf(ks[i], di) == Exact && NodeCount(ks[i]) == NodeCount(w.childList[i])
    ensures r == Assemble(w, ks, ExpandKids(w, ks, di))
    decreases NodeCount(w), 0
  {
    ghost var rs := ExpandKids(w, ks, di);
    ghost var os := Outcomes(rs);
    var cur := ks;
    var i := 0;
    while i < |ks|
      invariant 0 <= i <= |ks| && |cur| == |ks|
      invariant forall j :: 0 <= j < i ==> cur[j] == rs[j].tree
      invariant forall j :: 0 <= j < i ==> os[j].Pass?
      invariant forall j :: i <= j < |ks| ==> cur[j] == ks[j]
    {
      var c := ExpandChildren(ks[i], di);
      assert rs[i] == c && os[i] == c.outcome;
      cur := cur[i := c.tree];
      if c.outcome.Fail? {
        FirstFailAt(os, i);
        assert cur == Merge(rs, ks, i);
        return Expansion(w.(childList := cur), c.outcome);
      }
      PassesExtend(os, i);
      i := i + 1;
    }
    AllPass(os);
    assert cur == Merge(rs, ks, |rs|);
    return Expansion(w.(childList := cur), Pass);
  }
}
