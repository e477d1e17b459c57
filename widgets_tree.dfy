/** The widget tree as the widgets module builds it: a widget names its
    parent Frame when it is created and is appended to the end of that
    frame's `childList`; its name goes into the GUI's `_widgetDict`. Here a
    parent is found by its path of child indices from the GUI frame. */
module WidgetTree {
  import opened Wrappers
  import opened WidgetTypes

  /** `p` leads from w, one child index per level, to a widget. */
  predicate IsPath(w: Node, p: seq<nat>)
    decreases p
  {
    p == [] || (w.Frame? && p[0] < |w.childList| && IsPath(w.childList[p[0]], p[1..]))
  }

  /** The widget at the end of path p. */
  function Find(w: Node, p: seq<nat>): Node
    requires IsPath(w, p)
    decreases p
  {
    if p == [] then w else Find(w.childList[p[0]], p[1..])
  }

  /** The tree once c has been appended to the children of the frame at p
      (`Frame._append`). */
  function Attach(w: Node, p: seq<nat>, c: Node): (r: Node)
    requires IsPath(w, p) && Find(w, p).Frame?
    ensures r.Frame? && r.name == w.name && r.isEnabled == w.isEnabled && r.axes == w.axes
    ensures |r.childList| == |w.childList| + (if p == [] then 1 else 0)
    decreases p
  {
    if p == [] then w.(childList := w.childList + [c])
    else w.(childList := w.childList[p[0] := Attach(w.childList[p[0]], p[1..], c)])
  }

  /** The new widget is the last child of its parent; every other
      child of the parent is as it was. */
  lemma {:induction false} AttachAppends(w: Node, p: seq<nat>, c: Node)
    requires IsPath(w, p) && Find(w, p).Frame?
    ensures IsPath(Attach(w, p, c), p) && Find(Attach(w, p, c), p).Frame?
    ensures Find(Attach(w, p, c), p).childList == Find(w, p).childList + [c]
    decreases p
  {
    if p != [] {
      AttachAppends(w.childList[p[0]], p[1..], c);
    }
  }

  // ---- Names.

  /** How often name n occurs in w and below it. */
  function NameCount(w: Node, n: string): nat
    decreases w, 2
  {
    (if w.name == n then 1 else 0) + CountBelow(w, n)
  }

  /** How often name n occurs strictly below w: for the GUI frame, how
      often it is a key of `_widgetDict` (which does not hold the GUI's
      own name). */
  function CountBelow(w: Node, n: string): nat
    decreases w, 1
  {
    if w.Leaf? then 0 else KidsCount(w, n, |w.childList|)
  }

  function KidsCount(w: Node, n: string, k: nat): nat
    requires w.Frame? && k <= |w.childList|
    decreases w, 0, k
  {
    if k == 0 then 0 else KidsCount(w, n, k - 1) + NameCount(w.childList[k - 1], n)
  }

  lemma {:induction false} KidsCountPrefix(u: Node, v: Node, n: string, k: nat)
    requires u.Frame? && v.Frame? && k <= |u.childList| && k <= |v.childList|
    requires forall j :: 0 <= j < k ==> u.childList[j] == v.childList[j]
    ensures KidsCount(u, n, k) == KidsCount(v, n, k)
  {
    if k > 0 {
      KidsCountPrefix(u, v, n, k - 1);
    }
  }

  /** A widget without children has no names below it. */
  lemma NoNamesBelow(w: Node)
    requires w.Leaf? || w.childList == []
    ensures forall n :: CountBelow(w, n) == 0
  {
    forall n
      ensures CountBelow(w, n) == 0
    {
      if w.Frame? {
        assert KidsCount(w, n, 0) == 0;
      }
    }
  }

  /** Replacing child i by another trades its names for the other's. */
  lemma {:induction false} KidsCountUpdate(u: Node, v: Node, n: string, i: nat, k: nat)
    requires u.Frame? && v.Frame? && i < k <= |u.childList| == |v.childList|
    requires forall j :: 0 <= j < |u.childList| && j != i ==> u.childList[j] == v.childList[j]
    ensures KidsCount(v, n, k) + NameCount(u.childList[i], n) == KidsCount(u, n, k) + NameCount(v.childList[i], n)
  {
    if k - 1 == i {
      KidsCountPrefix(u, v, n, i);
    } else {
      KidsCountUpdate(u, v, n, i, k - 1);
    }
  }

  /** Attaching c adds its names, and no other, below the GUI frame. */
  lemma {:induction false} AttachNames(w: Node, p: seq<nat>, c: Node, n: string)
    requires IsPath(w, p) && Find(w, p).Frame?
    ensures CountBelow(Attach(w, p, c), n) == CountBelow(w, n) + NameCount(c, n)
    decreases p
  {
    var r := Attach(w, p, c);
    if p == [] {
      KidsCountPrefix(w, r, n, |w.childList|);
    } else {
      var i := p[0];
      AttachNames(w.childList[i], p[1..], c, n);
      KidsCountUpdate(w, r, n, i, |w.childList|);
    }
  }

  /** Trees of the same shape hold the same names. */
  lemma {:induction false} ShapeNames(u: Node, v: Node, n: string)
    requires SameShape(u, v)
    ensures NameCount(u, n) == NameCount(v, n) && CountBelow(u, n) == CountBelow(v, n)
    decreases u, 1
  {
    if u.Frame? {
      ShapeKidsCount(u, v, n, |u.childList|);
    }
  }

  lemma {:induction false} ShapeKidsCount(u: Node, v: Node, n: string, k: nat)
    requires SameShape(u, v) && u.Frame? && k <= |u.childList|
    ensures KidsCount(u, n, k) == KidsCount(v, n, k)
    decreases u, 0, k
  {
    if k > 0 {
      ShapeKidsCount(u, v, n, k - 1);
      ShapeNames(u.childList[k - 1], v.childList[k - 1], n);
    }
  }

  // ---- Enabled flags.

  /** No enabled widget has a disabled parent. */
  predicate EnabledClosed(w: Node)
  {
    w.Frame? ==> forall i :: 0 <= i < |w.childList| ==>
      (w.childList[i].isEnabled ==> w.isEnabled) && EnabledClosed(w.childList[i])
  }

  /** A widget attached under the rule "a child of a disabled parent is
      disabled" keeps the tree closed. */
  lemma {:induction false} AttachEnabled(w: Node, p: seq<nat>, c: Node)
    requires IsPath(w, p) && Find(w, p).Frame?
    requires EnabledClosed(w) && EnabledClosed(c) && (c.isEnabled ==> Find(w, p).isEnabled)
    ensures EnabledClosed(Attach(w, p, c))
    decreases p
  {
    if p != [] {
      AttachEnabled(w.childList[p[0]], p[1..], c);
    }
  }

  lemma {:induction false} ShapeEnabled(u: Node, v: Node)
    requires SameShape(u, v) && EnabledClosed(u)
    ensures EnabledClosed(v)
  {
    if u.Frame? {
      forall i | 0 <= i < |u.childList| {
        ShapeEnabled(u.childList[i], v.childList[i]);
      }
    }
  }

  // ---- The demand rules widget construction enforces.

  /** No widget that cannot hold children is `shrinkToFit`, and no child
      is `expandToFit` on an axis where its parent is `shrinkToFit`. */
  predicate Legal(w: Node)
  {
    && (w.Leaf? ==> forall b: Axis :: DemandOf(w, b) != ShrinkToFit)
    && (w.Frame? ==> forall i :: 0 <= i < |w.childList| ==>
          && (forall b: Axis :: DemandOf(w, b) == ShrinkToFit ==> DemandOf(w.childList[i], b) != ExpandToFit)
          && Legal(w.childList[i]))
  }

  lemma {:induction false} AttachLegal(w: Node, p: seq<nat>, c: Node)
    requires IsPath(w, p) && Find(w, p).Frame?
    requires Legal(w) && Legal(c)
    requires forall b: Axis :: DemandOf(Find(w, p), b) == ShrinkToFit ==> DemandOf(c, b) != ExpandToFit
    ensures Legal(Attach(w, p, c))
    decreases p
  {
    var r := Attach(w, p, c);
    if p == [] {
      assert forall i :: 0 <= i < |w.childList| ==> r.childList[i] == w.childList[i];
    } else {
      var i := p[0];
      AttachLegal(w.childList[i], p[1..], c);
      forall j | 0 <= j < |r.childList|
        ensures (forall b: Axis :: DemandOf(r, b) == ShrinkToFit ==> DemandOf(r.childList[j], b) != ExpandToFit)
        ensures Legal(r.childList[j])
      {
        assert forall b: Axis :: DemandOf(w, b) == ShrinkToFit ==> DemandOf(w.childList[j], b) != ExpandToFit;
        if j != i {
          assert r.childList[j] == w.childList[j];
        } else {
          assert r.childList[i] == Attach(w.childList[i], p[1..], c);
          assert r.childList[i].axes == w.childList[i].axes;
        }
        assert r.axes == w.axes;
        assert forall b: Axis :: DemandOf(r.childList[j], b) == DemandOf(w.childList[j], b);
      }
    }
  }
}
