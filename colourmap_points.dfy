/** The point list of one hue graph (`_HueGraph`) as a value: the pairs
    (colour-index fraction, hue fraction) from ci 0 to ci 1, and what
    inserting, deleting, changing and interpolating do to it. Indices are
    those of the whole list, endpoints included, as `__getitem__` counts
    them. */
module HuePoints {
  import opened Wrappers

  /** One (ci, hue) pair, the source's `chTuple`. */
  datatype Point = Point(ci: real, hue: real)

  /** The errors the colour-map classes raise, plus the `IndexError` of a
      failed `pop`, the `ZeroDivisionError` of a degenerate interpolation,
      a list index out of range and the unpacking of a missing tuple. */
  datatype MapError =
    | FirstHOutOfRange(firstH: real)
    | LastHOutOfRange(lastH: real)
    | CiBelowPrevious(ci: real, prev: real)
    | CiAboveNext(ci: real, next: real)
    | HueOutOfRange(hue: real)
    | BadReplacement(elementI: int)
    | DeleteFirst
    | DeleteLast
    | PopOutOfRange
    | BadElement(elementI: int)
    | DivisionByZero
    | UnknownType(typeStr: string)
    | NoSuchHue(hueI: int)
    | MissingTuple

  /** The rules the class keeps: at least two points, ci 0 for the first
      and 1 for the last, ci non-descending, every hue in [0, 1]. */
  predicate WellFormed(ps: seq<Point>)
  {
    |ps| >= 2 && ps[0].ci == 0.0 && ps[|ps| - 1].ci == 1.0 && Sorted(ps) && HuesInUnit(ps)
  }

  predicate Sorted(ps: seq<Point>)
  {
    forall i, j :: 0 <= i < j < |ps| ==> ps[i].ci <= ps[j].ci
  }

  predicate HuesInUnit(ps: seq<Point>)
  {
    forall i :: 0 <= i < |ps| ==> 0.0 <= ps[i].hue <= 1.0
  }

  function Dist(a: real, b: real): real
  {
    if a < b then b - a else a - b
  }

  /** `_checkHueFrac`: a hue in [0, 1] passes as it is; any other raises,
      or with `force` becomes the nearest value in [0, 1]. */
  function CheckHue(hue: real, force: bool): (r: Result<real, MapError>)
    ensures r.Success? <==> force || 0.0 <= hue <= 1.0
    ensures r.Failure? ==> r.error == HueOutOfRange(hue)
    ensures r.Success? ==> 0.0 <= r.value <= 1.0 && (0.0 <= hue <= 1.0 ==> r.value == hue)
    ensures r.Success? ==> forall v :: 0.0 <= v <= 1.0 ==> Dist(r.value, hue) <= Dist(v, hue)
  {
    if hue < 0.0 then (if force then Success(0.0) else Failure(HueOutOfRange(hue)))
    else if hue > 1.0 then (if force then Success(1.0) else Failure(HueOutOfRange(hue)))
    else Success(hue)
  }

  /** `_checkCiValue` with the neighbours' ci values prev and next: a ci
      between them passes as it is; one below prev raises (or with `force`
      becomes prev), then one above next raises (or becomes next). */
  function CheckCi(ci: real, prev: real, next: real, force: bool): (r: Result<real, MapError>)
    ensures r.Success? <==> force || prev <= ci <= next
    ensures !force && ci < prev ==> r == Failure(CiBelowPrevious(ci, prev))
    ensures !force && prev <= ci && next < ci ==> r == Failure(CiAboveNext(ci, next))
    ensures prev <= ci <= next ==> r == Success(ci)
    ensures r.Success? && prev <= next ==>
      && prev <= r.value <= next
      && forall v :: prev <= v <= next ==> Dist(r.value, ci) <= Dist(v, ci)
  {
    if ci < prev then (if force then Success(prev) else Failure(CiBelowPrevious(ci, prev)))
    else if ci > next then (if force then Success(next) else Failure(CiAboveNext(ci, next)))
    else Success(ci)
  }

  // ---- The three edits.

  /** `insert(i, t, force)`: i must lie in [1, N-1]; the checked point
      becomes element i and the points from i on move up by one. */
  function Inserted(ps: seq<Point>, i: int, t: Point, force: bool): (r: Result<seq<Point>, MapError>)
    requires |ps| >= 2
    ensures r.Success? <==>
      1 <= i <= |ps| - 1 && (force || (ps[i - 1].ci <= t.ci <= ps[i].ci && 0.0 <= t.hue <= 1.0))
    ensures (i < 1 || i > |ps| - 1) ==> r == Failure(BadReplacement(i))
    ensures r.Success? ==>
      && |r.value| == |ps| + 1 && r.value[..i] == ps[..i] && r.value[i + 1..] == ps[i..]
      && (!force ==> r.value[i] == t)
      && (force ==> r.value[i] == Point(CheckCi(t.ci, ps[i - 1].ci, ps[i].ci, true).value, CheckHue(t.hue, true).value))
  {
    if i < 1 || i > |ps| - 1 then Failure(BadReplacement(i))
    else
      var c :- CheckCi(t.ci, ps[i - 1].ci, ps[i].ci, force);
      var h :- CheckHue(t.hue, force);
      assert (ps[..i] + [Point(c, h)] + ps[i..])[i + 1..] == ps[i..];
      Success(ps[..i] + [Point(c, h)] + ps[i..])
  }

  /** `delete(i)` as the guard evidently means it: only an interior point
      (1 <= i <= N-2) is removed. */
  function Deleted(ps: seq<Point>, i: int): (r: Result<seq<Point>, MapError>)
    ensures r.Success? <==> 1 <= i <= |ps| - 2
    ensures i < 1 ==> r == Failure(DeleteFirst)
    ensures 1 <= i && i > |ps| - 2 ==> r == Failure(DeleteLast)
    ensures r.Success? ==> |r.value| == |ps| - 1 && r.value[..i] == ps[..i] && r.value[i..] == ps[i + 1..]
  {
    if i < 1 then Failure(DeleteFirst)
    else if i > |ps| - 2 then Failure(DeleteLast)
    else Success(ps[..i] + ps[i + 1..])
  }

  /** `delete(i)` as written: the guard against the last element compares
      with N-1, so i = N-1 passes it and the `pop(i-1)` on the interior
      list (of length N-2) then fails. */
  function DeletedAsWritten(ps: seq<Point>, i: int): (r: Result<seq<Point>, MapError>)
    ensures r.Success? <==> Deleted(ps, i).Success?
    ensures r.Success? ==> r == Deleted(ps, i)
  {
    if i < 1 then Failure(DeleteFirst)
    else if i > |ps| - 1 then Failure(DeleteLast)
    else if i - 1 >= |ps| - 2 then Failure(PopOutOfRange)
    else Success(ps[..i] + ps[i + 1..])
  }

  /** Deleting the last point gets past the guard as written and fails in
      the `pop` instead; the corrected guard refuses it as the last
      element. */
  lemma DeleteLastAsWritten(ps: seq<Point>)
    requires |ps| >= 2
    ensures DeletedAsWritten(ps, |ps| - 1) == Failure(PopOutOfRange)
    ensures Deleted(ps, |ps| - 1) == Failure(DeleteLast)
  {
  }

  /** `__setitem__(i, t)`: i must lie in [0, N-1] (no wrap-around); the hue
      is clamped to [0, 1]; an endpoint keeps its ci, an interior point
      takes t's ci clamped between its neighbours'. */
  function Changed(ps: seq<Point>, i: int, t: Point): (r: Result<seq<Point>, MapError>)
    requires |ps| >= 2
    ensures r.Success? <==> 0 <= i <= |ps| - 1
    ensures r.Failure? ==> r.error == BadElement(i)
    ensures r.Success? ==>
      && |r.value| == |ps|
      && (forall j :: 0 <= j < |ps| && j != i ==> r.value[j] == ps[j])
      && r.value[i].hue == CheckHue(t.hue, true).value
      && (i == 0 || i == |ps| - 1 ==> r.value[i].ci == ps[i].ci)
      && (0 < i < |ps| - 1 ==> r.value[i].ci == CheckCi(t.ci, ps[i - 1].ci, ps[i + 1].ci, true).value)
  {
    if i < 0 || i > |ps| - 1 then Failure(BadElement(i))
    else
      var h := CheckHue(t.hue, true).value;
      if i == 0 || i == |ps| - 1 then Success(ps[i := Point(ps[i].ci, h)])
      else
        var c := CheckCi(t.ci, ps[i - 1].ci, ps[i + 1].ci, true).value;
        Success(ps[i := Point(c, h)])
  }
  // ---- The edits on a tuple that may be missing.

  /** `insert(i, chTuple, force)` when the tuple may be `None`: the index
      guard comes first, and only then is the tuple unpacked, which fails
      on a missing one. */
  function InsertTuple(ps: seq<Point>, i: int, chTuple: Option<Point>, force: bool): (r: Result<seq<Point>, MapError>)
    requires |ps| >= 2
    ensures (i < 1 || i > |ps| - 1) ==> r == Failure(BadReplacement(i))
    ensures 1 <= i <= |ps| - 1 && chTuple.None? ==> r == Failure(MissingTuple)
    ensures chTuple.Some? ==> r == Inserted(ps, i, chTuple.value, force)
  {
    if i < 1 || i > |ps| - 1 then Failure(BadReplacement(i))
    else if chTuple.None? then Failure(MissingTuple)
    else Inserted(ps, i, chTuple.value, force)
  }

  /** `__setitem__(i, chTuple)` when the tuple may be `None`: the index
      guard first, then the unpacking. */
  function ChangeTuple(ps: seq<Point>, i: int, chTuple: Option<Point>): (r: Result<seq<Point>, MapError>)
    requires |ps| >= 2
    ensures (i < 0 || i > |ps| - 1) ==> r == Failure(BadElement(i))
    ensures 0 <= i <= |ps| - 1 && chTuple.None? ==> r == Failure(MissingTuple)
    ensures chTuple.Some? ==> r == Changed(ps, i, chTuple.value)
  {
    if i < 0 || i > |ps| - 1 then Failure(BadElement(i))
    else if chTuple.None? then Failure(MissingTuple)
    else Changed(ps, i, chTuple.value)
  }


  // ---- The edits keep the rules.

  /** Element j of a list with p inserted at i. */
  lemma InsertedIndex(ps: seq<Point>, i: nat, p: Point, j: nat)
    requires i <= |ps| && j <= |ps|
    ensures (ps[..i] + [p] + ps[i..])[j] == if j < i then ps[j] else if j == i then p else ps[j - 1]
  {
  }

  lemma InsertedWellFormed(ps: seq<Point>, i: int, t: Point, force: bool)
    requires WellFormed(ps) && Inserted(ps, i, t, force).Success?
    ensures WellFormed(Inserted(ps, i, t, force).value)
  {
    var c := CheckCi(t.ci, ps[i - 1].ci, ps[i].ci, force).value;
    var h := CheckHue(t.hue, force).value;
    var p := Point(c, h);
    var r := ps[..i] + [p] + ps[i..];
    assert r == Inserted(ps, i, t, force).value;
    InsertedSorted(ps, i, p);
    InsertedHues(ps, i, p);
    InsertedIndex(ps, i, p, 0);
    InsertedIndex(ps, i, p, |ps|);
  }

  lemma InsertedSorted(ps: seq<Point>, i: nat, p: Point)
    requires 1 <= i < |ps| && Sorted(ps) && ps[i - 1].ci <= p.ci <= ps[i].ci
    ensures Sorted(ps[..i] + [p] + ps[i..])
  {
    var r := ps[..i] + [p] + ps[i..];
    forall j, k | 0 <= j < k < |r|
      ensures r[j].ci <= r[k].ci
    {
      InsertedIndex(ps, i, p, j);
      InsertedIndex(ps, i, p, k);
      if k < i {
        assert ps[j].ci <= ps[k].ci;
      } else if k == i {
        assert ps[j].ci <= ps[i - 1].ci;
      } else if j == i {
        assert ps[i].ci <= ps[k - 1].ci;
      } else if j < i {
        assert ps[j].ci <= ps[k - 1].ci;
      } else {
        assert ps[j - 1].ci <= ps[k - 1].ci;
      }
    }
  }

  lemma InsertedHues(ps: seq<Point>, i: nat, p: Point)
    requires i <= |ps| && HuesInUnit(ps) && 0.0 <= p.hue <= 1.0
    ensures HuesInUnit(ps[..i] + [p] + ps[i..])
  {
    var r := ps[..i] + [p] + ps[i..];
    forall j | 0 <= j < |r|
      ensures 0.0 <= r[j].hue <= 1.0
    {
      InsertedIndex(ps, i, p, j);
    }
  }

  lemma DeletedWellFormed(ps: seq<Point>, i: int)
    requires WellFormed(ps) && Deleted(ps, i).Success?
    ensures WellFormed(Deleted(ps, i).value)
  {
    var r := Deleted(ps, i).value;
    assert forall j :: 0 <= j < i ==> r[j] == ps[j] by {
      assert forall j :: 0 <= j < i ==> r[..i][j] == r[j];
    }
    assert forall j :: i <= j < |r| ==> r[j] == ps[j + 1] by {
      assert forall j :: i <= j < |r| ==> r[i..][j - i] == r[j];
    }
  }

  lemma ChangedWellFormed(ps: seq<Point>, i: int, t: Point)
    requires WellFormed(ps) && Changed(ps, i, t).Success?
    ensures WellFormed(Changed(ps, i, t).value)
  {
    var r := Changed(ps, i, t).value;
    if 0 < i < |ps| - 1 {
      assert ps[i - 1].ci <= r[i].ci <= ps[i + 1].ci;
    }
  }

  // ---- Round trips (what undo and redo rely on).

  /** Deleting the point just inserted gives the list back. */
  lemma DeleteAfterInsert(ps: seq<Point>, i: int, t: Point, force: bool)
    requires |ps| >= 2 && Inserted(ps, i, t, force).Success?
    ensures Deleted(Inserted(ps, i, t, force).value, i) == Success(ps)
  {
    var r := Inserted(ps, i, t, force).value;
    assert r[..i] + r[i + 1..] == ps[..i] + ps[i..];
    assert ps[..i] + ps[i..] == ps;
  }

  /** Re-inserting a deleted point, unforced, where it was gives the list
      back. */
  lemma InsertAfterDelete(ps: seq<Point>, i: int)
    requires WellFormed(ps) && Deleted(ps, i).Success?
    ensures Inserted(Deleted(ps, i).value, i, ps[i], false) == Success(ps)
  {
    var d := Deleted(ps, i).value;
    assert d[i - 1] == ps[i - 1] by {
      assert d[..i][i - 1] == d[i - 1];
    }
    assert d[i] == ps[i + 1] by {
      assert d[i..][0] == d[i];
    }
    var r := Inserted(d, i, ps[i], false).value;
    assert r == ps by {
      assert r[..i] == ps[..i];
      assert r[i + 1..] == ps[i + 1..];
      assert r == r[..i] + [r[i]] + r[i + 1..];
      assert ps == ps[..i] + [ps[i]] + ps[i + 1..];
    }
  }

  /** Setting a point back to what it was gives the list back. */
  lemma ChangeRestores(ps: seq<Point>, i: int, t: Point)
    requires WellFormed(ps) && Changed(ps, i, t).Success?
    ensures Changed(Changed(ps, i, t).value, i, ps[i]) == Success(ps)
  {
    var c := Changed(ps, i, t).value;
    var r := Changed(c, i, ps[i]).value;
    if 0 < i < |ps| - 1 {
      assert c[i - 1] == ps[i - 1] && c[i + 1] == ps[i + 1];
      assert ps[i - 1].ci <= ps[i].ci <= ps[i + 1].ci;
    }
    assert CheckHue(ps[i].hue, true).value == ps[i].hue;
    assert r[i] == ps[i];
    assert forall j :: 0 <= j < |ps| ==> r[j] == ps[j];
    assert r == ps;
  }

  // ---- Interpolation.

  /** The clamp of the interpolation argument to [0, 1]. */
  function ClampUnit(x: real): (r: real)
    ensures 0.0 <= r <= 1.0 && (0.0 <= x <= 1.0 ==> r == x)
    ensures forall v :: 0.0 <= v <= 1.0 ==> Dist(r, x) <= Dist(v, x)
  {
    if x < 0.0 then 0.0 else if x > 1.0 then 1.0 else x
  }

  /** The search of `interpolate` from index i down to 1: the first, that
      is the largest, index whose ci is at most x, or 0 when there is
      none. */
  function SegmentFrom(ps: seq<Point>, x: real, i: nat): (k: nat)
    requires i < |ps|
    ensures k <= i && (k == 0 || ps[k].ci <= x)
    ensures forall j :: k < j <= i ==> x < ps[j].ci
    decreases i
  {
    if i == 0 then 0 else if ps[i].ci <= x then i else SegmentFrom(ps, x, i - 1)
  }

  /** The segment `interpolate` uses, searched over the interior points. */
  function Segment(ps: seq<Point>, x: real): (k: nat)
    requires |ps| >= 2
    ensures k <= |ps| - 2
  {
    SegmentFrom(ps, x, |ps| - 2)
  }

  /** The segment holds x: its start is at most x and its end at least x;
      it is degenerate only when it is the last one, ends at ci 1 and x is 1. */
  lemma SegmentBrackets(ps: seq<Point>, x: real)
    requires WellFormed(ps) && 0.0 <= x <= 1.0
    ensures var k := Segment(ps, x);
      && ps[k].ci <= x <= ps[k + 1].ci
      && (ps[k].ci == ps[k + 1].ci <==> k == |ps| - 2 && k >= 1 && ps[k].ci == 1.0 && x == 1.0)
  {
    var k := Segment(ps, x);
    if k + 1 <= |ps| - 2 {
      assert x < ps[k + 1].ci;
    }
  }

  /** The straight line through (c0, h0) and (c1, h1) at x, written as the
      source evaluates it. */
  function Lerp(c0: real, h0: real, c1: real, h1: real, x: real): real
    requires c1 != c0
  {
    h0 + Scaled(h1 - h0, x - c0, c1 - c0)
  }

  /** g * n / d, the rise over the run n of a segment of width d. */
  function Scaled(g: real, n: real, d: real): real
    requires d != 0.0
  {
    g * n / d
  }

  /** a / d lies in [0, 1] when a does in [0, d]. */
  lemma RatioUnit(a: real, d: real)
    requires 0.0 < d && 0.0 <= a <= d
    ensures 0.0 <= a / d <= 1.0
  {
    assert (a / d) * d == a;
  }

  /** g * f lies between 0 and g when f does in [0, 1]. */
  lemma ScaleUnit(g: real, f: real)
    requires 0.0 <= f <= 1.0
    ensures 0.0 <= g ==> 0.0 <= g * f <= g
    ensures g <= 0.0 ==> g <= g * f <= 0.0
  {
    assert g - g * f == g * (1.0 - f);
    if 0.0 <= g {
      MulNonneg(g, f);
      MulNonneg(g, 1.0 - f);
    } else {
      MulNonneg(-g, f);
      MulNonneg(-g, 1.0 - f);
    }
  }

  /** A product of two non-negative reals is non-negative. */
  lemma MulNonneg(a: real, b: real)
    requires 0.0 <= a && 0.0 <= b
    ensures 0.0 <= a * b
  {
  }

  lemma LerpBetween(c0: real, h0: real, c1: real, h1: real, x: real)
    requires c0 < c1 && c0 <= x <= c1
    ensures var r := Lerp(c0, h0, c1, h1, x);
      (h0 <= h1 ==> h0 <= r <= h1) && (h1 <= h0 ==> h1 <= r <= h0)
  {
    ScaledRatio(h1 - h0, x - c0, c1 - c0);
  }

  /** g * n / d lies between 0 and g when n does in [0, d]. */
  lemma ScaledRatio(g: real, n: real, d: real)
    requires 0.0 < d && 0.0 <= n <= d
    ensures 0.0 <= g ==> 0.0 <= Scaled(g, n, d) <= g
    ensures g <= 0.0 ==> g <= Scaled(g, n, d) <= 0.0
  {
    var f := n / d;
    RatioUnit(n, d);
    MulDivAssoc(g, n, d);
    ScaleUnit(g, f);
  }

  lemma MulDivAssoc(g: real, n: real, d: real)
    requires d != 0.0
    ensures g * n / d == g * (n / d)
  {
    assert (n / d) * d == n;
    assert (g * (n / d)) * d == g * n;
  }

  /** `interpolate(x)` as written: a degenerate segment divides by zero. */
  function InterpolateAsWritten(ps: seq<Point>, x: real): (r: Result<real, MapError>)
    requires |ps| >= 2
    ensures r.Failure? ==> r.error == DivisionByZero
  {
    var x' := ClampUnit(x);
    var k := Segment(ps, x');
    if ps[k + 1].ci - ps[k].ci == 0.0 then Failure(DivisionByZero)
    else Success(Lerp(ps[k].ci, ps[k].hue, ps[k + 1].ci, ps[k + 1].hue, x'))
  }

  /** `interpolate(x)` with a degenerate segment taken at its end: the hue
      of the segment's last point. */
  function InterpolateHue(ps: seq<Point>, x: real): real
    requires |ps| >= 2
  {
    var x' := ClampUnit(x);
    var k := Segment(ps, x');
    if ps[k + 1].ci - ps[k].ci == 0.0 then ps[k + 1].hue
    else Lerp(ps[k].ci, ps[k].hue, ps[k + 1].ci, ps[k + 1].hue, x')
  }

  /** The interpolated hue lies between the hues of the segment that holds
      the clamped argument, hence in [0, 1]. */
  lemma InterpolateBetween(ps: seq<Point>, x: real)
    requires WellFormed(ps)
    ensures var k := Segment(ps, ClampUnit(x)); var r := InterpolateHue(ps, x);
      && ps[k].ci <= ClampUnit(x) <= ps[k + 1].ci
      && (ps[k].hue <= ps[k + 1].hue ==> ps[k].hue <= r <= ps[k + 1].hue)
      && (ps[k + 1].hue <= ps[k].hue ==> ps[k + 1].hue <= r <= ps[k].hue)
      && 0.0 <= r <= 1.0
  {
    var x' := ClampUnit(x);
    var k := Segment(ps, x');
    SegmentBrackets(ps, x');
    if ps[k + 1].ci - ps[k].ci != 0.0 {
      LerpBetween(ps[k].ci, ps[k].hue, ps[k + 1].ci, ps[k + 1].hue, x');
    }
  }

  /** As written, interpolation fails exactly when the clamped argument
      is 1 and the last interior point sits at ci 1; otherwise it agrees
      with the corrected version. */
  lemma InterpolateFails(ps: seq<Point>, x: real)
    requires WellFormed(ps)
    ensures InterpolateAsWritten(ps, x).Failure? <==>
      ClampUnit(x) == 1.0 && |ps| >= 3 && ps[|ps| - 2].ci == 1.0
    ensures InterpolateAsWritten(ps, x).Success? ==> InterpolateAsWritten(ps, x).value == InterpolateHue(ps, x)
  {
    SegmentBrackets(ps, ClampUnit(x));
    if ClampUnit(x) == 1.0 && |ps| >= 3 && ps[|ps| - 2].ci == 1.0 {
      assert Segment(ps, 1.0) == |ps| - 2;
    }
  }

  /** A graph reachable by an ordinary insert on which interpolating at 1
      divides by zero as written. */
  lemma DivisionByZeroExample()
    ensures var ps := Inserted([Point(0.0, 0.0), Point(1.0, 1.0)], 1, Point(1.0, 0.5), false);
      && ps == Success([Point(0.0, 0.0), Point(1.0, 0.5), Point(1.0, 1.0)])
      && WellFormed(ps.value)
      && InterpolateAsWritten(ps.value, 1.0) == Failure(DivisionByZero)
      && InterpolateHue(ps.value, 1.0) == 1.0
  {
    var ps := [Point(0.0, 0.0), Point(1.0, 0.5), Point(1.0, 1.0)];
    assert [Point(0.0, 0.0), Point(1.0, 1.0)][..1] + [Point(1.0, 0.5)] + [Point(0.0, 0.0), Point(1.0, 1.0)][1..] == ps;
    assert Segment(ps, 1.0) == 1;
  }
}
