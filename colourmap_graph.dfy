/** `_HueGraph`: the relation between colour-index fraction and hue
    fraction of one colour, kept as the two endpoint hues and the list of
    interior points, with the point count alongside. */
module HueGraphs {
  import opened Wrappers
  import opened HuePoints

  /** The whole list around an interior list l, edited before whole-list
      index j, that is before interior index j - 1. */
  lemma WrapInsert(a: Point, l: seq<Point>, b: Point, j: int, p: Point)
    requires 1 <= j <= |l| + 1
    ensures [a] + (l[..j - 1] + [p] + l[j - 1..]) + [b] == ([a] + l + [b])[..j] + [p] + ([a] + l + [b])[j..]
  {
    var w := [a] + l + [b];
    assert w[..j] == [a] + l[..j - 1];
    assert w[j..] == l[j - 1..] + [b];
  }

  lemma WrapDelete(a: Point, l: seq<Point>, b: Point, j: int)
    requires 1 <= j <= |l|
    ensures [a] + (l[..j - 1] + l[j..]) + [b] == ([a] + l + [b])[..j] + ([a] + l + [b])[j + 1..]
  {
    var w := [a] + l + [b];
    assert w[..j] == [a] + l[..j - 1];
    assert w[j + 1..] == l[j..] + [b];
  }

  class HueGraph {
    var firstH: real
    var lastH: real
    var internalList: seq<Point>
    var numPoints: int

    /** The whole list as `__getitem__` shows it: (0, firstH), the
        interior points, (1, lastH). */
    function Points(): seq<Point>
      reads this
    {
      [Point(0.0, firstH)] + internalList + [Point(1.0, lastH)]
    }

    /** The rules of the class and the bookkeeping of the point count. */
    ghost predicate Valid()
      reads this
    {
      numPoints == 2 + |internalList| && WellFormed(Points())
    }

    /** The object once both endpoint hues have passed their checks. */
    constructor Init(firstH: real, lastH: real)
      requires 0.0 <= firstH <= 1.0 && 0.0 <= lastH <= 1.0
      ensures Valid() && Points() == [Point(0.0, firstH), Point(1.0, lastH)] && numPoints == 2
    {
      this.firstH := firstH;
      this.lastH := lastH;
      internalList := [];
      numPoints := 2;
    }

    /** `_HueGraph(firstH, lastH)`: firstH is checked, then lastH. */
    static method New(firstH: real, lastH: real) returns (r: Result<HueGraph, MapError>)
      ensures r.Success? <==> 0.0 <= firstH <= 1.0 && 0.0 <= lastH <= 1.0
      ensures !(0.0 <= firstH <= 1.0) ==> r == Failure(FirstHOutOfRange(firstH))
      ensures 0.0 <= firstH <= 1.0 && !(0.0 <= lastH <= 1.0) ==> r == Failure(LastHOutOfRange(lastH))
      ensures r.Success? ==> fresh(r.value) && r.value.Valid() && r.value.Points() == [Point(0.0, firstH), Point(1.0, lastH)]
    {
      if firstH < 0.0 || firstH > 1.0 {
        return Failure(FirstHOutOfRange(firstH));
      }
      if lastH < 0.0 || lastH > 1.0 {
        return Failure(LastHOutOfRange(lastH));
      }
      var g := new HueGraph.Init(firstH, lastH);
      return Success(g);
    }

    /** `__getitem__(i)`: a negative i counts from the end; the endpoints
        always report ci 0 and 1. */
    function Get(i: int): (r: Result<Point, MapError>)
      reads this
      requires Valid()
      ensures r.Success? <==> -numPoints <= i < numPoints
      ensures r.Failure? ==> r.error == BadElement(if i < 0 then numPoints + i else i)
      ensures r.Success? ==> r.value == Points()[if i < 0 then numPoints + i else i]
      ensures r.Success? && (i == 0 || i == -numPoints) ==> r.value == Point(0.0, firstH)
      ensures r.Success? && (i == -1 || i == numPoints - 1) ==> r.value == Point(1.0, lastH)
    {
      var j := if i < 0 then numPoints + i else i;
      if j < 0 || j > numPoints - 1 then Failure(BadElement(j))
      else if j == 0 then Success(Point(0.0, firstH))
      else if j == numPoints - 1 then Success(Point(1.0, lastH))
      else Success(internalList[j - 1])
    }

    /** `insert(i, chTuple, force)`; the tuple is unpacked after the index
        guard. */
    method Insert(i: int, chTuple: Option<Point>, force: bool) returns (outcome: Outcome<MapError>)
      requires Valid()
      modifies this
      ensures Valid() && numPoints == |Points()|
      ensures var spec := InsertTuple(old(Points()), i, chTuple, force);
        && (outcome.Pass? <==> spec.Success?)
        && (spec.Success? ==> Points() == spec.value)
        && (spec.Failure? ==> outcome == Fail(spec.error) && Points() == old(Points()))
    {
      if i < 1 || i > numPoints - 1 {
        return Fail(BadReplacement(i));
      }
      if chTuple.None? {
        return Fail(MissingTuple);
      }
      var t := chTuple.value;
      var c := CheckCi(t.ci, Get(i - 1).value.ci, Get(i).value.ci, force);
      if c.Failure? {
        return Fail(c.error);
      }
      var h := CheckHue(t.hue, force);
      if h.Failure? {
        return Fail(h.error);
      }
      ghost var ps := Points();
      assert Inserted(ps, i, t, force) == Success(ps[..i] + [Point(c.value, h.value)] + ps[i..]);
      InsertedWellFormed(ps, i, t, force);
      WrapInsert(Point(0.0, firstH), internalList, Point(1.0, lastH), i, Point(c.value, h.value));
      internalList := internalList[..i - 1] + [Point(c.value, h.value)] + internalList[i - 1..];
      numPoints := 2 + |internalList|;
      return Pass;
    }

    /** `delete(i)`, with the guard against the last element at N-2 (see
        the delete finding). */
    method Delete(i: int) returns (outcome: Outcome<MapError>)
      requires Valid()
      modifies this
      ensures Valid() && numPoints == |Points()|
      ensures var spec := Deleted(old(Points()), i);
        && (outcome.Pass? <==> spec.Success?)
        && (spec.Success? ==> Points() == spec.value)
        && (spec.Failure? ==> outcome == Fail(spec.error) && Points() == old(Points()))
    {
      if i < 1 {
        return Fail(DeleteFirst);
      }
      if i > numPoints - 2 {
        return Fail(DeleteLast);
      }
      ghost var ps := Points();
      DeletedWellFormed(ps, i);
      WrapDelete(Point(0.0, firstH), internalList, Point(1.0, lastH), i);
      internalList := internalList[..i - 1] + internalList[i..];
      numPoints := 2 + |internalList|;
      return Pass;
    }

    /** `__setitem__(i, chTuple)`; the tuple is unpacked after the index
        guard. */
    method SetItem(i: int, chTuple: Option<Point>) returns (outcome: Outcome<MapError>)
      requires Valid()
      modifies this
      ensures Valid() && numPoints == old(numPoints)
      ensures var spec := ChangeTuple(old(Points()), i, chTuple);
        && (outcome.Pass? <==> spec.Success?)
        && (spec.Success? ==> Points() == spec.value)
        && (spec.Failure? ==> outcome == Fail(spec.error) && Points() == old(Points()))
    {
      if i < 0 || i > numPoints - 1 {
        return Fail(BadElement(i));
      }
      if chTuple.None? {
        return Fail(MissingTuple);
      }
      var t := chTuple.value;
      var h := CheckHue(t.hue, true).value;
      ghost var ps := Points();
      ChangedWellFormed(ps, i, t);
      if i == 0 {
        firstH := h;
      } else if i == numPoints - 1 {
        lastH := h;
      } else {
        var c := CheckCi(t.ci, Get(i - 1).value.ci, Get(i + 1).value.ci, true).value;
        internalList := internalList[i - 1 := Point(c, h)];
      }
      assert Points() == Changed(ps, i, t).value;
      return Pass;
    }

    /** `unpackValues()`: the ci values and the hues, point by point. */
    method UnpackValues() returns (cis: seq<real>, hues: seq<real>)
      requires Valid()
      ensures |cis| == |hues| == numPoints
      ensures forall i :: 0 <= i < numPoints ==> Points()[i] == Point(cis[i], hues[i])
    {
      cis, hues := [], [];
      for i := 0 to numPoints
        invariant |cis| == |hues| == i
        invariant forall j :: 0 <= j < i ==> Points()[j] == Point(cis[j], hues[j])
      {
        var p := Get(i).value;
        cis, hues := cis + [p.ci], hues + [p.hue];
      }
    }

    /** `interpolate(x)`: x clamped to [0, 1], the segment searched from
        the last interior point down, then the straight line through the
        segment's ends; a degenerate segment gives the hue of its end
        (see the interpolation finding). */
    method Interpolate(x: real) returns (hue: real)
      requires Valid()
      ensures hue == InterpolateHue(Points(), x)
      ensures 0.0 <= hue <= 1.0
    {
      var local := ClampUnit(x);
      ghost var ps := Points();
      var i0 := 0;
      var i := numPoints - 2;
      while i > 0
        invariant 0 <= i <= numPoints - 2 && i0 == 0
        invariant SegmentFrom(ps, local, i) == Segment(ps, local)
        decreases i
      {
        if Get(i).value.ci <= local {
          i0 := i;
          break;
        }
        i := i - 1;
      }
      assert i0 == Segment(ps, local);
      var p0 := Get(i0).value;
      var p1 := Get(i0 + 1).value;
      assert p0 == ps[i0] && p1 == ps[i0 + 1];
      if p1.ci - p0.ci == 0.0 {
        hue := p1.hue;
      } else {
        hue := Lerp(p0.ci, p0.hue, p1.ci, p1.hue, local);
      }
      InterpolateBetween(ps, x);
    }

    /** `copy()`: a new graph with the same points. */
    method Copy() returns (g: HueGraph)
      requires Valid()
      ensures fresh(g) && g.Valid() && g.Points() == Points() && g.numPoints == numPoints
    {
      g := new HueGraph.Init(firstH, lastH);
      g.internalList := internalList;
      g.numPoints := 2 + |g.internalList|;
    }
  }
}
