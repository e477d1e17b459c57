/** `ColourMap`: one hue graph per colour (red, green, blue) and the
    history of edits, with the undo and the redo of one recorded edit. */
module ColourMaps {
  import opened Wrappers
  import opened HuePoints
  import opened HueGraphs
  import opened ActionHistories

  const HueNames: seq<string> := ["red", "grn", "blu"]
  const NumHues: int := |HueNames|
  const DefaultFirstHues: seq<real> := [0.0, 0.0, 0.0]
  const DefaultLastHues: seq<real> := [1.0, 1.0, 1.0]

  /** The graph `hueGraphs[hueI]` selects: a Python list index, negative
      values counting from the end. */
  function HueIndex(hueI: int): (r: Option<nat>)
    ensures r.Some? <==> -NumHues <= hueI < NumHues
    ensures r.Some? ==> r.value < NumHues && (r.value - hueI) % NumHues == 0
  {
    if 0 <= hueI < NumHues then Some(hueI)
    else if -NumHues <= hueI < 0 then Some(hueI + NumHues)
    else None
  }

  /** `_undo(action)` on the points of the graph it names: an insert is
      deleted, a delete re-inserted (unforced) from the old point, and
      anything else set back to the old point. */
  function UndoPoints(ps: seq<Point>, action: Action): Result<seq<Point>, MapError>
    requires |ps| >= 2
  {
    if action.typeStr == "insert" then Deleted(ps, action.elementI)
    else if action.typeStr == "delete" then InsertTuple(ps, action.elementI, action.chTupleOld, false)
    else ChangeTuple(ps, action.elementI, action.chTupleOld)
  }

  /** `_redo(action)`: an insert is re-inserted (unforced) from the new
      point, a delete deleted again, anything else set to the new point. */
  function RedoPoints(ps: seq<Point>, action: Action): Result<seq<Point>, MapError>
    requires |ps| >= 2
  {
    if action.typeStr == "insert" then InsertTuple(ps, action.elementI, action.chTupleNew, false)
    else if action.typeStr == "delete" then Deleted(ps, action.elementI)
    else ChangeTuple(ps, action.elementI, action.chTupleNew)
  }

  /** An edit whose point is missing fails only after its index passed
      the guard: an action with a bad index reports the index. */
  lemma MissingTupleAfterGuard(ps: seq<Point>, action: Action)
    requires |ps| >= 2 && action.typeStr != "insert" && action.chTupleOld.None?
    ensures action.typeStr == "delete" ==>
      UndoPoints(ps, action) == if 1 <= action.elementI <= |ps| - 1 then Failure(MissingTuple) else Failure(BadReplacement(action.elementI))
    ensures action.typeStr != "delete" ==>
      UndoPoints(ps, action) == if 0 <= action.elementI <= |ps| - 1 then Failure(MissingTuple) else Failure(BadElement(action.elementI))
  {
  }

  /** The source's own case: `_Action(0, 99, 'delete', None, None)` on a
      new graph is refused for its index, not for its missing point. */
  lemma BadIndexBeforeMissingTuple()
    ensures UndoPoints([Point(0.0, 0.0), Point(1.0, 1.0)], Action(0, 99, "delete", None, None)) == Failure(BadReplacement(99))
    ensures UndoPoints([Point(0.0, 0.0), Point(1.0, 1.0)], Action(0, 99, "change", None, None)) == Failure(BadElement(99))
  {
  }

  /** The action records how ps1 came from ps0: it redoes to ps1, and
      for a delete or a change its old point is the one ps0 held. */
  predicate Records(ps0: seq<Point>, ps1: seq<Point>, action: Action)
    requires |ps0| >= 2
  {
    && RedoPoints(ps0, action) == Success(ps1)
    && (action.typeStr != "insert" ==> 0 <= action.elementI < |ps0| && action.chTupleOld == Some(ps0[action.elementI]))
  }

  /** Undoing an action that records how a graph's points were reached
      gives the points back as they were before it. */
  lemma UndoRestores(ps0: seq<Point>, ps1: seq<Point>, action: Action)
    requires WellFormed(ps0) && Records(ps0, ps1, action) && action.typeStr in AcceptedTypes
    ensures |ps1| >= 2 && UndoPoints(ps1, action) == Success(ps0)
  {
    var i := action.elementI;
    if action.typeStr == "insert" {
      DeleteAfterInsert(ps0, i, action.chTupleNew.value, false);
    } else if action.typeStr == "delete" {
      InsertAfterDelete(ps0, i);
    } else {
      ChangeRestores(ps0, i, action.chTupleNew.value);
    }
  }

  /** Redoing a delete right after undoing it gives the points back. */
  lemma RedoAfterUndoDelete(ps1: seq<Point>, action: Action)
    requires |ps1| >= 2 && action.typeStr == "delete" && UndoPoints(ps1, action).Success?
    ensures var ps0 := UndoPoints(ps1, action).value; |ps0| >= 2 && RedoPoints(ps0, action) == Success(ps1)
  {
    DeleteAfterInsert(ps1, action.elementI, action.chTupleOld.value, false);
  }

  /** Redoing an insert right after undoing it gives the points back. */
  lemma RedoAfterUndoInsert(ps1: seq<Point>, action: Action)
    requires WellFormed(ps1) && action.typeStr == "insert" && UndoPoints(ps1, action).Success?
    requires action.chTupleNew == Some(ps1[action.elementI])
    ensures var ps0 := UndoPoints(ps1, action).value; |ps0| >= 2 && RedoPoints(ps0, action) == Success(ps1)
  {
    InsertAfterDelete(ps1, action.elementI);
  }

  class ColourMap {
    var hueGraphs: seq<HueGraph>
    var actionHistory: ActionHistory

    /** One valid graph per colour, no two the same object, and a valid
        history. */
    ghost predicate Valid()
      reads this, hueGraphs, actionHistory
    {
      && |hueGraphs| == NumHues
      && (forall i, j :: 0 <= i < j < |hueGraphs| ==> hueGraphs[i] != hueGraphs[j])
      && (forall i :: 0 <= i < |hueGraphs| ==> hueGraphs[i].Valid())
      && actionHistory.Valid()
    }

    /** `ColourMap()`: each colour's graph from its default endpoint hues,
        and an empty history. */
    constructor Init()
      ensures Valid() && fresh(hueGraphs) && fresh(actionHistory)
      ensures forall i :: 0 <= i < NumHues ==>
        hueGraphs[i].Points() == [Point(0.0, DefaultFirstHues[i]), Point(1.0, DefaultLastHues[i])]
      ensures actionHistory.actionList == [] && actionHistory.numUndoableActions == 0
    {
      var graphs: seq<HueGraph> := [];
      for hueI := 0 to NumHues
        invariant |graphs| == hueI && fresh(graphs)
        invariant forall i, j :: 0 <= i < j < hueI ==> graphs[i] != graphs[j]
        invariant forall i :: 0 <= i < hueI ==>
          graphs[i].Valid() && graphs[i].Points() == [Point(0.0, DefaultFirstHues[i]), Point(1.0, DefaultLastHues[i])]
      {
        var g := new HueGraph.Init(DefaultFirstHues[hueI], DefaultLastHues[hueI]);
        graphs := graphs + [g];
      }
      hueGraphs := graphs;
      actionHistory := new ActionHistory.Init();
    }

    /** `_undo(action)`. */
    method Undo(action: Action) returns (outcome: Outcome<MapError>)
      requires Valid()
      modifies hueGraphs
      ensures Valid()
      ensures HueIndex(action.hueI).None? ==>
        outcome == Fail(NoSuchHue(action.hueI)) && forall j :: 0 <= j < NumHues ==> hueGraphs[j].Points() == old(hueGraphs[j].Points())
      ensures HueIndex(action.hueI).Some? ==>
        var k := HueIndex(action.hueI).value;
        var spec := UndoPoints(old(hueGraphs[k].Points()), action);
        && (outcome.Pass? <==> spec.Success?)
        && (spec.Success? ==> hueGraphs[k].Points() == spec.value)
        && (spec.Failure? ==> outcome == Fail(spec.error) && hueGraphs[k].Points() == old(hueGraphs[k].Points()))
        && forall j :: 0 <= j < NumHues && j != k ==> hueGraphs[j].Points() == old(hueGraphs[j].Points())
    {
      var k := HueIndex(action.hueI);
      if k.None? {
        return Fail(NoSuchHue(action.hueI));
      }
      var g := hueGraphs[k.value];
      assert forall j :: 0 <= j < NumHues && j != k.value ==> hueGraphs[j] != g;
      if action.typeStr == "insert" {
        outcome := g.Delete(action.elementI);
      } else if action.typeStr == "delete" {
        outcome := g.Insert(action.elementI, action.chTupleOld, false);
      } else {
        outcome := g.SetItem(action.elementI, action.chTupleOld);
      }
    }

    /** `_redo(action)`. */
    method Redo(action: Action) returns (outcome: Outcome<MapError>)
      requires Valid()
      modifies hueGraphs
      ensures Valid()
      ensures HueIndex(action.hueI).None? ==>
        outcome == Fail(NoSuchHue(action.hueI)) && forall j :: 0 <= j < NumHues ==> hueGraphs[j].Points() == old(hueGraphs[j].Points())
      ensures HueIndex(action.hueI).Some? ==>
        var k := HueIndex(action.hueI).value;
        var spec := RedoPoints(old(hueGraphs[k].Points()), action);
        && (outcome.Pass? <==> spec.Success?)
        && (spec.Success? ==> hueGraphs[k].Points() == spec.value)
        && (spec.Failure? ==> outcome == Fail(spec.error) && hueGraphs[k].Points() == old(hueGraphs[k].Points()))
        && forall j :: 0 <= j < NumHues && j != k ==> hueGraphs[j].Points() == old(hueGraphs[j].Points())
    {
      var k := HueIndex(action.hueI);
      if k.None? {
        return Fail(NoSuchHue(action.hueI));
      }
      var g := hueGraphs[k.value];
      assert forall j :: 0 <= j < NumHues && j != k.value ==> hueGraphs[j] != g;
      if action.typeStr == "insert" {
        outcome := g.Insert(action.elementI, action.chTupleNew, false);
      } else if action.typeStr == "delete" {
        outcome := g.Delete(action.elementI);
      } else {
        outcome := g.SetItem(action.elementI, action.chTupleNew);
      }
    }
  }
}
