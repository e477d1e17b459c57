/** The edits the colour-map editor records (`_Action` and its three
    kinds) and the undo/redo history over them (`ActionHistory`). */
module ActionHistories {
  import opened Wrappers
  import opened HuePoints

  /** The type strings `_Action` accepts. */
  const AcceptedTypes: seq<string> := ["insert", "delete", "change"]

  /** One recorded edit: which hue graph, which element, what kind, and
      the point before and after (absent for an insert and a delete
      respectively). */
  datatype Action = Action(hueI: int, elementI: int, typeStr: string, chTupleOld: Option<Point>, chTupleNew: Option<Point>)

  /** `_Action(...)`: the type string must be one of the accepted ones. */
  function NewAction(hueI: int, elementI: int, typeStr: string, chTupleOld: Option<Point>, chTupleNew: Option<Point>): (r: Result<Action, MapError>)
    ensures r.Success? <==> typeStr in AcceptedTypes
    ensures r.Failure? ==> r.error == UnknownType(typeStr)
    ensures r.Success? ==>
      && r.value.typeStr == typeStr && r.value.hueI == hueI && r.value.elementI == elementI
      && r.value.chTupleOld == chTupleOld && r.value.chTupleNew == chTupleNew
  {
    if typeStr !in AcceptedTypes then Failure(UnknownType(typeStr))
    else Success(Action(hueI, elementI, typeStr, chTupleOld, chTupleNew))
  }

  /** `InsertAction`: never refused; only the new point is recorded. */
  function InsertAction(hueI: int, elementI: int, chTupleNew: Point): (r: Result<Action, MapError>)
    ensures r.Success? && r.value.typeStr == "insert"
    ensures r.value.chTupleOld.None? && r.value.chTupleNew == Some(chTupleNew)
  {
    NewAction(hueI, elementI, "insert", None, Some(chTupleNew))
  }

  /** `DeleteAction`: never refused; only the old point is recorded. */
  function DeleteAction(hueI: int, elementI: int, chTupleOld: Point): (r: Result<Action, MapError>)
    ensures r.Success? && r.value.typeStr == "delete"
    ensures r.value.chTupleOld == Some(chTupleOld) && r.value.chTupleNew.None?
  {
    NewAction(hueI, elementI, "delete", Some(chTupleOld), None)
  }

  /** `ChangeAction`: never refused; both points are recorded. */
  function ChangeAction(hueI: int, elementI: int, chTupleOld: Point, chTupleNew: Point): (r: Result<Action, MapError>)
    ensures r.Success? && r.value.typeStr == "change"
    ensures r.value.chTupleOld == Some(chTupleOld) && r.value.chTupleNew == Some(chTupleNew)
  {
    NewAction(hueI, elementI, "change", Some(chTupleOld), Some(chTupleNew))
  }

  /** `ActionHistory`: the first numUndoableActions actions are done and
      can be undone in reverse order; the rest have been undone and can be
      redone in order. */
  class ActionHistory {
    var actionList: seq<Action>
    var numUndoableActions: int
    var numRedoableActions: int

    ghost predicate Valid()
      reads this
    {
      0 <= numUndoableActions && 0 <= numRedoableActions
      && numUndoableActions + numRedoableActions == |actionList|
    }

    constructor Init()
      ensures Valid() && actionList == [] && numUndoableActions == 0 && numRedoableActions == 0
    {
      actionList := [];
      numUndoableActions := 0;
      numRedoableActions := 0;
    }

    /** `append(action)`: the redo tail is dropped, the action is done. */
    method Append(action: Action)
      requires Valid()
      modifies this
      ensures Valid()
      ensures actionList == old(actionList[..numUndoableActions]) + [action]
      ensures numUndoableActions == old(numUndoableActions) + 1 && numRedoableActions == 0
    {
      if numRedoableActions > 0 {
        actionList := actionList[..numUndoableActions];
      }
      actionList := actionList + [action];
      numUndoableActions := numUndoableActions + 1;
      numRedoableActions := 0;
    }

    /** `getLast()`: the last done action, now counted as undone; None
        when nothing is left to undo. */
    method GetLast() returns (r: Option<Action>)
      requires Valid()
      modifies this
      ensures Valid() && actionList == old(actionList)
      ensures old(numUndoableActions) == 0 ==> r.None? && numUndoableActions == 0 && numRedoableActions == old(numRedoableActions)
      ensures old(numUndoableActions) > 0 ==>
        && r == Some(actionList[old(numUndoableActions) - 1])
        && numUndoableActions == old(numUndoableActions) - 1
        && numRedoableActions == old(numRedoableActions) + 1
    {
      if numUndoableActions <= 0 {
        return None;
      }
      numUndoableActions := numUndoableActions - 1;
      numRedoableActions := numRedoableActions + 1;
      return Some(actionList[numUndoableActions]);
    }

    /** `getNext()`: the first undone action, now counted as done again;
        None when nothing is left to redo. */
    method GetNext() returns (r: Option<Action>)
      requires Valid()
      modifies this
      ensures Valid() && actionList == old(actionList)
      ensures old(numRedoableActions) == 0 ==> r.None? && numRedoableActions == 0 && numUndoableActions == old(numUndoableActions)
      ensures old(numRedoableActions) > 0 ==>
        && r == Some(actionList[old(numUndoableActions)])
        && numUndoableActions == old(numUndoableActions) + 1
        && numRedoableActions == old(numRedoableActions) - 1
    {
      if numRedoableActions <= 0 {
        return None;
      }
      numUndoableActions := numUndoableActions + 1;
      numRedoableActions := numRedoableActions - 1;
      return Some(actionList[numUndoableActions - 1]);
    }
  }

  /** An undo followed by a redo hands back the same action and leaves the
      history as it was. */
  method LastThenNext(h: ActionHistory) returns (undone: Option<Action>, redone: Option<Action>)
    requires h.Valid() && h.numUndoableActions > 0
    modifies h
    ensures undone.Some? && undone == redone
    ensures h.Valid() && h.actionList == old(h.actionList)
    ensures h.numUndoableActions == old(h.numUndoableActions) && h.numRedoableActions == old(h.numRedoableActions)
  {
    undone := h.GetLast();
    redone := h.GetNext();
  }

  /** A redo followed by an undo hands back the same action and leaves the
      history as it was. */
  method NextThenLast(h: ActionHistory) returns (redone: Option<Action>, undone: Option<Action>)
    requires h.Valid() && h.numRedoableActions > 0
    modifies h
    ensures redone.Some? && undone == redone
    ensures h.Valid() && h.actionList == old(h.actionList)
    ensures h.numUndoableActions == old(h.numUndoableActions) && h.numRedoableActions == old(h.numRedoableActions)
  {
    redone := h.GetNext();
    undone := h.GetLast();
  }
}
