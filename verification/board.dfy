/** The two pieces of board logic of the board REST controller: turning a
    list of document-changed events into a card change request, and the
    position a new card gets when the request names none. */
module Boards {
  import opened Wrappers
  import opened JavaLang

  const LANE_ID_PATH: string := "laneId"
  const POSITION_PATH: string := "position"
  const NO_CHANGES_MESSAGE: string := "no changes requested"

  /** The value `getValueAsInteger(defaultValue)` falls back to here. */
  const INTEGER_DEFAULT: Int32 := -1

  /** The operation of a JSONDocumentChangedEvent; only `replace` is used. */
  datatype Operation = Replace | OtherOperation(name: string)

  /** A JSONDocumentChangedEvent. How its JSON value converts to an integer
      belongs to the event class and is not modelled: `intValue` is the
      converted value, `None` when the value is missing. */
  datatype ChangeEvent = ChangeEvent(operation: Operation, path: string, intValue: Option<Int32>)

  /** BoardCardChangeRequest; an unset builder property is `None`. */
  datatype CardChangeRequest = CardChangeRequest(newLaneId: Option<Int32>, newPosition: Option<Int32>)

  const EMPTY_REQUEST: CardChangeRequest := CardChangeRequest(None, None)

  /** `change.getValueAsInteger(defaultValue)`. */
  function ValueAsInteger(e: ChangeEvent, defaultValue: Int32): Int32 {
    if e.intValue.Some? then e.intValue.value else defaultValue
  }

  /** The event is a replace of the given path. */
  predicate Sets(e: ChangeEvent, path: string) {
    e.operation == Replace && e.path == path
  }

  /** Event `i` is the last one that replaces `path`. */
  predicate LastSetting(changes: seq<ChangeEvent>, path: string, i: int) {
    0 <= i < |changes| && Sets(changes[i], path) &&
    forall j :: i < j < |changes| ==> !Sets(changes[j], path)
  }

  /** What the events say about one property: the value of the last event
      that replaces it, or nothing when none does. */
  predicate Describes(changes: seq<ChangeEvent>, path: string, v: Option<Int32>) {
    (v.None? <==> forall i :: 0 <= i < |changes| ==> !Sets(changes[i], path)) &&
    forall i :: 0 <= i < |changes| && LastSetting(changes, path, i) ==> v == Some(ValueAsInteger(changes[i], INTEGER_DEFAULT))
  }

  /** The builder call one event makes, if any; later calls override earlier ones. */
  function ApplyChange(req: CardChangeRequest, e: ChangeEvent): CardChangeRequest {
    if e.operation != Replace then req
    else
      var withLane := if e.path == LANE_ID_PATH then req.(newLaneId := Some(ValueAsInteger(e, INTEGER_DEFAULT))) else req;
      if e.path == POSITION_PATH then withLane.(newPosition := Some(ValueAsInteger(e, INTEGER_DEFAULT))) else withLane
  }

  /** One more event keeps `Describes` for a path, given how the property it
      sets changed. */
  lemma DescribesStep(changes: seq<ChangeEvent>, e: ChangeEvent, path: string, before: Option<Int32>, after: Option<Int32>)
    requires Describes(changes, path, before)
    requires Sets(e, path) ==> after == Some(ValueAsInteger(e, INTEGER_DEFAULT))
    requires !Sets(e, path) ==> after == before
    ensures Describes(changes + [e], path, after)
  {
    var all := changes + [e];
    forall i | 0 <= i < |changes| ensures all[i] == changes[i] { }
    if Sets(e, path) {
      assert LastSetting(all, path, |changes|);
      forall i | LastSetting(all, path, i) ensures i == |changes| { }
    } else {
      forall i | LastSetting(all, path, i) ensures LastSetting(changes, path, i) { }
      if before.Some? {
        var k :| 0 <= k < |changes| && Sets(changes[k], path);
        assert Sets(all[k], path);
      }
    }
  }

  /** `createBoardCardChangeRequest(changes)`: an empty list is an error;
      otherwise each replace of `laneId` or `position` sets that property to
      the event's integer value (-1 when it has none), later events
      overriding earlier ones, and every other event is ignored. */
  method CreateBoardCardChangeRequest(changes: seq<ChangeEvent>) returns (r: Result<CardChangeRequest, string>)
    ensures r.Err? <==> |changes| == 0
    ensures r.Err? ==> r.error == NO_CHANGES_MESSAGE
    ensures r.Ok? ==> Describes(changes, LANE_ID_PATH, r.value.newLaneId)
    ensures r.Ok? ==> Describes(changes, POSITION_PATH, r.value.newPosition)
  {
    if |changes| == 0 {
      return Err(NO_CHANGES_MESSAGE);
    }
    var request := EMPTY_REQUEST;
    var k := 0;
    while k < |changes|
      invariant 0 <= k <= |changes|
      invariant Describes(changes[..k], LANE_ID_PATH, request.newLaneId)
      invariant Describes(changes[..k], POSITION_PATH, request.newPosition)
    {
      var next := ApplyChange(request, changes[k]);
      assert changes[..k + 1] == changes[..k] + [changes[k]];
      DescribesStep(changes[..k], changes[k], LANE_ID_PATH, request.newLaneId, next.newLaneId);
      DescribesStep(changes[..k], changes[k], POSITION_PATH, request.newPosition, next.newPosition);
      request := next;
      k := k + 1;
    }
    assert changes[..k] == changes;
    return Ok(request);
  }

  /** A non-empty list without a replace of a known path gives a request
      with nothing set, and no error. It is a lemma about
      `CreateBoardCardChangeRequest`, written as a method because that
      operation is a method: its result is the method's result. */
  method NoApplicableChangeGivesEmptyRequest(changes: seq<ChangeEvent>) returns (r: Result<CardChangeRequest, string>)
    requires |changes| > 0
    requires forall i :: 0 <= i < |changes| ==> !Sets(changes[i], LANE_ID_PATH) && !Sets(changes[i], POSITION_PATH)
    ensures r == Ok(EMPTY_REQUEST)
  {
    r := CreateBoardCardChangeRequest(changes);
  }

  /** `addCard`: the requested position, or Integer.MAX_VALUE (the end of the
      lane) when the request has none. */
  function AddCardPosition(requested: Option<Int32>): (r: Int32)
    ensures requested.Some? ==> r == requested.value
    ensures requested.None? ==> r == MAX_INT
  {
    if requested.Some? then requested.value else MAX_INT
  }

  /** The default position is not before any position a request can name. */
  lemma DefaultPositionIsLast(requested: Option<Int32>)
    ensures AddCardPosition(requested) <= AddCardPosition(None)
  {
  }
}
