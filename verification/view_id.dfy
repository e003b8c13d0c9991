/** Window and view identifiers, as far as the views repository and the picking
    storage use them. A ViewId is an ordered list of parts: part 0 is the
    window id, part 1 the view id part, and any further parts follow. */
module ViewIds {
  import opened Wrappers

  datatype WindowId = WindowId(json: string)

  datatype ViewId = ViewId(windowId: WindowId, viewIdPart: string, otherParts: seq<string>)

  /** JSONViewDataType. */
  datatype ViewType = Grid | List | IncludedView

  /** `JSONViewDataType.values()`. */
  const ALL_VIEW_TYPES: seq<ViewType> := [Grid, List, IncludedView]

  /** `ViewId.ofParts(windowId, viewIdPart, otherParts...)`. */
  function OfParts(windowId: WindowId, viewIdPart: string, otherParts: seq<string>): ViewId {
    ViewId(windowId, viewIdPart, otherParts)
  }

  /** `getPart(index)`; an index past the last part is `None`. */
  function GetPart(v: ViewId, index: nat): (r: Option<string>)
    ensures index == 0 ==> r == Some(v.windowId.json)
    ensures index == 1 ==> r == Some(v.viewIdPart)
    ensures r.None? <==> index >= 2 + |v.otherParts|
  {
    if index == 0 then Some(v.windowId.json)
    else if index == 1 then Some(v.viewIdPart)
    else if index - 2 < |v.otherParts| then Some(v.otherParts[index - 2])
    else None
  }

  /** The parts given to OfParts are read back in order. */
  lemma PartsRoundTrip(windowId: WindowId, viewIdPart: string, otherParts: seq<string>, i: nat)
    requires i < |otherParts|
    ensures GetPart(OfParts(windowId, viewIdPart, otherParts), 1) == Some(viewIdPart)
    ensures GetPart(OfParts(windowId, viewIdPart, otherParts), 2 + i) == Some(otherParts[i])
    ensures OfParts(windowId, viewIdPart, otherParts).windowId == windowId
  {
  }
}
