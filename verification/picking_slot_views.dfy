/** The picking-slot views index storage. It stores nothing itself: a picking
    slot view belongs to one row of a picking (packageable) view, and its view
    id is the picking view's view id part under the picking-slot window, with
    the row's id as the third part. Every call finds the picking view from the
    slot view id and forwards to it. Here a picking view is modelled only by
    the slot views it holds, keyed by row id. */
module PickingSlotViews {
  import opened Wrappers
  import opened JavaLang
  import opened DocumentIds
  import opened ViewIds

  /** The window of the picking (packageable) view. Only its difference from
      the picking-slot window matters here. */
  const PICKING_VIEW_WINDOW: WindowId := WindowId("picking")

  /** The window of the picking slot views. */
  const PICKING_SLOT_VIEW_WINDOW: WindowId := WindowId("pickingSlot")

  datatype PickingError =
    | WindowIdNotMatching(viewId: ViewId)      // AdempiereException in createViewId
    | InvalidRowId(error: IdError)             // DocumentId.of on part 2
    | PickingViewNotFound(viewId: ViewId)      // EntityNotFoundException from getView
    | PickingRowNotFound(rowId: DocumentId)    // EntityNotFoundException from pickingView.getById

  /** `getWindowId()`: always the picking-slot window. */
  function GetWindowId(): (r: WindowId)
    ensures r != PICKING_VIEW_WINDOW
  {
    PICKING_SLOT_VIEW_WINDOW
  }

  /** `createViewId(pickingViewId, pickingRowId)`: fails unless the given view
      is a picking view; otherwise the slot view id of that row. */
  function CreateViewId(pickingViewId: ViewId, rowId: DocumentId): (r: Result<ViewId, PickingError>)
    ensures r.Err? <==> pickingViewId.windowId != PICKING_VIEW_WINDOW
    ensures r.Err? ==> r.error == WindowIdNotMatching(pickingViewId)
    ensures r.Ok? ==> r.value.windowId == GetWindowId()
    ensures r.Ok? ==> GetPart(r.value, 1) == Some(pickingViewId.viewIdPart)
    ensures r.Ok? ==> GetPart(r.value, 2) == Some(ToJson(rowId))
  {
    if pickingViewId.windowId != PICKING_VIEW_WINDOW then Err(WindowIdNotMatching(pickingViewId))
    else Ok(OfParts(PICKING_SLOT_VIEW_WINDOW, pickingViewId.viewIdPart, [ToJson(rowId)]))
  }

  /** `extractPickingViewId(pickingSlotViewId)`: the picking view with the
      same view id part. */
  function ExtractPickingViewId(slotViewId: ViewId): (r: ViewId)
    ensures r.windowId == PICKING_VIEW_WINDOW
    ensures GetPart(r, 1) == GetPart(slotViewId, 1)
    ensures GetPart(r, 2).None?
  {
    OfParts(PICKING_VIEW_WINDOW, slotViewId.viewIdPart, [])
  }

  /** `extractRowId(pickingSlotViewId)`: part 2 parsed as a DocumentId; a
      missing part is a null string. */
  function ExtractRowId(slotViewId: ViewId): (r: Result<DocumentId, PickingError>)
    ensures GetPart(slotViewId, 2).None? ==> r.Err? && r.error.InvalidRowId? && r.error.error.NullId?
    ensures r.Ok? <==> OfString(GetPart(slotViewId, 2)).Ok?
    ensures r.Ok? ==> r.value == OfString(GetPart(slotViewId, 2)).value
  {
    match OfString(GetPart(slotViewId, 2))
    case Ok(id) => Ok(id)
    case Err(e) => Err(InvalidRowId(e))
  }

  /** A slot view id made for a picking view leads back to that picking view,
      and to the row, for every row id except the one whose JSON form does not
      parse back (Integer.MIN_VALUE). */
  lemma SlotViewIdRoundTrip(pickingViewId: ViewId, rowId: DocumentId)
    requires pickingViewId.windowId == PICKING_VIEW_WINDOW && |pickingViewId.otherParts| == 0
    requires rowId.idInt != MIN_INT
    ensures CreateViewId(pickingViewId, rowId).Ok?
    ensures ExtractPickingViewId(CreateViewId(pickingViewId, rowId).value) == pickingViewId
    ensures ExtractRowId(CreateViewId(pickingViewId, rowId).value) == Ok(rowId)
  {
    JsonRoundTrip(rowId.idInt);
    assert OfInt(rowId.idInt) == rowId;
  }

  /** The row id Integer.MIN_VALUE does not survive the slot view id. */
  lemma MinValueRowIdIsLost(pickingViewId: ViewId)
    requires pickingViewId.windowId == PICKING_VIEW_WINDOW
    ensures CreateViewId(pickingViewId, DocumentId(MIN_INT)).Ok?
    ensures ExtractRowId(CreateViewId(pickingViewId, DocumentId(MIN_INT)).value).Err?
  {
    JsonRoundTripFailsAtMinValue();
    assert OfInt(MIN_INT) == DocumentId(MIN_INT);
  }

  // ---------------------------------------------------------------------------
  // Forwarding to the picking view

  /** The picking views the views repository holds, each with the slot views
      it keeps per row. */
  type PickingViews<V> = map<ViewId, map<DocumentId, V>>

  /** The picking view and row a slot view id addresses. */
  datatype Target = Target(pickingViewId: ViewId, rowId: DocumentId)

  /** `getPickingViewByPickingSlotViewId` together with `extractRowId`: the
      picking view must exist, and part 2 must be a valid id. */
  function Resolve<V>(views: PickingViews<V>, slotViewId: ViewId): (r: Result<Target, PickingError>)
    ensures r.Ok? <==> ExtractPickingViewId(slotViewId) in views && ExtractRowId(slotViewId).Ok?
    ensures r.Ok? ==> r.value.pickingViewId in views && r.value.pickingViewId.windowId == PICKING_VIEW_WINDOW
    ensures r.Ok? ==> ExtractRowId(slotViewId) == Ok(r.value.rowId)
    ensures ExtractPickingViewId(slotViewId) !in views ==> r == Err(PickingViewNotFound(ExtractPickingViewId(slotViewId)))
    ensures ExtractPickingViewId(slotViewId) in views && ExtractRowId(slotViewId).Err? ==> r == Err(ExtractRowId(slotViewId).error)
  {
    var pickingViewId := ExtractPickingViewId(slotViewId);
    if pickingViewId !in views then Err(PickingViewNotFound(pickingViewId))
    else
      var rowId :- ExtractRowId(slotViewId);
      Ok(Target(pickingViewId, rowId))
  }

  /** `put(pickingSlotView)`: the picking view keeps the slot view for its row. */
  function Put<V>(views: PickingViews<V>, slotViewId: ViewId, slotView: V): (r: Result<PickingViews<V>, PickingError>)
    ensures r.Ok? <==> Resolve(views, slotViewId).Ok?
    ensures r.Ok? ==> r.value.Keys == views.Keys
    ensures r.Ok? ==> var t := Resolve(views, slotViewId).value;
              r.value[t.pickingViewId] == views[t.pickingViewId][t.rowId := slotView] &&
              forall p :: p in views && p != t.pickingViewId ==> r.value[p] == views[p]
  {
    var t :- Resolve(views, slotViewId);
    Ok(views[t.pickingViewId := views[t.pickingViewId][t.rowId := slotView]])
  }

  /** `getByIdOrNull(pickingSlotViewId)`: always creating. The slot view of the
      row is returned; when there is none, `create` makes one and the picking
      view keeps it. `create` stands for the creator lambda: `None` when the
      picking view has no row with that id, otherwise the view the slot view
      factory makes. */
  function GetById<V>(views: PickingViews<V>, slotViewId: ViewId, create: Target -> Option<V>): (r: Result<(PickingViews<V>, V), PickingError>)
    ensures Resolve(views, slotViewId).Err? ==> r == Err(Resolve(views, slotViewId).error)
    ensures r.Ok? ==> Resolve(views, slotViewId).Ok?
    ensures Resolve(views, slotViewId).Ok? ==> var t := Resolve(views, slotViewId).value;
              var slots := views[t.pickingViewId];
              (t.rowId in slots ==> r == Ok((views, slots[t.rowId]))) &&
              (t.rowId !in slots && create(t).None? ==> r == Err(PickingRowNotFound(t.rowId))) &&
              (t.rowId !in slots && create(t).Some? ==>
                 r.Ok? && r.value.1 == create(t).value && Put(views, slotViewId, r.value.1) == Ok(r.value.0))
  {
    var t :- Resolve(views, slotViewId);
    var slots := views[t.pickingViewId];
    if t.rowId in slots then Ok((views, slots[t.rowId]))
    else
      match create(t)
      case None => Err(PickingRowNotFound(t.rowId))
      case Some(v) => Ok((views[t.pickingViewId := slots[t.rowId := v]], v))
  }

  /** `getOrCreatePickingSlotView(id, false)`: the slot view of the row, if any. */
  function GetIfPresent<V>(views: PickingViews<V>, slotViewId: ViewId): (r: Result<Option<V>, PickingError>)
    ensures r.Ok? <==> Resolve(views, slotViewId).Ok?
    ensures r.Ok? ==> var t := Resolve(views, slotViewId).value;
              (r.value.Some? <==> t.rowId in views[t.pickingViewId]) &&
              (r.value.Some? ==> r.value.value == views[t.pickingViewId][t.rowId])
  {
    var t :- Resolve(views, slotViewId);
    var slots := views[t.pickingViewId];
    if t.rowId in slots then Ok(Some(slots[t.rowId])) else Ok(None)
  }

  /** `removeById(pickingSlotViewId)`: the picking view drops the row's slot
      view. Unlike the other operations, the row id is extracted before the
      picking view is looked up, so an invalid row id wins over a missing view. */
  function RemoveById<V>(views: PickingViews<V>, slotViewId: ViewId): (r: Result<PickingViews<V>, PickingError>)
    ensures r.Ok? <==> Resolve(views, slotViewId).Ok?
    ensures ExtractRowId(slotViewId).Err? ==> r == Err(ExtractRowId(slotViewId).error)
    ensures ExtractRowId(slotViewId).Ok? && ExtractPickingViewId(slotViewId) !in views ==>
              r == Err(PickingViewNotFound(ExtractPickingViewId(slotViewId)))
    ensures r.Ok? ==> r.value.Keys == views.Keys
    ensures r.Ok? ==> var t := Resolve(views, slotViewId).value;
              r.value[t.pickingViewId] == views[t.pickingViewId] - {t.rowId} &&
              forall p :: p in views && p != t.pickingViewId ==> r.value[p] == views[p]
  {
    var rowId :- ExtractRowId(slotViewId);
    var pickingViewId := ExtractPickingViewId(slotViewId);
    if pickingViewId !in views then Err(PickingViewNotFound(pickingViewId))
    else Ok(views[pickingViewId := views[pickingViewId] - {rowId}])
  }

  /** `streamAllViews()`: the storage lists no views. */
  function StreamAllViews<V>(views: PickingViews<V>): (r: seq<V>)
    ensures |r| == 0
  {
    []
  }

  /** A stored slot view is found again without creating another. */
  lemma PutThenGet<V>(views: PickingViews<V>, slotViewId: ViewId, slotView: V, create: Target -> Option<V>)
    requires Put(views, slotViewId, slotView).Ok?
    ensures GetById(Put(views, slotViewId, slotView).value, slotViewId, create) ==
              Ok((Put(views, slotViewId, slotView).value, slotView))
  {
    var t := Resolve(views, slotViewId).value;
    var after := Put(views, slotViewId, slotView).value;
    assert Resolve(after, slotViewId) == Ok(t);
  }

  /** After removal the row has no slot view until one is created again. */
  lemma RemoveThenGetIfPresent<V>(views: PickingViews<V>, slotViewId: ViewId)
    requires RemoveById(views, slotViewId).Ok?
    ensures GetIfPresent(RemoveById(views, slotViewId).value, slotViewId) == Ok(None)
  {
    var t := Resolve(views, slotViewId).value;
    var after := RemoveById(views, slotViewId).value;
    assert Resolve(after, slotViewId) == Ok(t);
  }

  /** Creating on demand is idempotent: a second lookup returns the view the
      first one created and changes nothing. */
  lemma GetByIdIsIdempotent<V>(views: PickingViews<V>, slotViewId: ViewId, create: Target -> Option<V>)
    requires GetById(views, slotViewId, create).Ok?
    ensures var first := GetById(views, slotViewId, create).value;
            GetById(first.0, slotViewId, create) == Ok(first)
  {
    var t := Resolve(views, slotViewId).value;
    var first := GetById(views, slotViewId, create).value;
    assert Resolve(first.0, slotViewId) == Ok(t);
  }
}
