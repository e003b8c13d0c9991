/** The views repository: factory registration and lookup with fallbacks,
    index-storage registration and lookup, and the create / filter /
    delete-sticky-filter / get / delete / notify operations over the views the
    storages hold. Factories and their view-producing methods are
    collaborators; a storage is modelled as the map from view id to view it
    keeps. */
module ViewsRepositories {
  import opened Wrappers
  import opened ViewIds

  /** A view factory bean; only identity matters. */
  datatype FactoryRef = FactoryRef(name: string)

  /** The autowired SqlViewFactory used when nothing else is registered. */
  const DEFAULT_FACTORY: FactoryRef := FactoryRef("SqlViewFactory")

  /** The `@ViewFactory` annotation of a factory class. */
  datatype Annotation = Annotation(windowId: WindowId, viewTypes: seq<ViewType>)

  datatype FactoryDecl = FactoryDecl(factory: FactoryRef, annotation: Option<Annotation>)

  /** `ArrayKey.of(windowId, viewType)`; a null view type is `None`. */
  type FactoryKey = (WindowId, Option<ViewType>)

  type FactoryRegistry = map<FactoryKey, FactoryRef>

  // ---------------------------------------------------------------------------
  // Factories

  /** The view types an annotation registers for: all of them when it names none. */
  function EffectiveViewTypes(a: Annotation): (r: seq<ViewType>)
    ensures |a.viewTypes| == 0 ==> r == ALL_VIEW_TYPES
    ensures |a.viewTypes| > 0 ==> r == a.viewTypes
  {
    if |a.viewTypes| == 0 then ALL_VIEW_TYPES else a.viewTypes
  }

  /** The keys a declaration registers its factory under. */
  function KeysOf(d: FactoryDecl): set<FactoryKey> {
    if d.annotation.None? then {}
    else set t | t in EffectiveViewTypes(d.annotation.value) :: (d.annotation.value.windowId, Some(t))
  }

  /** Registering one factory: skipped when unannotated, otherwise put under
      each of its keys, replacing what was there. */
  function RegisterOne(m: FactoryRegistry, d: FactoryDecl): (r: FactoryRegistry)
    ensures d.annotation.None? ==> r == m
    ensures forall k :: k in KeysOf(d) ==> k in r && r[k] == d.factory
    ensures forall k :: k !in KeysOf(d) ==> (k in r <==> k in m) && (k in m ==> r[k] == m[k])
  {
    m + map k | k in KeysOf(d) :: d.factory
  }

  /** `registerAnnotatedFactories(viewFactories)`: the factories in order. */
  function RegisterAnnotatedFactories(m: FactoryRegistry, decls: seq<FactoryDecl>): FactoryRegistry
    decreases |decls|
  {
    if |decls| == 0 then m
    else RegisterOne(RegisterAnnotatedFactories(m, decls[..|decls| - 1]), decls[|decls| - 1])
  }

  /** The key is registered by no declaration after index `i`. */
  predicate LastToRegister(decls: seq<FactoryDecl>, i: nat, k: FactoryKey)
    requires i < |decls|
  {
    k in KeysOf(decls[i]) && forall j :: i < j < |decls| ==> k !in KeysOf(decls[j])
  }

  /** A key ends up registered exactly when it was already there or some
      declaration registers it. */
  lemma {:induction false} RegisteredIff(m: FactoryRegistry, decls: seq<FactoryDecl>, k: FactoryKey)
    ensures k in RegisterAnnotatedFactories(m, decls) <==>
              k in m || exists i :: 0 <= i < |decls| && k in KeysOf(decls[i])
    decreases |decls|
  {
    if |decls| > 0 {
      var n := |decls| - 1;
      RegisteredIff(m, decls[..n], k);
      assert forall i :: 0 <= i < n ==> decls[..n][i] == decls[i];
      if k in KeysOf(decls[n]) {
        assert exists i :: 0 <= i < |decls| && k in KeysOf(decls[i]);
      }
    }
  }

  /** The last declaration that registers a key wins. */
  lemma {:induction false} LastRegistrationWins(m: FactoryRegistry, decls: seq<FactoryDecl>, k: FactoryKey, i: nat)
    requires i < |decls| && LastToRegister(decls, i, k)
    ensures k in RegisterAnnotatedFactories(m, decls)
    ensures RegisterAnnotatedFactories(m, decls)[k] == decls[i].factory
    decreases |decls|
  {
    var n := |decls| - 1;
    if i < n {
      assert decls[..n][i] == decls[i];
      assert LastToRegister(decls[..n], i, k) by {
        forall j | i < j < n ensures k !in KeysOf(decls[..n][j]) {
          assert decls[..n][j] == decls[j];
        }
      }
      LastRegistrationWins(m, decls[..n], k, i);
    }
  }

  /** A key no declaration registers keeps its old factory. */
  lemma {:induction false} UnregisteredKeyKeepsFactory(m: FactoryRegistry, decls: seq<FactoryDecl>, k: FactoryKey)
    requires k in m && forall i :: 0 <= i < |decls| ==> k !in KeysOf(decls[i])
    ensures k in RegisterAnnotatedFactories(m, decls)
    ensures RegisterAnnotatedFactories(m, decls)[k] == m[k]
    decreases |decls|
  {
    if |decls| > 0 {
      var n := |decls| - 1;
      assert forall i :: 0 <= i < n ==> decls[..n][i] == decls[i];
      UnregisteredKeyKeepsFactory(m, decls[..n], k);
    }
  }

  /** Registration never uses a null view type. */
  lemma {:induction false} NoNullViewTypeKeys(m: FactoryRegistry, decls: seq<FactoryDecl>)
    requires forall k :: k in m ==> k.1.Some?
    ensures forall k :: k in RegisterAnnotatedFactories(m, decls) ==> k.1.Some?
    decreases |decls|
  {
    if |decls| > 0 {
      NoNullViewTypeKeys(m, decls[..|decls| - 1]);
    }
  }

  /** `getFactory(windowId, viewType)`: the exact key, then the window with a
      null view type, then the default factory. */
  function GetFactory(m: FactoryRegistry, windowId: WindowId, viewType: Option<ViewType>): (r: FactoryRef)
    ensures (windowId, viewType) in m ==> r == m[(windowId, viewType)]
    ensures (windowId, viewType) !in m && (windowId, None) in m ==> r == m[(windowId, None)]
    ensures (windowId, viewType) !in m && (windowId, None) !in m ==> r == DEFAULT_FACTORY
  {
    if (windowId, viewType) in m then m[(windowId, viewType)]
    else if (windowId, None) in m then m[(windowId, None)]
    else DEFAULT_FACTORY
  }

  /** With factories registered only from annotations, the null-view-type
      fallback never applies: a factory registered for the window under another
      view type is not used, and the default factory is. */
  lemma WindowFallbackNeverApplies(decls: seq<FactoryDecl>, windowId: WindowId, viewType: ViewType)
    ensures var m := RegisterAnnotatedFactories(map[], decls);
            GetFactory(m, windowId, Some(viewType)) ==
              if (windowId, Some(viewType)) in m then m[(windowId, Some(viewType))] else DEFAULT_FACTORY
  {
    NoNullViewTypeKeys(map[], decls);
  }

  // ---------------------------------------------------------------------------
  // Storages

  /** An index storage bean; the default one is never registered. A custom
      storage either streams the views it holds or, like the picking-slot
      storage, streams none. */
  datatype Storage =
    | DefaultViewsRepositoryStorage
    | CustomStorage(name: string, windowId: Option<WindowId>, streamsViews: bool)

  datatype ViewsError =
    | StorageWindowIdMissing(storage: Storage)   // Check.assumeNotNull
    | FailedCreatingView
    | FailedFilteringView
    | FailedDeletingStickyFilter
    | NoViewFound(viewId: ViewId)                 // EntityNotFoundException

  type StorageRegistry = map<WindowId, Storage>

  /** The storage is registered under window `w`. */
  predicate Registers(s: Storage, w: WindowId) {
    s.CustomStorage? && s.windowId == Some(w)
  }

  /** The storage makes registration fail: it has no window id. */
  predicate FailsRegistration(s: Storage) {
    s.CustomStorage? && s.windowId.None?
  }

  /** The index of the first storage without a window id, or the length of
      the list when there is none. */
  function FirstFailure(storages: seq<Storage>): (n: nat)
    ensures n <= |storages|
    ensures forall i :: 0 <= i < n ==> !FailsRegistration(storages[i])
    ensures n < |storages| ==> FailsRegistration(storages[n])
    ensures n < |storages| <==> exists i :: 0 <= i < |storages| && FailsRegistration(storages[i])
  {
    if |storages| == 0 then 0
    else if FailsRegistration(storages[0]) then 0
    else
      var rest := storages[1..];
      assert forall i :: 0 <= i < |rest| ==> rest[i] == storages[i + 1];
      1 + FirstFailure(rest)
  }

  /** The registry a registration leaves behind, and the exception it ended
      with, if any. */
  datatype StorageRegistration = StorageRegistration(registry: StorageRegistry, failure: Option<ViewsError>)

  /** `registerViewsIndexStorages(storages)`: in order, default storages are
      skipped and the others are put by window id; a storage without window id
      throws, leaving the storages registered before it in place. */
  function RegisterStorages(m: StorageRegistry, storages: seq<Storage>): (r: StorageRegistration)
    ensures r.failure.Some? <==> FirstFailure(storages) < |storages|
    ensures r.failure.Some? ==> r.failure.value == StorageWindowIdMissing(storages[FirstFailure(storages)])
    ensures forall w :: w in r.registry ==>
              r.registry[w] != DefaultViewsRepositoryStorage || (w in m && m[w] == r.registry[w])
    decreases |storages|
  {
    if |storages| == 0 then StorageRegistration(m, None)
    else
      var s := storages[0];
      var rest := storages[1..];
      assert forall i :: 0 <= i < |rest| ==> rest[i] == storages[i + 1];
      if s.DefaultViewsRepositoryStorage? then RegisterStorages(m, rest)
      else if s.windowId.None? then StorageRegistration(m, Some(StorageWindowIdMissing(s)))
      else RegisterStorages(m[s.windowId.value := s], rest)
  }

  /** After registration a window has a storage exactly when it had one
      before or a storage ahead of the first failure names it. */
  lemma {:induction false} RegisteredWindowsIff(m: StorageRegistry, storages: seq<Storage>, w: WindowId)
    ensures w in RegisterStorages(m, storages).registry <==>
              w in m || exists i :: 0 <= i < FirstFailure(storages) && Registers(storages[i], w)
    decreases |storages|
  {
    if |storages| > 0 && !FailsRegistration(storages[0]) {
      var s := storages[0];
      var rest := storages[1..];
      assert forall i :: 0 <= i < |rest| ==> rest[i] == storages[i + 1];
      assert FirstFailure(storages) == 1 + FirstFailure(rest);
      var m' := if s.DefaultViewsRepositoryStorage? then m else m[s.windowId.value := s];
      RegisteredWindowsIff(m', rest, w);
      if exists i :: 0 <= i < FirstFailure(rest) && Registers(rest[i], w) {
        var i :| 0 <= i < FirstFailure(rest) && Registers(rest[i], w);
        assert Registers(storages[i + 1], w);
      }
      if exists i :: 0 <= i < FirstFailure(storages) && Registers(storages[i], w) {
        var i :| 0 <= i < FirstFailure(storages) && Registers(storages[i], w);
        if i > 0 {
          assert Registers(rest[i - 1], w);
        }
      }
    }
  }

  /** The last storage ahead of the first failure that names a window is the
      one registered for it. */
  lemma {:induction false} LastStorageWins(m: StorageRegistry, storages: seq<Storage>, w: WindowId, i: nat)
    requires i < FirstFailure(storages) && Registers(storages[i], w)
    requires forall j :: i < j < FirstFailure(storages) ==> !Registers(storages[j], w)
    ensures w in RegisterStorages(m, storages).registry
    ensures RegisterStorages(m, storages).registry[w] == storages[i]
    decreases |storages|
  {
    var s := storages[0];
    var rest := storages[1..];
    assert forall k :: 0 <= k < |rest| ==> rest[k] == storages[k + 1];
    assert FirstFailure(storages) == 1 + FirstFailure(rest);
    var m' := if s.DefaultViewsRepositoryStorage? then m else m[s.windowId.value := s];
    if i > 0 {
      LastStorageWins(m', rest, w, i - 1);
    } else {
      assert forall j :: 0 <= j < FirstFailure(rest) ==> !Registers(rest[j], w);
      UntouchedWindowKeepsStorage(m', rest, w);
    }
  }

  /** A window no storage ahead of the first failure names keeps its storage. */
  lemma {:induction false} UntouchedWindowKeepsStorage(m: StorageRegistry, storages: seq<Storage>, w: WindowId)
    requires w in m
    requires forall i :: 0 <= i < FirstFailure(storages) ==> !Registers(storages[i], w)
    ensures w in RegisterStorages(m, storages).registry
    ensures RegisterStorages(m, storages).registry[w] == m[w]
    decreases |storages|
  {
    if |storages| > 0 && !FailsRegistration(storages[0]) {
      var s := storages[0];
      var rest := storages[1..];
      assert forall k :: 0 <= k < |rest| ==> rest[k] == storages[k + 1];
      assert FirstFailure(storages) == 1 + FirstFailure(rest);
      assert !Registers(s, w);
      var m' := if s.DefaultViewsRepositoryStorage? then m else m[s.windowId.value := s];
      UntouchedWindowKeepsStorage(m', rest, w);
    }
  }

  /** `getViewsStorageFor(viewId)`: the window's storage, else the default one. */
  function GetViewsStorageFor(m: StorageRegistry, viewId: ViewId): (r: Storage)
    ensures viewId.windowId in m ==> r == m[viewId.windowId]
    ensures viewId.windowId !in m ==> r == DefaultViewsRepositoryStorage
  {
    if viewId.windowId in m then m[viewId.windowId] else DefaultViewsRepositoryStorage
  }

  // ---------------------------------------------------------------------------
  // Views

  /** A view; `instance` tells distinct objects apart. */
  datatype View = View(instance: nat, viewId: ViewId, viewType: Option<ViewType>)

  datatype Repository = Repository(
    factories: FactoryRegistry,
    storages: StorageRegistry,
    contents: map<Storage, map<ViewId, View>>)

  /** Every storage holds each view under the view's own id. */
  predicate Consistent(repo: Repository) {
    forall s, id :: s in repo.contents && id in repo.contents[s] ==> repo.contents[s][id].viewId == id
  }

  /** The views a storage holds. */
  function Held(repo: Repository, s: Storage): map<ViewId, View> {
    if s in repo.contents then repo.contents[s] else map[]
  }

  /** `getViewsStorageFor(view.getViewId()).put(view)`. */
  function Put(repo: Repository, v: View): (r: Repository)
    ensures r.factories == repo.factories && r.storages == repo.storages
    ensures Consistent(repo) ==> Consistent(r)
  {
    var s := GetViewsStorageFor(repo.storages, v.viewId);
    repo.(contents := repo.contents[s := Held(repo, s)[v.viewId := v]])
  }

  /** `getViewIfExists(viewId)`: fails rather than returning null. The window
      access check against the session's permissions is not modelled. */
  function GetViewIfExists(repo: Repository, viewId: ViewId): (r: Result<View, ViewsError>)
    ensures r.Err? ==> r.error == NoViewFound(viewId)
    ensures r.Ok? <==> viewId in Held(repo, GetViewsStorageFor(repo.storages, viewId))
  {
    var held := Held(repo, GetViewsStorageFor(repo.storages, viewId));
    if viewId in held then Ok(held[viewId]) else Err(NoViewFound(viewId))
  }

  /** A put view is found under its id, and every other id finds what it
      found before. */
  lemma PutThenGet(repo: Repository, v: View, other: ViewId)
    ensures GetViewIfExists(Put(repo, v), v.viewId) == Ok(v)
    ensures other != v.viewId ==> GetViewIfExists(Put(repo, v), other) == GetViewIfExists(repo, other)
  {
  }

  datatype CreateViewRequest = CreateViewRequest(windowId: WindowId, viewType: Option<ViewType>)

  /** `createView(request)`: `create` is the chosen factory's createView. */
  function CreateView(repo: Repository, request: CreateViewRequest,
                      create: (FactoryRef, CreateViewRequest) -> Option<View>): (r: Result<(Repository, View), ViewsError>)
    ensures create(GetFactory(repo.factories, request.windowId, request.viewType), request).None? <==> r == Err(FailedCreatingView)
    ensures r.Ok? ==> r.value.1 == create(GetFactory(repo.factories, request.windowId, request.viewType), request).value
    ensures r.Ok? ==> GetViewIfExists(r.value.0, r.value.1.viewId) == Ok(r.value.1)
    ensures r.Ok? && Consistent(repo) ==> Consistent(r.value.0)
  {
    var factory := GetFactory(repo.factories, request.windowId, request.viewType);
    match create(factory, request)
    case None => Err(FailedCreatingView)
    case Some(v) =>
      PutThenGet(repo, v, v.viewId);
      Ok((Put(repo, v), v))
  }

  /** The shared shape of `filterView` and `deleteStickyFilter`: look the view
      up, let its factory derive a new view, fail on null, and store the result
      only when it is a different object. */
  function DeriveView(repo: Repository, viewId: ViewId, derive: (FactoryRef, View) -> Option<View>,
                      failure: ViewsError): (r: Result<(Repository, View), ViewsError>)
    ensures GetViewIfExists(repo, viewId).Err? ==> r == Err(NoViewFound(viewId))
    ensures GetViewIfExists(repo, viewId).Ok? ==>
              var v := GetViewIfExists(repo, viewId).value;
              var d := derive(GetFactory(repo.factories, v.viewId.windowId, v.viewType), v);
              (d.None? ==> r == Err(failure))
              && (d.Some? ==> r.Ok? && r.value.1 == d.value)
              && (d.Some? && d.value != v ==> r.Ok? && r.value.0 == Put(repo, d.value))
              && (d.Some? && d.value == v ==> r.Ok? && r.value.0 == repo)
    ensures r.Ok? && Consistent(repo) ==> Consistent(r.value.0)
    ensures r.Ok? && Consistent(repo) ==> GetViewIfExists(r.value.0, r.value.1.viewId) == Ok(r.value.1)
    ensures r.Ok? && r.value.1 == GetViewIfExists(repo, viewId).value ==> r.value.0 == repo
  {
    var view :- GetViewIfExists(repo, viewId);
    var factory := GetFactory(repo.factories, view.viewId.windowId, view.viewType);
    match derive(factory, view)
    case None => Err(failure)
    case Some(newView) =>
      if newView != view then
        PutThenGet(repo, newView, newView.viewId);
        Ok((Put(repo, newView), newView))
      else Ok((repo, newView))
  }

  /** `filterView(viewId, request)`. */
  function FilterView<F>(repo: Repository, viewId: ViewId, request: F,
                         filter: (FactoryRef, View, F) -> Option<View>): (r: Result<(Repository, View), ViewsError>)
    ensures GetViewIfExists(repo, viewId).Err? ==> r == Err(NoViewFound(viewId))
    ensures GetViewIfExists(repo, viewId).Ok? ==>
              var v := GetViewIfExists(repo, viewId).value;
              var d := filter(GetFactory(repo.factories, v.viewId.windowId, v.viewType), v, request);
              (d.None? ==> r == Err(FailedFilteringView))
              && (d.Some? ==> r.Ok? && r.value.1 == d.value)
              && (d.Some? && d.value != v ==> r.Ok? && r.value.0 == Put(repo, d.value))
              && (d.Some? && d.value == v ==> r.Ok? && r.value.0 == repo)
    ensures r.Err? ==> r.error == NoViewFound(viewId) || r.error == FailedFilteringView
    ensures r.Ok? && Consistent(repo) ==> GetViewIfExists(r.value.0, r.value.1.viewId) == Ok(r.value.1)
  {
    DeriveView(repo, viewId, (f, v) => filter(f, v, request), FailedFilteringView)
  }

  /** `deleteStickyFilter(viewId, filterId)`. */
  function DeleteStickyFilter(repo: Repository, viewId: ViewId, filterId: string,
                              delete: (FactoryRef, View, string) -> Option<View>): (r: Result<(Repository, View), ViewsError>)
    ensures GetViewIfExists(repo, viewId).Err? ==> r == Err(NoViewFound(viewId))
    ensures GetViewIfExists(repo, viewId).Ok? ==>
              var v := GetViewIfExists(repo, viewId).value;
              var d := delete(GetFactory(repo.factories, v.viewId.windowId, v.viewType), v, filterId);
              (d.None? ==> r == Err(FailedDeletingStickyFilter))
              && (d.Some? ==> r.Ok? && r.value.1 == d.value)
              && (d.Some? && d.value != v ==> r.Ok? && r.value.0 == Put(repo, d.value))
              && (d.Some? && d.value == v ==> r.Ok? && r.value.0 == repo)
    ensures r.Err? ==> r.error == NoViewFound(viewId) || r.error == FailedDeletingStickyFilter
    ensures r.Ok? && Consistent(repo) ==> GetViewIfExists(r.value.0, r.value.1.viewId) == Ok(r.value.1)
  {
    DeriveView(repo, viewId, (f, v) => delete(f, v, filterId), FailedDeletingStickyFilter)
  }

  /** A factory that hands back the very same view leaves the repository as it was. */
  lemma SameViewIsNotStoredAgain(repo: Repository, viewId: ViewId, derive: (FactoryRef, View) -> Option<View>, failure: ViewsError)
    requires GetViewIfExists(repo, viewId).Ok?
    requires var v := GetViewIfExists(repo, viewId).value;
             derive(GetFactory(repo.factories, v.viewId.windowId, v.viewType), v) == Some(v)
    ensures DeriveView(repo, viewId, derive, failure) == Ok((repo, GetViewIfExists(repo, viewId).value))
  {
  }

  /** `deleteView(viewId)`: the id's storage forgets it. */
  function DeleteView(repo: Repository, viewId: ViewId): (r: Repository)
    ensures GetViewIfExists(r, viewId) == Err(NoViewFound(viewId))
    ensures forall other :: other != viewId ==> GetViewIfExists(r, other) == GetViewIfExists(repo, other)
    ensures Consistent(repo) ==> Consistent(r)
  {
    var s := GetViewsStorageFor(repo.storages, viewId);
    repo.(contents := repo.contents[s := Held(repo, s) - {viewId}])
  }

  /** The storages `streamAllViews` walks: the default one, and the registered
      ones that stream the views they hold. */
  predicate Streamed(repo: Repository, s: Storage) {
    s == DefaultViewsRepositoryStorage || (s in repo.storages.Values && s.streamsViews)
  }

  /** The views of all storages. */
  function AllViews(repo: Repository): set<View> {
    set s, v | s in repo.contents && v in repo.contents[s].Values && Streamed(repo, s) :: v
  }

  /** `notifyRecordsChanged(recordRefs)`: the views notified, none for an
      empty set. */
  function NotifyRecordsChanged<R>(repo: Repository, recordRefs: set<R>): (r: set<View>)
    ensures forall v :: v in r <==>
              |recordRefs| > 0 && exists s :: s in repo.contents && Streamed(repo, s) && v in repo.contents[s].Values
  {
    if |recordRefs| == 0 then {} else AllViews(repo)
  }

  /** A view held only by storages that stream nothing, such as the
      picking-slot storage, is never notified. */
  lemma NonStreamingStorageIsNotNotified<R>(repo: Repository, recordRefs: set<R>, v: View)
    requires forall s :: s in repo.contents && v in repo.contents[s].Values ==>
               s != DefaultViewsRepositoryStorage && !s.streamsViews
    ensures v !in NotifyRecordsChanged(repo, recordRefs)
  {
  }
}
