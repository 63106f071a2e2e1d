/** The presenter registry (`PresenterServiceImpl`): a map from session id to
    presenter node plus the id of the current root ("parent") presenter.
    Every operation is a pure transition that returns the next registry and
    the calls it made on presenters and views, in order. */
module PresenterService {
  import opened Wrappers
  import P = Presenters

  /** A session id. The source draws it from `UUID.randomUUID()`. */
  type Id = string

  /** The Android `Bundle` reduced to the string entries this registry uses. */
  type Bundle = map<string, string>

  const PresenterIdKey: string := "com.joincoup.app.presentation.PRESENTER_ID_KEY;"

  /** The "no current parent" sentinel, distinct from a never-set (null) parent. */
  const NoPresenterId: Id := ""

  /** A child remembers the current parent id at its creation, which may be null. */
  datatype Role = Root | Child(parentId: Option<Id>)

  /** A registered presenter. Its session id is its key in the registry map,
      so a node is always stored under its own id. */
  datatype Node = Node(presenter: P.Presenter, role: Role)

  /** A lifecycle listener handed to a view: it is bound to one session id. */
  datatype Handle = Handle(id: Id)

  /** `currentParentId` is `None` while it still holds Java's initial null. */
  datatype Registry = Registry(nodes: map<Id, Node>, currentParentId: Option<Id>)

  /** The calls the registry makes on presenters, views and the factory. */
  datatype Event =
    | CreatePresenter(view: P.View)
    | TakeView(presenter: P.PresenterRef, view: P.View)
    | DropView(presenter: P.PresenterRef)
    | Destroy(presenter: P.PresenterRef)
    | OnResume(presenter: P.PresenterRef)
    | OnPause(presenter: P.PresenterRef)
    | OnViewReady(presenter: P.PresenterRef)
    | SetListener(view: P.View, listener: Option<Handle>)

  /** The exceptions the registry lets escape. */
  datatype Error =
    | PresenterNotFound(view: P.View)         // the generated factory knows no presenter for the view
    | PresenterDoesNotExist(id: Option<Id>)   // `getPresenter` on an id that is not registered
    | MissingRequestedPresenter               // `getPresenterFromBundle` without a usable id
    | NullParentId(child: Id)                 // a root cascade meets a child whose parent id is null

  datatype Step = Step(reg: Registry, trace: seq<Event>)

  function Empty(): (reg: Registry)
    ensures Valid(reg) && |reg.nodes| == 0
    ensures reg.currentParentId.None?
  {
    Registry(map[], None)
  }

  // ---------------------------------------------------------------------------
  // Invariants

  predicate IsRoot(nodes: map<Id, Node>, id: Id) {
    id in nodes && nodes[id].role.Root?
  }

  /** A parent reference is null, the sentinel, or a live root. */
  predicate NamesRootOrNothing(nodes: map<Id, Node>, ref: Option<Id>) {
    ref.None? || ref == Some(NoPresenterId) || IsRoot(nodes, ref.value)
  }

  predicate ParentsLive(nodes: map<Id, Node>) {
    forall k :: k in nodes && nodes[k].role.Child? ==> NamesRootOrNothing(nodes, nodes[k].role.parentId)
  }

  /** No presenter object is reachable through two session ids. */
  predicate DistinctPresenters(nodes: map<Id, Node>) {
    forall a, b :: a in nodes && b in nodes && a != b ==> nodes[a].presenter.ref != nodes[b].presenter.ref
  }

  predicate Valid(reg: Registry) {
    && NoPresenterId !in reg.nodes
    && NamesRootOrNothing(reg.nodes, reg.currentParentId)
    && ParentsLive(reg.nodes)
    && DistinctPresenters(reg.nodes)
  }

  /** The contract of the UUID generator and of the presenter factory: the id
      is new and is not the sentinel, and a presenter it makes is a new object.
      `made == None` is the factory throwing. */
  predicate FreshFor(reg: Registry, newId: Id, made: Option<P.PresenterRef>) {
    && newId !in reg.nodes
    && newId != NoPresenterId
    && (made.Some? ==> forall k :: k in reg.nodes ==> reg.nodes[k].presenter.ref != made.value)
  }

  predicate Distinct(s: seq<Id>) {
    forall i, j :: 0 <= i < j < |s| ==> s[i] != s[j]
  }

  /** `s` is an iteration order of the map: every key exactly once. */
  predicate Enumerates(s: seq<Id>, nodes: map<Id, Node>) {
    && Distinct(s)
    && (forall k :: k in s ==> k in nodes)
    && (forall k :: k in nodes ==> k in s)
  }

  // ---------------------------------------------------------------------------
  // Restore bundle

  /** The id stored under the well-known key; a null bundle has none. */
  function BundledId(bundle: Option<Bundle>): (r: Option<Id>)
    ensures r.Some? <==> bundle.Some? && PresenterIdKey in bundle.value
    ensures r.Some? ==> r.value == bundle.value[PresenterIdKey]
  {
    if bundle.Some? && PresenterIdKey in bundle.value then Some(bundle.value[PresenterIdKey]) else None
  }

  function PresenterAlreadyExists(reg: Registry, bundle: Option<Bundle>): bool {
    BundledId(bundle).Some? && BundledId(bundle).value in reg.nodes
  }

  function PresenterFromBundle(reg: Registry, bundle: Option<Bundle>): (r: Result<Node, Error>)
    ensures r.Ok? <==> PresenterAlreadyExists(reg, bundle)
    ensures r.Ok? ==> bundle.Some? && PresenterIdKey in bundle.value
                      && bundle.value[PresenterIdKey] in reg.nodes
                      && r.value == reg.nodes[bundle.value[PresenterIdKey]]
    ensures r.Err? ==> r.error == MissingRequestedPresenter
  {
    if bundle.Some? && PresenterIdKey in bundle.value then
      var id := bundle.value[PresenterIdKey];
      if id in reg.nodes then Ok(reg.nodes[id]) else Err(MissingRequestedPresenter)
    else
      Err(MissingRequestedPresenter)
  }

  /** A bundle id that names a live node names a root. Bundles written by
      `SavePresenter` have this property. */
  predicate BundleSound(reg: Registry, bundle: Option<Bundle>) {
    PresenterAlreadyExists(reg, bundle) ==> IsRoot(reg.nodes, BundledId(bundle).value)
  }

  function SavePresenter(reg: Registry, id: Id, bundle: Bundle): (b: Bundle)
    ensures IsRoot(reg.nodes, id) ==> BundledId(Some(b)) == Some(id)
    ensures IsRoot(reg.nodes, id) ==> b.Keys == bundle.Keys + {PresenterIdKey}
    ensures forall k :: k in bundle && k != PresenterIdKey ==> k in b && b[k] == bundle[k]
    ensures !IsRoot(reg.nodes, id) ==> b == bundle
  {
    if id in reg.nodes && reg.nodes[id].role.Root? then bundle[PresenterIdKey := id] else bundle
  }

  // ---------------------------------------------------------------------------
  // Attaching views

  /** Give the presenter of node `id` the view, install a listener bound to
      `id` on the view, and make the node the current parent. */
  function BindRoot(reg: Registry, id: Id, node: Node, view: P.View, prefix: seq<Event>): Step {
    var presenter := P.TakeView(node.presenter, view).after;
    Step(Registry(reg.nodes[id := node.(presenter := presenter)], Some(id)),
         prefix + [TakeView(node.presenter.ref, view), SetListener(view, Some(Handle(id)))])
  }

  /** `takeView(view, bundle)`: reuse the root named by the bundle, or ask the
      factory for a new presenter under a newId id. */
  function TakeRootView(reg: Registry, view: P.View, bundle: Option<Bundle>, newId: Id, made: Option<P.PresenterRef>)
    : (r: Result<Step, Error>)
    requires FreshFor(reg, newId, made)
    ensures !PresenterAlreadyExists(reg, bundle) && made.None? ==> r == Err(PresenterNotFound(view))
    ensures !PresenterAlreadyExists(reg, bundle) && made.Some? ==>
              && r.Ok?
              && r.value.reg.nodes.Keys == reg.nodes.Keys + {newId}
              && r.value.reg.nodes[newId] == Node(P.Presenter(made.value, Some(view)), Root)
              && (forall k :: k in reg.nodes ==> r.value.reg.nodes[k] == reg.nodes[k])
              && r.value.reg.currentParentId == Some(newId)
              && r.value.trace == [CreatePresenter(view), TakeView(made.value, view), SetListener(view, Some(Handle(newId)))]
    ensures PresenterAlreadyExists(reg, bundle) ==>
              var id := BundledId(bundle).value;
              && r.Ok?
              && r.value.reg.nodes.Keys == reg.nodes.Keys
              && r.value.reg.nodes[id] == reg.nodes[id].(presenter := P.Presenter(reg.nodes[id].presenter.ref, Some(view)))
              && (forall k :: k in reg.nodes && k != id ==> r.value.reg.nodes[k] == reg.nodes[k])
              && r.value.reg.currentParentId == Some(id)
              && (forall e :: e in r.value.trace ==> !e.CreatePresenter?)
              && |r.value.trace| == 2
              && r.value.trace[0] == TakeView(reg.nodes[id].presenter.ref, view)
              && r.value.trace[1].SetListener? && r.value.trace[1].view == view
  {
    if !PresenterAlreadyExists(reg, bundle) then
      match made
      case None => Err(PresenterNotFound(view))
      case Some(p) =>
        var node := Node(P.Fresh(p), Root);
        Ok(BindRoot(reg.(nodes := reg.nodes[newId := node]), newId, node, view, [CreatePresenter(view)]))
    else
      var node := PresenterFromBundle(reg, bundle).value;
      Ok(BindRoot(reg, BundledId(bundle).value, node, view, []))
  }

  /** `takeChild(view)`: always a new presenter, recorded under whatever the
      current parent id is at this moment (possibly null or the sentinel). */
  function TakeChild(reg: Registry, view: P.View, newId: Id, made: Option<P.PresenterRef>): (r: Result<Step, Error>)
    requires FreshFor(reg, newId, made)
    ensures made.None? ==> r == Err(PresenterNotFound(view))
    ensures made.Some? ==>
              && r.Ok?
              && r.value.reg.nodes.Keys == reg.nodes.Keys + {newId}
              && r.value.reg.nodes[newId] == Node(P.Presenter(made.value, Some(view)), Child(reg.currentParentId))
              && (forall k :: k in reg.nodes ==> r.value.reg.nodes[k] == reg.nodes[k])
              && r.value.reg.currentParentId == reg.currentParentId
              && r.value.trace == [CreatePresenter(view), TakeView(made.value, view), SetListener(view, Some(Handle(newId)))]
  {
    match made
    case None => Err(PresenterNotFound(view))
    case Some(p) =>
      var child := Node(P.Fresh(p), Child(reg.currentParentId));
      var presenter := P.TakeView(child.presenter, view).after;
      Ok(Step(reg.(nodes := reg.nodes[newId := child.(presenter := presenter)]),
              [CreatePresenter(view), TakeView(p, view), SetListener(view, Some(Handle(newId)))]))
  }

  // ---------------------------------------------------------------------------
  // Lifecycle notifications

  function OnPresenterViewResumed(reg: Registry, id: Id): (s: Step)
    ensures id !in reg.nodes ==> s == Step(reg, [])
    ensures id in reg.nodes ==>
              && s.reg.nodes == reg.nodes
              && s.trace == [OnResume(reg.nodes[id].presenter.ref)]
              && (IsRoot(reg.nodes, id) ==> s.reg.currentParentId == Some(id))
              && (!IsRoot(reg.nodes, id) ==> s.reg.currentParentId == reg.currentParentId)
  {
    if id in reg.nodes then
      var node := reg.nodes[id];
      var reg' := if node.role.Root? then reg.(currentParentId := Some(id)) else reg;
      Step(reg', [OnResume(node.presenter.ref)])
    else
      Step(reg, [])
  }

  function OnPresenterViewPaused(reg: Registry, id: Id): (s: Step)
    ensures s.reg == reg
    ensures id !in reg.nodes ==> s.trace == []
    ensures id in reg.nodes ==> s.trace == [OnPause(reg.nodes[id].presenter.ref)]
  {
    if id in reg.nodes then Step(reg, [OnPause(reg.nodes[id].presenter.ref)]) else Step(reg, [])
  }

  function OnPresenterViewReady(reg: Registry, id: Id): (s: Step)
    ensures s.reg == reg
    ensures id !in reg.nodes ==> s.trace == []
    ensures id in reg.nodes ==> s.trace == [OnViewReady(reg.nodes[id].presenter.ref)]
  {
    if id in reg.nodes then Step(reg, [OnViewReady(reg.nodes[id].presenter.ref)]) else Step(reg, [])
  }

  // ---------------------------------------------------------------------------
  // Lookups

  function GetPresenter(reg: Registry, id: Id): (r: Result<P.Presenter, Error>)
    ensures r.Ok? <==> id in reg.nodes
    ensures r.Ok? ==> r.value == reg.nodes[id].presenter
    ensures r.Err? ==> r.error == PresenterDoesNotExist(Some(id))
  {
    if id in reg.nodes then Ok(reg.nodes[id].presenter) else Err(PresenterDoesNotExist(Some(id)))
  }

  /** Declared nullable in the source, but it throws when the current parent
      id is null, the sentinel, or otherwise unregistered. */
  function GetCurrentParent(reg: Registry): (r: Result<P.Presenter, Error>)
    ensures r.Ok? <==> reg.currentParentId.Some? && reg.currentParentId.value in reg.nodes
    ensures r.Ok? ==> r.value == reg.nodes[reg.currentParentId.value].presenter
  {
    match reg.currentParentId
    case None => Err(PresenterDoesNotExist(None))
    case Some(id) => GetPresenter(reg, id)
  }

  function ClearParent(reg: Registry): (r: Registry)
    ensures r.nodes == reg.nodes
    ensures r.currentParentId == Some(NoPresenterId)
    ensures NamesRootOrNothing(r.nodes, r.currentParentId)
    ensures NoPresenterId !in r.nodes ==> GetCurrentParent(r).Err?
  {
    reg.(currentParentId := Some(NoPresenterId))
  }

  // ---------------------------------------------------------------------------
  // Detaching views

  /** The private `dropView(Presenter)`: only a presenter that holds a view is
      unbound, first clearing the view's listener, then `presenter.dropView()`. */
  function Unbind(p: P.Presenter): (r: (P.Presenter, seq<Event>))
    ensures r.0.ref == p.ref && r.0.view.None?
    ensures p.view.None? ==> r.1 == []
    ensures p.view.Some? ==> r.1 == [SetListener(p.view.value, None), DropView(p.ref)]
  {
    match P.GetView(p)
    case None => (p, [])
    case Some(v) => (P.DropView(p).after, [SetListener(v, None), DropView(p.ref)])
  }

  predicate IsChildOf(node: Node, id: Id) {
    node.role == Child(Some(id))
  }

  /** The loop that collects a root's children: it walks the map in its
      iteration order and dereferences every child's parent id, so one child
      with a null parent id throws. */
  function ScanChildren(iteration: seq<Id>, nodes: map<Id, Node>, id: Id): (r: Result<seq<Id>, Error>)
    requires forall k :: k in iteration ==> k in nodes
    ensures r.Err? <==> exists k :: k in iteration && nodes[k].role == Child(None)
    ensures r.Err? ==> r.error.NullParentId?
    ensures r.Ok? ==> forall k :: k in r.value <==> k in iteration && IsChildOf(nodes[k], id)
    ensures r.Ok? && Distinct(iteration) ==> Distinct(r.value)
    decreases |iteration|
  {
    if |iteration| == 0 then Ok([])
    else
      var node := nodes[iteration[0]];
      if node.role.Root? then ScanChildren(iteration[1..], nodes, id)
      else if node.role.parentId.None? then Err(NullParentId(iteration[0]))
      else
        var rest :- ScanChildren(iteration[1..], nodes, id);
        if node.role.parentId.value == id then Ok([iteration[0]] + rest) else Ok(rest)
  }

  /** Reference definition of what a permanent detach removes: the node and,
      when it is a root, every child whose parent id is that root. */
  function Closure(nodes: map<Id, Node>, id: Id): set<Id> {
    {id} + (if IsRoot(nodes, id) then set k | k in nodes && IsChildOf(nodes[k], id) else {})
  }

  /** `destroyPresenters`: unbind, destroy and remove each id in turn; the
      current parent id falls back to the sentinel when its node goes. */
  function DestroyPresenters(reg: Registry, ids: seq<Id>): (s: Step)
    requires Distinct(ids) && forall k :: k in ids ==> k in reg.nodes
    ensures s.reg.nodes == reg.nodes - (set k | k in ids)
    ensures s.reg.currentParentId ==
              if reg.currentParentId.Some? && reg.currentParentId.value in ids then Some(NoPresenterId)
              else reg.currentParentId
    decreases |ids|
  {
    if |ids| == 0 then Step(reg, [])
    else
      var id := ids[0];
      var node := reg.nodes[id];
      var unbound := Unbind(node.presenter);
      var current := if reg.currentParentId == Some(id) then Some(NoPresenterId) else reg.currentParentId;
      var rest := DestroyPresenters(Registry(reg.nodes - {id}, current), ids[1..]);
      Step(rest.reg, unbound.1 + [Destroy(node.presenter.ref)] + rest.trace)
  }

  /** `dropView(id, retain)`. Unknown ids are ignored; otherwise `retain`
      chooses between a transient and a permanent detach. `iteration` is the
      map's iteration order, which only the permanent detach consults. */
  function DropPresenterView(reg: Registry, id: Id, retain: bool, iteration: seq<Id>): (r: Result<Step, Error>)
    requires Enumerates(iteration, reg.nodes)
    ensures id !in reg.nodes ==> r == Ok(Step(reg, []))
    ensures id in reg.nodes && retain ==> r == Ok(DetachRetained(reg, id))
    ensures id in reg.nodes && !retain ==> r == DetachPermanently(reg, id, iteration)
  {
    if id !in reg.nodes then Ok(Step(reg, []))
    else if !retain then DetachPermanently(reg, id, iteration)
    else Ok(DetachRetained(reg, id))
  }

  /** The transient path: the node stays registered and the current parent is
      untouched; only its presenter is unbound from its view. */
  function DetachRetained(reg: Registry, id: Id): (s: Step)
    requires id in reg.nodes
    ensures s.reg.currentParentId == reg.currentParentId
    ensures s.reg.nodes.Keys == reg.nodes.Keys
    ensures s.reg.nodes[id].role == reg.nodes[id].role
    ensures s.reg.nodes[id].presenter == P.Presenter(reg.nodes[id].presenter.ref, None)
    ensures forall k :: k in reg.nodes && k != id ==> s.reg.nodes[k] == reg.nodes[k]
    ensures reg.nodes[id].presenter.view.None? ==> s.trace == []
    ensures reg.nodes[id].presenter.view.Some? ==>
              s.trace == [SetListener(reg.nodes[id].presenter.view.value, None), DropView(reg.nodes[id].presenter.ref)]
  {
    var node := reg.nodes[id];
    var unbound := Unbind(node.presenter);
    Step(reg.(nodes := reg.nodes[id := node.(presenter := unbound.0)]), unbound.1)
  }

  /** The permanent path ("KILL"): collect the node and, for a root, its
      children, then destroy them all. Fails without changing anything when
      the collection meets a child whose parent id is null. */
  function DetachPermanently(reg: Registry, id: Id, iteration: seq<Id>): (r: Result<Step, Error>)
    requires id in reg.nodes && Enumerates(iteration, reg.nodes)
    ensures r.Err? <==> IsRoot(reg.nodes, id) && exists k :: k in reg.nodes && reg.nodes[k].role == Child(None)
    ensures r.Err? ==> r.error.NullParentId?
    ensures r.Ok? ==> r.value.reg.nodes == reg.nodes - Closure(reg.nodes, id)
    ensures r.Ok? ==>
              r.value.reg.currentParentId ==
                if reg.currentParentId.Some? && reg.currentParentId.value in Closure(reg.nodes, id)
                then Some(NoPresenterId) else reg.currentParentId
  {
    var children :- if reg.nodes[id].role.Root? then ScanChildren(iteration, reg.nodes, id) else Ok([]);
    ClosureIsScanned(reg.nodes, id, iteration, children);
    Ok(DestroyPresenters(reg, [id] + children))
  }

  lemma ClosureIsScanned(nodes: map<Id, Node>, id: Id, iteration: seq<Id>, children: seq<Id>)
    requires id in nodes
    requires Enumerates(iteration, nodes)
    requires Distinct(children)
    requires IsRoot(nodes, id) ==> forall k :: k in children <==> k in iteration && IsChildOf(nodes[k], id)
    requires !IsRoot(nodes, id) ==> children == []
    ensures Distinct([id] + children)
    ensures (set k | k in [id] + children) == Closure(nodes, id)
  {
  }
}
