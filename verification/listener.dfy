/** `PresenterLifecycleListenerImpl`: the handle a view receives. It holds one
    session id, fixed when the registry creates it, and turns each view
    lifecycle callback into exactly one registry call carrying that id. */
module Listener {
  import opened Wrappers
  import P = Presenters
  import opened PresenterService
  import Properties = RegistryProperties

  /** The callbacks a view delivers to its listener. */
  datatype Callback =
    | Paused
    | Resumed
    | ViewReady
    | Destroyed                          // `onDestroy()`
    | DestroyedRetaining(retain: bool)   // `onDestroy(retain)`
    | SaveInstanceState(bundle: Bundle)

  /** The registry entry points a listener calls. */
  datatype ServiceCall =
    | ViewPausedCall(id: Id)
    | ViewResumedCall(id: Id)
    | ViewReadyCall(id: Id)
    | DropViewCall(id: Id, retain: bool)
    | SavePresenterCall(id: Id, bundle: Bundle)

  /** Which callback a call answers; a plain `onDestroy()` is a permanent detach. */
  predicate Answers(c: ServiceCall, cb: Callback) {
    match cb
    case Paused => c.ViewPausedCall?
    case Resumed => c.ViewResumedCall?
    case ViewReady => c.ViewReadyCall?
    case Destroyed => c.DropViewCall? && !c.retain
    case DestroyedRetaining(retain) => c.DropViewCall? && c.retain == retain
    case SaveInstanceState(bundle) => c.SavePresenterCall? && c.bundle == bundle
  }

  function Forward(h: Handle, cb: Callback): (c: ServiceCall)
    ensures c.id == h.id
    ensures Answers(c, cb)
  {
    match cb
    case Paused => ViewPausedCall(h.id)
    case Resumed => ViewResumedCall(h.id)
    case ViewReady => ViewReadyCall(h.id)
    case Destroyed => DropViewCall(h.id, false)
    case DestroyedRetaining(retain) => DropViewCall(h.id, retain)
    case SaveInstanceState(bundle) => SavePresenterCall(h.id, bundle)
  }

  /** What one registry call produces: the next registry, the presenter and
      view calls, and the bundle after `savePresenter` wrote to it. */
  datatype Outcome = Outcome(reg: Registry, trace: seq<Event>, saved: Option<Bundle>)

  /** Run a registry call; `iteration` is the map's iteration order. */
  function Apply(reg: Registry, c: ServiceCall, iteration: seq<Id>): (r: Result<Outcome, Error>)
    requires Enumerates(iteration, reg.nodes)
    ensures !c.DropViewCall? ==> r.Ok?
    ensures c.SavePresenterCall? <==> r.Ok? && r.value.saved.Some?
    ensures c.id !in reg.nodes ==>
              r.Ok? && r.value.reg == reg && r.value.trace == [] &&
              (c.SavePresenterCall? ==> r.value.saved == Some(c.bundle))
    ensures c.ViewPausedCall? || c.ViewReadyCall? || c.SavePresenterCall? ==> r.value.reg == reg
  {
    match c
    case ViewPausedCall(id) =>
      var s := OnPresenterViewPaused(reg, id);
      Ok(Outcome(s.reg, s.trace, None))
    case ViewResumedCall(id) =>
      var s := OnPresenterViewResumed(reg, id);
      Ok(Outcome(s.reg, s.trace, None))
    case ViewReadyCall(id) =>
      var s := OnPresenterViewReady(reg, id);
      Ok(Outcome(s.reg, s.trace, None))
    case DropViewCall(id, retain) =>
      var s :- DropPresenterView(reg, id, retain, iteration);
      Ok(Outcome(s.reg, s.trace, None))
    case SavePresenterCall(id, bundle) =>
      Ok(Outcome(reg, [], Some(SavePresenter(reg, id, bundle))))
  }

  /** Every call a listener can make keeps the registry invariant. */
  lemma ApplyKeepsValid(reg: Registry, c: ServiceCall, iteration: seq<Id>)
    requires Valid(reg) && Enumerates(iteration, reg.nodes)
    ensures Apply(reg, c, iteration).Ok? ==> Valid(Apply(reg, c, iteration).value.reg)
  {
    match c
    case DropViewCall(id, retain) => Properties.DropPresenterViewKeepsValid(reg, id, retain, iteration);
    case ViewResumedCall(id) => Properties.NotificationsKeepValid(reg, id);
    case _ =>
  }

  /** Both spellings of a permanent destroy have the same effect. */
  lemma DestroyedIsNotRetained(reg: Registry, h: Handle, iteration: seq<Id>)
    requires Enumerates(iteration, reg.nodes)
    ensures Apply(reg, Forward(h, Destroyed), iteration) == Apply(reg, Forward(h, DestroyedRetaining(false)), iteration)
  {
  }

  /** The listener that `takeView` installs is bound to the node it attached:
      a resume through it reaches that node's presenter and keeps it current. */
  lemma RootListenerTargetsItsNode(reg: Registry, view: P.View, bundle: Option<Bundle>, newId: Id,
                                   made: Option<P.PresenterRef>, iteration: seq<Id>)
    requires FreshFor(reg, newId, made)
    requires TakeRootView(reg, view, bundle, newId, made).Ok?
    ensures var s := TakeRootView(reg, view, bundle, newId, made).value;
            && |s.trace| > 0
            && s.trace[|s.trace| - 1].SetListener?
            && s.trace[|s.trace| - 1].listener.Some?
            && var h := s.trace[|s.trace| - 1].listener.value;
               && s.reg.currentParentId == Some(h.id)
               && h.id in s.reg.nodes
               && (Enumerates(iteration, s.reg.nodes) ==>
                     var resumed := Apply(s.reg, Forward(h, Resumed), iteration).value;
                     && resumed.reg == s.reg
                     && resumed.trace == [OnResume(s.reg.nodes[h.id].presenter.ref)])
  {
    var s := TakeRootView(reg, view, bundle, newId, made).value;
    if PresenterAlreadyExists(reg, bundle) {
      assert s.trace[1] == SetListener(view, Some(Handle(BundledId(bundle).value)));
    }
  }
}
