# Presenter registry of the `mvp` library, in Dafny

The `mvp` Android library keeps presenters alive across view re-creation.
Views never construct presenters. An activity (a *root* view) calls
`takeView(view, bundle)` and a fragment (a *child* view) calls `takeChild(view)`.
`PresenterServiceImpl` keeps a map from a random session id to a
`PresenterNode`, which holds the presenter, a root flag and, for a child, the
parent id. It also keeps `currentParentId`, the root that was attached or resumed
last. Every view gets a `PresenterLifecycleListenerImpl` bound to its session id.
The listener turns the view's lifecycle callbacks into registry calls:
pause, resume, ready, a retained or permanent detach, and saving the id into
the instance-state bundle. When a root is restored from a bundle that names
a live id, it gets its old presenter back. A permanent detach of a root also
destroys every child recorded under it. Presenters inherit a one-view slot from
`AbstractPresenter`. At build time an annotation processor accepts a presenter
class only if `Validator.checkValidClass` passes.

The modules are:

- `Wrappers`: `Option` and `Result`.
- `Presenters`: the `AbstractPresenter` view slot and the order in which its
  `onTakeView`/`onDropView` hooks run relative to the slot update.
- `PresenterService`: the registry. Each operation is a pure function from a
  `Registry` to a `Step`, which is the next registry plus the trace of calls
  made on presenters, views and the factory. The exceptions that escape are
  `Err` values.
- `CascadeTrace`: counting arguments about the trace of a permanent detach,
  for example that every removed presenter is destroyed exactly once.
- `RegistryProperties`: the registry invariant and the proofs that every
  operation preserves it, restore and reattach round trips, and small scenarios
  mirroring the repository's unit tests.
- `Listener`: the per-id handle and the dispatch of its calls into the registry.
- `Validator`: the acceptance rule for annotated presenter classes.

Modelling decisions:

- `currentParentId` is an `Option<Id>`. `None` is Java's initial `null`, and
  `Some("")` is the `NO_PRESENTER_ID` sentinel.
- A child stores the parent id it saw when it was created, which can be `None`.
- The map key is the node's id, so `Node` has no id field of its own.
- The UUID generator and the generated `PresenterFactory` become parameters
  `newId` and `made`. They are constrained by `FreshFor`: the id is new and is
  not the sentinel, and the presenter is a new object. `made == None` models
  the factory throwing.
- `HashMap` iteration order becomes a parameter `iteration`. `Enumerates` says
  it lists every key exactly once.

The registry invariant `Valid` has four parts:

- the sentinel is never a key;
- `currentParentId` is null, the sentinel, or a live root;
- every child's parent id is null, the sentinel, or a live root;
- no presenter object sits under two ids.

Every operation preserves it. `takeView` preserves it only for bundles whose
id, if live, names a root (`BundleSound`), which is what `savePresenter` writes.

Edge cases of the code:

- A child attached while `currentParentId` is still null records a null parent
  id. The loop at `PresenterServiceImpl.java:117-118` then calls `equals` on
  that null as soon as any root is destroyed permanently. The exception escapes
  before `destroyPresenters` runs, so nothing is removed.
  `DetachPermanently` returns `Err(NullParentId(_))` in exactly that case.
  `RegistryProperties.OrphanChildBlocksRootCascade` shows it is reachable from
  the empty registry with two calls.
- `getCurrentParent` is annotated `@Nullable` but delegates to `getPresenter`,
  which throws for an unknown id. So it fails, rather than returning null,
  when the current parent id is null, the sentinel, or stale.

## Model

| member | source | states |
|---|---|---|
| `Presenters.TakeView` | mvp/src/main/java/mvp/presenter/AbstractPresenter.java:15-18 | afterwards `getView()` is the new view; the single `onTakeView` hook already observes the new view; no `onDropView` runs |
| `Presenters.DropView` | mvp/src/main/java/mvp/presenter/AbstractPresenter.java:21-24 | the `onDropView` hook observes the old view, and afterwards `getView()` is null |
| `Presenters.TakeThenDrop` | mvp/src/main/java/mvp/presenter/AbstractPresenter.java:15-24 | taking and then dropping a view returns the presenter to its viewless state, and both hooks observed that view |
| `Presenters.TakeViewOverwrites` | mvp/src/main/java/mvp/presenter/AbstractPresenter.java:15-18 | a second `takeView` replaces the first view outright, with the same result as taking only the second |
| `Presenters.Fresh` | mvp/src/main/java/mvp/presenter/AbstractPresenter.java:7-12 | a presenter that has not yet taken a view has a null view |
| `PresenterService.Empty` | mvp/src/main/java/mvp/presenter/PresenterServiceImpl.java:25-31 | a new registry holds no node, its current parent id is still null (not the sentinel), and it satisfies the registry invariant |
| `PresenterService.BundledId` | mvp/src/main/java/mvp/presenter/PresenterServiceImpl.java:173-183 | an id is read from the bundle iff the bundle is non-null and holds `PRESENTER_ID_KEY`, and that id is the bundle's entry under the key |
| `PresenterService.PresenterFromBundle` | mvp/src/main/java/mvp/presenter/PresenterServiceImpl.java:162-171 | returns the node under the bundled id exactly when `presenterAlreadyExists` holds; otherwise fails with "app does not have the requested presenter" |
| `PresenterService.SavePresenter` | mvp/src/main/java/mvp/presenter/PresenterServiceImpl.java:156-160 | writes the id under `PRESENTER_ID_KEY` iff the id names a live root; every other entry is kept, and for a child or unknown id the bundle is unchanged |
| `PresenterService.TakeRootView` | mvp/src/main/java/mvp/presenter/PresenterServiceImpl.java:43-56 | with no usable bundle id: one factory call, exactly one new root under the new id holding the view, all other nodes kept, the new id current, listener installed; with a live bundled id: no factory call, no new key, the same presenter gets the view, others untouched, that id current; a factory failure escapes |
| `PresenterService.TakeChild` | mvp/src/main/java/mvp/presenter/PresenterServiceImpl.java:61-68 | exactly one new child whose parent id is the current parent id at call time (null or sentinel included); all other nodes and `currentParentId` are unchanged |
| `PresenterService.OnPresenterViewResumed` | mvp/src/main/java/mvp/presenter/PresenterServiceImpl.java:70-78 | an unknown id changes nothing and calls nothing; otherwise `onResume` fires once, and the id becomes current iff it is a root |
| `PresenterService.OnPresenterViewPaused` | mvp/src/main/java/mvp/presenter/PresenterServiceImpl.java:80-85 | the registry never changes; `onPause` fires once iff the id is known |
| `PresenterService.OnPresenterViewReady` | mvp/src/main/java/mvp/presenter/PresenterServiceImpl.java:87-92 | the registry never changes; `onViewReady` fires once iff the id is known |
| `PresenterService.GetCurrentParent` | mvp/src/main/java/mvp/presenter/PresenterServiceImpl.java:94-98 | succeeds iff the current parent id is non-null and registered, returning that node's presenter |
| `PresenterService.GetPresenter` | mvp/src/main/java/mvp/presenter/PresenterServiceImpl.java:149-154 | succeeds iff the id is registered, returning its presenter; otherwise "presenter does not exist" |
| `PresenterService.ClearParent` | mvp/src/main/java/mvp/presenter/PresenterServiceImpl.java:36-38 | keeps all nodes and sets the current parent id to the sentinel `""` (not null), so a later child records a harmless sentinel parent; as long as the sentinel is not a key, `getCurrentParent` then fails |
| `PresenterService.Unbind` | mvp/src/main/java/mvp/presenter/PresenterServiceImpl.java:129-134 | a presenter with a view has its view's listener cleared and then `dropView()` called; a presenter without a view is left alone; either way it ends with no view |
| `PresenterService.ScanChildren` | mvp/src/main/java/mvp/presenter/PresenterServiceImpl.java:113-122 | the child collection fails iff the iteration meets a child with a null parent id; otherwise it yields exactly the children recorded under the root, each once |
| `PresenterService.DestroyPresenters` | mvp/src/main/java/mvp/presenter/PresenterServiceImpl.java:136-147 | removes exactly the listed ids; the current parent falls back to the sentinel iff it was among them |
| `PresenterService.DropPresenterView` | mvp/src/main/java/mvp/presenter/PresenterServiceImpl.java:104-127 | an unknown id is a no-op; otherwise `retain` chooses the transient or the permanent detach |
| `PresenterService.DetachRetained` | mvp/src/main/java/mvp/presenter/PresenterServiceImpl.java:124-134 | keeps every node and its role, keeps `currentParentId`, and only unbinds that presenter's view, calling nothing if it had none |
| `PresenterService.DetachPermanently` | mvp/src/main/java/mvp/presenter/PresenterServiceImpl.java:111-123 | fails iff the node is a root and some child has a null parent id; otherwise it removes exactly the node plus, for a root, its recorded children, and resets the current parent iff it was removed |
| `PresenterService.ClosureIsScanned` | mvp/src/main/java/mvp/presenter/PresenterServiceImpl.java:113-122 | the collected destroy list has no duplicates and covers exactly the node and its recorded children |
| `CascadeTrace.DestroyPresentersCalls` | mvp/src/main/java/mvp/presenter/PresenterServiceImpl.java:136-147 | the trace of the destroy loop depends only on the nodes as they were before it started |
| `CascadeTrace.DestroyCount` | mvp/src/main/java/mvp/presenter/PresenterServiceImpl.java:136-147 | with distinct presenters, each listed presenter gets `destroy()` exactly once and any other presenter never gets it |
| `CascadeTrace.DropViewCount` | mvp/src/main/java/mvp/presenter/PresenterServiceImpl.java:129-147 | each listed presenter gets `dropView()` once iff it held a view, and any other presenter never gets it |
| `CascadeTrace.CascadeTouchesOnly` | mvp/src/main/java/mvp/presenter/PresenterServiceImpl.java:129-147 | the destroy loop only clears listeners and drops or destroys presenters of listed nodes |
| `CascadeTrace.PermanentDropTrace` | mvp/src/main/java/mvp/presenter/PresenterServiceImpl.java:111-147 | after a permanent detach, each presenter in the removed family is destroyed exactly once and dropped once iff it had a view; no other presenter is destroyed or dropped |
| `CascadeTrace.UnbindPrecedesDestroy` | mvp/src/main/java/mvp/presenter/PresenterServiceImpl.java:129-147 | in the destroy loop, a listed presenter holding a view gets, as three consecutive calls, its view's listener cleared, `dropView()`, then `destroy()` |
| `CascadeTrace.PermanentDropUnbindsFirst` | mvp/src/main/java/mvp/presenter/PresenterServiceImpl.java:111-147 | after a permanent detach, every removed presenter that held a view had its listener cleared and its view dropped immediately before its destroy |
| `CascadeTrace.PermanentDropTouchesOnly` | mvp/src/main/java/mvp/presenter/PresenterServiceImpl.java:111-147 | apart from those calls, a permanent detach only clears listeners |
| `RegistryProperties.TakeRootViewKeepsValid` | mvp/src/main/java/mvp/presenter/PresenterServiceImpl.java:43-56 | `takeView` preserves the registry invariant, for bundles whose live id names a root |
| `RegistryProperties.TakeChildKeepsValid` | mvp/src/main/java/mvp/presenter/PresenterServiceImpl.java:61-68 | `takeChild` preserves the registry invariant |
| `RegistryProperties.NotificationsKeepValid` | mvp/src/main/java/mvp/presenter/PresenterServiceImpl.java:36-92 | resume, pause, ready and `clearParent` preserve the registry invariant |
| `RegistryProperties.DetachRetainedKeepsValid` | mvp/src/main/java/mvp/presenter/PresenterServiceImpl.java:124-134 | the retained detach preserves the registry invariant |
| `RegistryProperties.DetachPermanentlyKeepsValid` | mvp/src/main/java/mvp/presenter/PresenterServiceImpl.java:111-147 | the permanent detach preserves the invariant: no surviving child points at a removed root, and the current parent is live or the sentinel |
| `RegistryProperties.DropPresenterViewKeepsValid` | mvp/src/main/java/mvp/presenter/PresenterServiceImpl.java:104-127 | `dropView(id, retain)` preserves the registry invariant |
| `RegistryProperties.CurrentParentIsLiveRoot` | mvp/src/main/java/mvp/presenter/PresenterServiceImpl.java:94-98 | under the invariant, `getCurrentParent` succeeds exactly when the current parent id names a live root |
| `RegistryProperties.SaveKeepsBundleSound` | mvp/src/main/java/mvp/presenter/PresenterServiceImpl.java:156-160 | `savePresenter` never makes a bundle name a child |
| `RegistryProperties.ReuseIgnoresOracles` | mvp/src/main/java/mvp/presenter/PresenterServiceImpl.java:45-51 | restoring from a bundle with a live id uses neither the id generator nor the factory |
| `RegistryProperties.SaveThenRestore` | mvp/src/test/java/mvp/presenter/PresenterServiceImplTest.java:69-129 | a root whose id was saved is restored with the same presenter object, no factory call, and becomes current |
| `RegistryProperties.RetainThenReattach` | mvp/src/main/java/mvp/presenter/PresenterServiceImpl.java:124-171 | after a retained detach, a resume still reaches the same presenter, and `takeView` with the saved bundle rebinds it without the factory |
| `RegistryProperties.StaleEventsAreNoOps` | mvp/src/main/java/mvp/presenter/PresenterServiceImpl.java:104-107 | after a permanent detach, the id is gone, and a second detach, a pause or a resume on it changes and calls nothing |
| `RegistryProperties.CascadeScenario` | mvp/src/test/java/mvp/presenter/PresenterServiceImplTest.java:446-465 | a permanent detach of the current root with two children empties the registry and resets the current parent to the sentinel |
| `RegistryProperties.DestroyingWholeFamilyEmpties` | mvp/src/main/java/mvp/presenter/PresenterServiceImpl.java:111-147 | when every other node is a child of the current root, destroying that root empties the registry and resets the current parent |
| `RegistryProperties.CurrentParentFollowsLatestRoot` | mvp/src/main/java/mvp/presenter/PresenterServiceImpl.java:55-75 | for the fixed sequence root A, child C, root B, followed by a resume of C or a resume of A: the current parent is the root attached or resumed last, and attaching or resuming the child does not move it |
| `RegistryProperties.OrphanChildBlocksRootCascade` | mvp/src/main/java/mvp/presenter/PresenterServiceImpl.java:113-123 | a child attached before any root makes the later permanent detach of a root fail with a null parent id, whatever the iteration order |
| `RegistryProperties.ScanErrorNamesOrphan` | mvp/src/main/java/mvp/presenter/PresenterServiceImpl.java:117-118 | when only one child has a null parent id, the scan's failure names that child |
| `Listener.Forward` | mvp/src/main/java/mvp/presenter/PresenterLifecycleListenerImpl.java:15-41 | every callback becomes exactly the matching registry call, carrying the listener's fixed id; `retain` and the bundle are passed unchanged |
| `Listener.Apply` | mvp/src/main/java/mvp/presenter/PresenterLifecycleListenerImpl.java:15-41 | only a detach can fail; only `onSaveInstanceState` yields a bundle; a call for an unknown id changes nothing; pause, ready and save never change the registry |
| `Listener.ApplyKeepsValid` | mvp/src/main/java/mvp/presenter/PresenterLifecycleListenerImpl.java:15-41 | whatever callback a listener forwards, the registry invariant is preserved |
| `Listener.DestroyedIsNotRetained` | mvp/src/main/java/mvp/presenter/PresenterLifecycleListenerImpl.java:28-36 | a plain `onDestroy()` has the same effect as `onDestroy(false)` |
| `Listener.RootListenerTargetsItsNode` | mvp/src/main/java/mvp/presenter/PresenterServiceImpl.java:52-55 | the listener `takeView` installs is bound to the node it attached, which is current, and a resume through it reaches that node's presenter |
| `Validator.CheckValidClass` | mvp-compiler/src/main/java/mvp/compiler/Validator.java:20-83 | a non-public class is rejected as not public, checked before abstractness; a public abstract class is rejected as abstract; otherwise it is accepted iff some enclosed element is a public constructor with no parameters, else rejected for lacking one |
| `Validator.NonConstructorsIgnored` | mvp-compiler/src/main/java/mvp/compiler/Validator.java:71-79 | inserting an element that is not a constructor anywhere never changes acceptance |
| `Validator.OnlyEmptyPublicConstructorsCount` | mvp-compiler/src/main/java/mvp/compiler/Validator.java:71-82 | a class whose constructors all take parameters or are not public is rejected |

## Left out

- Concurrency: the registry has no locking, and the model is sequential.
- The annotation processor's code generation (`MVPAnnotationProcessor`,
  `PresenterAnnotatedClass`) is not part of this model. The generated
  `PresenterFactory` appears only as the `made` parameter, which is a new
  presenter or a failure.
- `MVPView`: its rx lifecycle binder and network callbacks are not part of this
  model. Only `setLifecycleListener` appears, as the `SetListener` trace event.
- Android `Bundle` is reduced to a string map.
- `savePresenter` with a null bundle is not modelled. It would throw for a
  root id, and the listener always passes the framework's non-null bundle.
- UUID randomness is reduced to the `newId` parameter, which is fresh and not
  the sentinel.
- `HashMap` iteration order is reduced to the `iteration` parameter. Only the
  permanent detach consults it. Whether it fails, the registry it leaves and
  how often each presenter is dropped and destroyed do not depend on the
  order. The order in which the children are unbound and destroyed does, and
  so does which child a null-parent failure names.
- The presenter interface's `onResume`, `onPause`, `onViewReady` and `destroy`
  bodies belong to concrete presenters and are recorded only as trace events.
  Concrete presenters are assumed to keep `AbstractPresenter`'s view-slot
  behaviour.
- The thin interfaces `Presenter`, `PresenterService`,
  `PresenterServiceInternal` and `PresenterLifecycleListener` are folded into
  the modelled event set. The mismatch between `PresenterServiceInternal`'s
  `onPresenterResumed/Paused` and the implementation's `onPresenterView*`
  names is not modelled.
- Nodes stored under a key other than their own id occur only when tests
  write into the map directly. The model keys every node by its id.
- The processor's commented-out inheritance check in `Validator` is not
  modelled, and neither is the text of its error messages.
- Validator.CheckValidClass: a public abstract class is modelled as rejected
  with the abstract-class `ProcessingException`. The message at
  `Validator.java:31` ends in the malformed conversion `@%`.
  `ProcessingException` is not part of this model. If it formats its message
  with `String.format`, as the `%s` arguments at its call sites suggest, the
  source would throw `UnknownFormatConversionException` there instead. The
  caller at `MVPAnnotationProcessor.java:85` does not catch that exception.
