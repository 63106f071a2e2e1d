/** Properties that relate several registry operations: the invariant every
    transition keeps, the save/restore round trip, and the scenarios the
    registry's behaviour is defined by. */
module RegistryProperties {
  import opened Wrappers
  import P = Presenters
  import opened PresenterService

  // ---------------------------------------------------------------------------
  // The invariant is kept by every operation

  lemma TakeRootViewKeepsValid(reg: Registry, view: P.View, bundle: Option<Bundle>, newId: Id, made: Option<P.PresenterRef>)
    requires Valid(reg) && FreshFor(reg, newId, made) && BundleSound(reg, bundle)
    ensures TakeRootView(reg, view, bundle, newId, made).Ok? ==> Valid(TakeRootView(reg, view, bundle, newId, made).value.reg)
  {
  }

  lemma TakeChildKeepsValid(reg: Registry, view: P.View, newId: Id, made: Option<P.PresenterRef>)
    requires Valid(reg) && FreshFor(reg, newId, made)
    ensures TakeChild(reg, view, newId, made).Ok? ==> Valid(TakeChild(reg, view, newId, made).value.reg)
  {
  }

  lemma NotificationsKeepValid(reg: Registry, id: Id)
    requires Valid(reg)
    ensures Valid(OnPresenterViewResumed(reg, id).reg)
    ensures Valid(OnPresenterViewPaused(reg, id).reg)
    ensures Valid(OnPresenterViewReady(reg, id).reg)
    ensures Valid(ClearParent(reg))
  {
  }

  lemma DetachRetainedKeepsValid(reg: Registry, id: Id)
    requires Valid(reg) && id in reg.nodes
    ensures Valid(DetachRetained(reg, id).reg)
  {
    var after := DetachRetained(reg, id).reg.nodes;
    assert forall k :: k in after ==> after[k].role == reg.nodes[k].role;
    assert forall k :: k in after ==> after[k].presenter.ref == reg.nodes[k].presenter.ref;
  }

  /** Destroying a closure keeps the invariant: the surviving children's
      parents are outside the closure, and a destroyed current parent is
      replaced by the sentinel. */
  lemma DetachPermanentlyKeepsValid(reg: Registry, id: Id, iteration: seq<Id>)
    requires Valid(reg) && id in reg.nodes && Enumerates(iteration, reg.nodes)
    ensures DetachPermanently(reg, id, iteration).Ok? ==> Valid(DetachPermanently(reg, id, iteration).value.reg)
  {
    var r := DetachPermanently(reg, id, iteration);
    if r.Ok? {
      var after := r.value.reg.nodes;
      var closure := Closure(reg.nodes, id);
      assert after == reg.nodes - closure;
      forall k | k in after && after[k].role.Child?
        ensures NamesRootOrNothing(after, after[k].role.parentId)
      {
        var parent := after[k].role.parentId;
        if parent.Some? && parent.value != NoPresenterId {
          assert IsRoot(reg.nodes, parent.value);
          assert k !in closure;
          assert parent.value !in closure;
        }
      }
    }
  }

  lemma DropPresenterViewKeepsValid(reg: Registry, id: Id, retain: bool, iteration: seq<Id>)
    requires Valid(reg) && Enumerates(iteration, reg.nodes)
    ensures DropPresenterView(reg, id, retain, iteration).Ok? ==> Valid(DropPresenterView(reg, id, retain, iteration).value.reg)
  {
    if id in reg.nodes {
      if retain {
        DetachRetainedKeepsValid(reg, id);
      } else {
        DetachPermanentlyKeepsValid(reg, id, iteration);
      }
    }
  }

  /** Under the invariant the current parent can be fetched exactly when a
      root is current; after `clearParent` or a destroyed parent it throws. */
  lemma CurrentParentIsLiveRoot(reg: Registry)
    requires Valid(reg)
    ensures GetCurrentParent(reg).Ok? <==> reg.currentParentId.Some? && IsRoot(reg.nodes, reg.currentParentId.value)
  {
  }

  // ---------------------------------------------------------------------------
  // Save and restore

  lemma SaveKeepsBundleSound(reg: Registry, id: Id, bundle: Bundle)
    requires BundleSound(reg, Some(bundle))
    ensures BundleSound(reg, Some(SavePresenter(reg, id, bundle)))
  {
  }

  /** Restoring from a bundle never consults the id generator or the factory:
      the outcome is the same whatever they would have produced. */
  lemma ReuseIgnoresOracles(reg: Registry, view: P.View, bundle: Option<Bundle>,
                            id1: Id, made1: Option<P.PresenterRef>, id2: Id, made2: Option<P.PresenterRef>)
    requires FreshFor(reg, id1, made1) && FreshFor(reg, id2, made2)
    requires PresenterAlreadyExists(reg, bundle)
    ensures TakeRootView(reg, view, bundle, id1, made1) == TakeRootView(reg, view, bundle, id2, made2)
  {
  }

  /** A root whose id was saved is found again by `takeView`: the same
      presenter object receives the new view, no presenter is created and the
      root becomes current. */
  lemma SaveThenRestore(reg: Registry, id: Id, bundle: Bundle, view: P.View, newId: Id, made: Option<P.PresenterRef>)
    requires IsRoot(reg.nodes, id) && FreshFor(reg, newId, made)
    ensures var r := TakeRootView(reg, view, Some(SavePresenter(reg, id, bundle)), newId, made);
            && r.Ok?
            && r.value.reg.nodes.Keys == reg.nodes.Keys
            && r.value.reg.nodes[id].presenter == P.Presenter(reg.nodes[id].presenter.ref, Some(view))
            && r.value.reg.currentParentId == Some(id)
            && CreatePresenter(view) !in r.value.trace
  {
    var saved := SavePresenter(reg, id, bundle);
    assert BundledId(Some(saved)) == Some(id);
    assert PresenterAlreadyExists(reg, Some(saved));
  }

  /** Transient teardown and reattachment: after a retained drop the node is
      still there, a resume still reaches the same presenter, and `takeView`
      with the saved bundle rebinds that presenter without the factory. */
  lemma RetainThenReattach(reg: Registry, id: Id, bundle: Bundle, iteration: seq<Id>,
                           view: P.View, newId: Id, made: Option<P.PresenterRef>)
    requires IsRoot(reg.nodes, id) && Enumerates(iteration, reg.nodes)
    requires FreshFor(reg, newId, made)
    ensures DropPresenterView(reg, id, true, iteration).Ok?
    ensures var kept := DropPresenterView(reg, id, true, iteration).value.reg;
            && OnPresenterViewResumed(kept, id).trace == [OnResume(reg.nodes[id].presenter.ref)]
            && var r := TakeRootView(kept, view, Some(SavePresenter(reg, id, bundle)), newId, made);
               && r.Ok?
               && r.value.reg.nodes[id].presenter == P.Presenter(reg.nodes[id].presenter.ref, Some(view))
               && r.value.reg.currentParentId == Some(id)
               && CreatePresenter(view) !in r.value.trace
  {
    var kept := DropPresenterView(reg, id, true, iteration).value.reg;
    assert IsRoot(kept.nodes, id);
    assert FreshFor(kept, newId, made);
    assert SavePresenter(reg, id, bundle) == SavePresenter(kept, id, bundle);
    SaveThenRestore(kept, id, bundle, view, newId, made);
  }

  /** Late events after a permanent detach are harmless: the id is gone, so a
      second detach or a pause changes nothing and calls nothing. */
  lemma StaleEventsAreNoOps(reg: Registry, id: Id, iteration: seq<Id>, retain: bool, later: seq<Id>)
    requires Enumerates(iteration, reg.nodes)
    requires DropPresenterView(reg, id, false, iteration).Ok?
    requires Enumerates(later, DropPresenterView(reg, id, false, iteration).value.reg.nodes)
    ensures var gone := DropPresenterView(reg, id, false, iteration).value.reg;
            && id !in gone.nodes
            && DropPresenterView(gone, id, retain, later) == Ok(Step(gone, []))
            && OnPresenterViewPaused(gone, id) == Step(gone, [])
            && OnPresenterViewResumed(gone, id) == Step(gone, [])
  {
  }

  // ---------------------------------------------------------------------------
  // Scenarios

  /** A fresh root with two children attached under it. */
  function RootWithTwoChildren(r: Id, c1: Id, c2: Id, v1: P.View, v2: P.View, v3: P.View): (reg: Registry)
    requires NoPresenterId !in {r, c1, c2} && r != c1 && r != c2 && c1 != c2
    ensures reg.nodes.Keys == {r, c1, c2} && reg.currentParentId == Some(r)
    ensures reg.nodes[r] == Node(P.Presenter(10, Some(v1)), Root)
    ensures reg.nodes[c1] == Node(P.Presenter(20, Some(v2)), Child(Some(r)))
    ensures reg.nodes[c2] == Node(P.Presenter(30, Some(v3)), Child(Some(r)))
  {
    var root := TakeRootView(Empty(), v1, None, r, Some(10)).value.reg;
    assert root.nodes == map[r := Node(P.Presenter(10, Some(v1)), Root)];
    var one := TakeChild(root, v2, c1, Some(20)).value.reg;
    assert one.nodes == root.nodes[c1 := Node(P.Presenter(20, Some(v2)), Child(Some(r)))];
    TakeChild(one, v3, c2, Some(30)).value.reg
  }

  /** Destroying that root permanently removes all three nodes in any
      iteration order, and the current parent falls back to the sentinel. */
  lemma CascadeScenario(r: Id, c1: Id, c2: Id, v1: P.View, v2: P.View, v3: P.View, iteration: seq<Id>)
    requires NoPresenterId !in {r, c1, c2} && r != c1 && r != c2 && c1 != c2
    requires Distinct(iteration) && r in iteration && c1 in iteration && c2 in iteration
    requires forall k :: k in iteration ==> k == r || k == c1 || k == c2
    ensures var reg := RootWithTwoChildren(r, c1, c2, v1, v2, v3);
            && DropPresenterView(reg, r, false, iteration).Ok?
            && DropPresenterView(reg, r, false, iteration).value.reg == Registry(map[], Some(NoPresenterId))
  {
    var reg := RootWithTwoChildren(r, c1, c2, v1, v2, v3);
    assert Enumerates(iteration, reg.nodes);
    FamilyOfRoot(r, c1, c2, v1, v2, v3);
    DestroyingWholeFamilyEmpties(reg, r, iteration);
  }

  lemma FamilyOfRoot(r: Id, c1: Id, c2: Id, v1: P.View, v2: P.View, v3: P.View)
    requires NoPresenterId !in {r, c1, c2} && r != c1 && r != c2 && c1 != c2
    ensures var reg := RootWithTwoChildren(r, c1, c2, v1, v2, v3);
            && IsRoot(reg.nodes, r)
            && forall k :: k in reg.nodes && k != r ==> IsChildOf(reg.nodes[k], r)
  {
    var reg := RootWithTwoChildren(r, c1, c2, v1, v2, v3);
    forall k | k in reg.nodes && k != r ensures IsChildOf(reg.nodes[k], r) {
      assert k == c1 || k == c2;
    }
  }

  /** Permanently destroying the current root when every other node is its
      child empties the registry and resets the current parent. */
  lemma DestroyingWholeFamilyEmpties(reg: Registry, r: Id, iteration: seq<Id>)
    requires IsRoot(reg.nodes, r) && Enumerates(iteration, reg.nodes)
    requires reg.currentParentId == Some(r)
    requires forall k :: k in reg.nodes && k != r ==> IsChildOf(reg.nodes[k], r)
    ensures DropPresenterView(reg, r, false, iteration).Ok?
    ensures DropPresenterView(reg, r, false, iteration).value.reg == Registry(map[], Some(NoPresenterId))
  {
    var closure := Closure(reg.nodes, r);
    assert forall k :: k in reg.nodes ==> k in closure;
    assert reg.nodes - closure == map[];
  }

  /** The current parent is the root attached or resumed last, never a child. */
  lemma CurrentParentFollowsLatestRoot(a: Id, c: Id, b: Id, va: P.View, vc: P.View, vb: P.View)
    requires NoPresenterId !in {a, b, c} && a != b && a != c && b != c
    ensures var ra := TakeRootView(Empty(), va, None, a, Some(10));
            && ra.Ok?
            && var rc := TakeChild(ra.value.reg, vc, c, Some(20));
               && rc.Ok?
               && var rb := TakeRootView(rc.value.reg, vb, None, b, Some(30));
                  && rb.Ok?
                  && GetCurrentParent(rc.value.reg) == Ok(P.Presenter(10, Some(va)))
                  && GetCurrentParent(rb.value.reg) == Ok(P.Presenter(30, Some(vb)))
                  && GetCurrentParent(OnPresenterViewResumed(rb.value.reg, c).reg) == Ok(P.Presenter(30, Some(vb)))
                  && GetCurrentParent(OnPresenterViewResumed(rb.value.reg, a).reg) == Ok(P.Presenter(10, Some(va)))
  {
  }

  /** A child attached before any root records a null parent id; from then on
      permanently destroying a root throws while collecting its children,
      whatever the iteration order, and nothing is destroyed. */
  lemma OrphanChildBlocksRootCascade(c: Id, r: Id, vc: P.View, vr: P.View)
    requires NoPresenterId !in {c, r} && c != r
    ensures var orphan := TakeChild(Empty(), vc, c, Some(10));
            && orphan.Ok?
            && orphan.value.reg.nodes[c].role == Child(None)
            && var both := TakeRootView(orphan.value.reg, vr, None, r, Some(20));
               && both.Ok?
               && forall iteration :: Enumerates(iteration, both.value.reg.nodes) ==>
                    DropPresenterView(both.value.reg, r, false, iteration) == Err(NullParentId(c))
  {
    var orphan := TakeChild(Empty(), vc, c, Some(10)).value.reg;
    var both := TakeRootView(orphan, vr, None, r, Some(20)).value.reg;
    forall iteration | Enumerates(iteration, both.nodes)
      ensures DropPresenterView(both, r, false, iteration) == Err(NullParentId(c))
    {
      assert both.nodes[c].role == Child(None);
      assert both.nodes.Keys == {c, r};
      ScanErrorNamesOrphan(iteration, both.nodes, r, c);
    }
  }

  /** A scan that meets exactly one child with a null parent id reports it. */
  lemma {:induction false} ScanErrorNamesOrphan(iteration: seq<Id>, nodes: map<Id, Node>, id: Id, orphan: Id)
    requires forall k :: k in iteration ==> k in nodes
    requires forall k :: k in iteration && nodes[k].role == Child(None) ==> k == orphan
    ensures ScanChildren(iteration, nodes, id).Err? ==> ScanChildren(iteration, nodes, id) == Err(NullParentId(orphan))
    decreases |iteration|
  {
    if |iteration| > 0 {
      assert forall k :: k in iteration[1..] ==> k in iteration;
      ScanErrorNamesOrphan(iteration[1..], nodes, id, orphan);
    }
  }
}
