/** The calls a permanent detach makes on presenters and views. The cascade
    looks every id up in a map it has not yet removed that id from, so its
    trace is determined by the registry it started from. */
module CascadeTrace {
  import opened Wrappers
  import P = Presenters
  import opened PresenterService

  /** What destroying `ids` in order calls, read off the starting map. */
  function CascadeCalls(nodes: map<Id, Node>, ids: seq<Id>): seq<Event>
    requires forall k :: k in ids ==> k in nodes
  {
    if |ids| == 0 then []
    else Unbind(nodes[ids[0]].presenter).1 + [Destroy(nodes[ids[0]].presenter.ref)] + CascadeCalls(nodes, ids[1..])
  }

  /** Two maps that agree on `ids` give the same calls. */
  lemma {:induction false} CascadeCallsFrame(n1: map<Id, Node>, n2: map<Id, Node>, ids: seq<Id>)
    requires forall k :: k in ids ==> k in n1 && k in n2 && n1[k] == n2[k]
    ensures CascadeCalls(n1, ids) == CascadeCalls(n2, ids)
    decreases |ids|
  {
    if |ids| > 0 {
      CascadeCallsFrame(n1, n2, ids[1..]);
    }
  }

  /** The loop that removes one node per iteration makes exactly these calls. */
  lemma {:induction false} DestroyPresentersCalls(reg: Registry, ids: seq<Id>)
    requires Distinct(ids) && forall k :: k in ids ==> k in reg.nodes
    ensures DestroyPresenters(reg, ids).trace == CascadeCalls(reg.nodes, ids)
    decreases |ids|
  {
    if |ids| > 0 {
      var id := ids[0];
      var current := if reg.currentParentId == Some(id) then Some(NoPresenterId) else reg.currentParentId;
      var reg1 := Registry(reg.nodes - {id}, current);
      forall k | k in ids[1..] ensures k in reg1.nodes && reg1.nodes[k] == reg.nodes[k] {
        var j :| 0 <= j < |ids[1..]| && ids[1..][j] == k;
        assert ids[j + 1] == k;
      }
      DistinctTail(ids);
      DestroyPresentersCalls(reg1, ids[1..]);
      CascadeCallsFrame(reg1.nodes, reg.nodes, ids[1..]);
    }
  }

  lemma CountSplit(a: seq<Event>, b: seq<Event>, c: seq<Event>, e: Event)
    ensures multiset(a + b + c)[e] == multiset(a)[e] + multiset(b)[e] + multiset(c)[e]
  {
  }

  /** Every call of the cascade clears a listener or targets a presenter of
      one of the destroyed ids. */
  lemma {:induction false} CascadeTouchesOnly(nodes: map<Id, Node>, ids: seq<Id>, e: Event)
    requires forall k :: k in ids ==> k in nodes
    requires e in CascadeCalls(nodes, ids)
    ensures (e.SetListener? && e.listener.None?) ||
            ((e.Destroy? || e.DropView?) && exists k :: k in ids && nodes[k].presenter.ref == e.presenter)
    decreases |ids|
  {
    var head := Unbind(nodes[ids[0]].presenter).1 + [Destroy(nodes[ids[0]].presenter.ref)];
    assert CascadeCalls(nodes, ids) == head + CascadeCalls(nodes, ids[1..]);
    if e in head {
      assert ids[0] in ids;
    } else {
      CascadeTouchesOnly(nodes, ids[1..], e);
      if !e.SetListener? {
        var k :| k in ids[1..] && nodes[k].presenter.ref == e.presenter;
        assert k in ids;
      }
    }
  }

  /** A presenter outside `ids` is never the target of a cascade call. */
  lemma CascadeSkips(nodes: map<Id, Node>, ids: seq<Id>, k: Id)
    requires forall j :: j in ids ==> j in nodes
    requires DistinctPresenters(nodes) && k in nodes && k !in ids
    ensures Destroy(nodes[k].presenter.ref) !in CascadeCalls(nodes, ids)
    ensures DropView(nodes[k].presenter.ref) !in CascadeCalls(nodes, ids)
  {
    if Destroy(nodes[k].presenter.ref) in CascadeCalls(nodes, ids) {
      CascadeTouchesOnly(nodes, ids, Destroy(nodes[k].presenter.ref));
    }
    if DropView(nodes[k].presenter.ref) in CascadeCalls(nodes, ids) {
      CascadeTouchesOnly(nodes, ids, DropView(nodes[k].presenter.ref));
    }
  }

  lemma DistinctTail(ids: seq<Id>)
    requires |ids| > 0 && Distinct(ids)
    ensures Distinct(ids[1..]) && ids[0] !in ids[1..]
    ensures forall k :: k in ids <==> k == ids[0] || k in ids[1..]
  {
    forall a, b | 0 <= a < b < |ids[1..]| ensures ids[1..][a] != ids[1..][b] {
      assert ids[1..][a] == ids[a + 1] && ids[1..][b] == ids[b + 1];
    }
    forall j | 0 <= j < |ids[1..]| ensures ids[1..][j] != ids[0] {
      assert ids[1..][j] == ids[j + 1];
    }
    assert ids == [ids[0]] + ids[1..];
  }

  /** `t` appears in `s` as a contiguous run starting at index `i`. */
  predicate OccursAt(s: seq<Event>, t: seq<Event>, i: int) {
    0 <= i && i + |t| <= |s| && s[i..i + |t|] == t
  }

  /** A destroyed presenter that holds a view is unbound right before it is
      destroyed: its view's listener is cleared, then `dropView()`, then
      `destroy()`, as three consecutive calls. */
  lemma {:induction false} UnbindPrecedesDestroy(nodes: map<Id, Node>, ids: seq<Id>, k: Id)
    requires forall j :: j in ids ==> j in nodes
    requires k in ids && nodes[k].presenter.view.Some?
    ensures var calls := CascadeCalls(nodes, ids);
            var p := nodes[k].presenter;
            exists i :: OccursAt(calls, [SetListener(p.view.value, None), DropView(p.ref), Destroy(p.ref)], i)
    decreases |ids|
  {
    var calls := CascadeCalls(nodes, ids);
    var p := nodes[k].presenter;
    var want := [SetListener(p.view.value, None), DropView(p.ref), Destroy(p.ref)];
    var head := Unbind(nodes[ids[0]].presenter).1 + [Destroy(nodes[ids[0]].presenter.ref)];
    var rest := CascadeCalls(nodes, ids[1..]);
    assert calls == head + rest;
    if ids[0] == k {
      assert head == want;
      assert calls[0..3] == want by {
        assert |head| == 3;
        assert forall j :: 0 <= j < 3 ==> calls[j] == head[j];
      }
      assert OccursAt(CascadeCalls(nodes, ids), [SetListener(nodes[k].presenter.view.value, None), DropView(nodes[k].presenter.ref), Destroy(nodes[k].presenter.ref)], 0);
    } else {
      assert k in ids[1..] by {
        var j :| 0 <= j < |ids| && ids[j] == k;
        assert j > 0 && ids[1..][j - 1] == k;
      }
      UnbindPrecedesDestroy(nodes, ids[1..], k);
      var i :| OccursAt(rest, want, i);
      assert calls[|head| + i..|head| + i + 3] == rest[i..i + 3];
      assert OccursAt(CascadeCalls(nodes, ids), [SetListener(nodes[k].presenter.view.value, None), DropView(nodes[k].presenter.ref), Destroy(nodes[k].presenter.ref)], |head| + i);
    }
  }

  /** `destroy()` reaches each destroyed presenter exactly once and no other. */
  lemma {:induction false} DestroyCount(nodes: map<Id, Node>, ids: seq<Id>, k: Id)
    requires Distinct(ids) && forall j :: j in ids ==> j in nodes
    requires DistinctPresenters(nodes) && k in nodes
    ensures multiset(CascadeCalls(nodes, ids))[Destroy(nodes[k].presenter.ref)] == if k in ids then 1 else 0
    decreases |ids|
  {
    if k !in ids {
      CascadeSkips(nodes, ids, k);
    } else {
      var h := ids[0];
      var e := Destroy(nodes[k].presenter.ref);
      var unbound := Unbind(nodes[h].presenter).1;
      var rest := CascadeCalls(nodes, ids[1..]);
      assert CascadeCalls(nodes, ids) == unbound + [Destroy(nodes[h].presenter.ref)] + rest;
      CountSplit(unbound, [Destroy(nodes[h].presenter.ref)], rest, e);
      assert e !in unbound;
      DistinctTail(ids);
      if k == h {
        CascadeSkips(nodes, ids[1..], k);
      } else {
        assert nodes[k].presenter.ref != nodes[h].presenter.ref;
        DestroyCount(nodes, ids[1..], k);
      }
    }
  }

  /** `dropView()` reaches each destroyed presenter that held a view exactly
      once and no other presenter. */
  lemma {:induction false} DropViewCount(nodes: map<Id, Node>, ids: seq<Id>, k: Id)
    requires Distinct(ids) && forall j :: j in ids ==> j in nodes
    requires DistinctPresenters(nodes) && k in nodes
    ensures multiset(CascadeCalls(nodes, ids))[DropView(nodes[k].presenter.ref)]
            == if k in ids && nodes[k].presenter.view.Some? then 1 else 0
    decreases |ids|
  {
    if k !in ids {
      CascadeSkips(nodes, ids, k);
    } else {
      var h := ids[0];
      var e := DropView(nodes[k].presenter.ref);
      var unbound := Unbind(nodes[h].presenter).1;
      var rest := CascadeCalls(nodes, ids[1..]);
      assert CascadeCalls(nodes, ids) == unbound + [Destroy(nodes[h].presenter.ref)] + rest;
      CountSplit(unbound, [Destroy(nodes[h].presenter.ref)], rest, e);
      DistinctTail(ids);
      if k == h {
        CascadeSkips(nodes, ids[1..], k);
      } else {
        assert nodes[k].presenter.ref != nodes[h].presenter.ref;
        assert e !in unbound;
        DropViewCount(nodes, ids[1..], k);
      }
    }
  }

  /** The calls a permanent detach makes: each presenter in the closure gets
      `destroy()` exactly once and `dropView()` exactly once if it held a view;
      presenters outside the closure get neither, and nothing else is called
      except clearing the removed views' listeners. */
  lemma PermanentDropTrace(reg: Registry, id: Id, iteration: seq<Id>, k: Id)
    requires id in reg.nodes && Enumerates(iteration, reg.nodes)
    requires DistinctPresenters(reg.nodes) && k in reg.nodes
    requires DetachPermanently(reg, id, iteration).Ok?
    ensures var trace := DetachPermanently(reg, id, iteration).value.trace;
            && multiset(trace)[Destroy(reg.nodes[k].presenter.ref)] == (if k in Closure(reg.nodes, id) then 1 else 0)
            && multiset(trace)[DropView(reg.nodes[k].presenter.ref)]
               == (if k in Closure(reg.nodes, id) && reg.nodes[k].presenter.view.Some? then 1 else 0)
  {
    {
      var children := if reg.nodes[id].role.Root? then ScanChildren(iteration, reg.nodes, id).value else [];
      ClosureIsScanned(reg.nodes, id, iteration, children);
      var ids := [id] + children;
      DestroyPresentersCalls(reg, ids);
      DestroyCount(reg.nodes, ids, k);
      DropViewCount(reg.nodes, ids, k);
      assert k in ids <==> k in Closure(reg.nodes, id);
    }
  }

  /** Besides those, a permanent detach only clears the removed views' listeners. */
  lemma PermanentDropTouchesOnly(reg: Registry, id: Id, iteration: seq<Id>, e: Event)
    requires id in reg.nodes && Enumerates(iteration, reg.nodes)
    requires DetachPermanently(reg, id, iteration).Ok?
    requires e in DetachPermanently(reg, id, iteration).value.trace
    ensures (e.SetListener? && e.listener.None?) ||
            ((e.Destroy? || e.DropView?) && exists k :: k in Closure(reg.nodes, id) && reg.nodes[k].presenter.ref == e.presenter)
  {
    var children := if reg.nodes[id].role.Root? then ScanChildren(iteration, reg.nodes, id).value else [];
    ClosureIsScanned(reg.nodes, id, iteration, children);
    var ids := [id] + children;
    DestroyPresentersCalls(reg, ids);
    CascadeTouchesOnly(reg.nodes, ids, e);
    assert forall k :: k in ids <==> k in Closure(reg.nodes, id);
  }

  /** In a permanent detach, every removed presenter that holds a view has its
      listener cleared and its view dropped immediately before its destroy. */
  lemma PermanentDropUnbindsFirst(reg: Registry, id: Id, iteration: seq<Id>, k: Id)
    requires id in reg.nodes && Enumerates(iteration, reg.nodes)
    requires DetachPermanently(reg, id, iteration).Ok?
    requires k in Closure(reg.nodes, id) && reg.nodes[k].presenter.view.Some?
    ensures var trace := DetachPermanently(reg, id, iteration).value.trace;
            var p := reg.nodes[k].presenter;
            exists i :: OccursAt(trace, [SetListener(p.view.value, None), DropView(p.ref), Destroy(p.ref)], i)
  {
    var children := if reg.nodes[id].role.Root? then ScanChildren(iteration, reg.nodes, id).value else [];
    ClosureIsScanned(reg.nodes, id, iteration, children);
    var ids := [id] + children;
    DestroyPresentersCalls(reg, ids);
    assert k in ids;
    UnbindPrecedesDestroy(reg.nodes, ids, k);
  }
}
