/** The view slot every presenter inherits from `AbstractPresenter`: a
    presenter holds at most one view, `takeView` stores the new view and then
    runs the `onTakeView` hook, `dropView` runs the `onDropView` hook and then
    clears the slot. The hooks are recorded with the view they observe. */
module Presenters {
  import opened Wrappers

  /** Opaque identity of a view object. */
  type View = nat

  /** Opaque identity of a presenter object (object identity in the source). */
  type PresenterRef = nat

  datatype Presenter = Presenter(ref: PresenterRef, view: Option<View>)

  /** A hook call, together with what `getView()` returns while it runs. */
  datatype Hook = OnTakeView(sees: Option<View>) | OnDropView(sees: Option<View>)

  /** A presenter call: the presenter afterwards and the hooks it ran, in order. */
  datatype Step = Step(after: Presenter, hooks: seq<Hook>)

  /** A presenter nobody has given a view yet. */
  function Fresh(ref: PresenterRef): (p: Presenter)
    ensures p.ref == ref && GetView(p).None?
  {
    Presenter(ref, None)
  }

  function GetView(p: Presenter): Option<View> {
    p.view
  }

  /** `takeView`: store the view first, then run the hook against the new state. */
  function TakeView(p: Presenter, v: View): (s: Step)
    ensures s.after.ref == p.ref
    ensures GetView(s.after) == Some(v)
    ensures s.hooks == [OnTakeView(Some(v))]
    ensures forall h :: h in s.hooks ==> !h.OnDropView?
  {
    var stored := p.(view := Some(v));
    Step(stored, [OnTakeView(GetView(stored))])
  }

  /** `dropView`: run the hook against the old state, then clear the slot. */
  function DropView(p: Presenter): (s: Step)
    ensures s.after.ref == p.ref
    ensures GetView(s.after).None?
    ensures s.hooks == [OnDropView(GetView(p))]
  {
    var hooks := [OnDropView(GetView(p))];
    Step(p.(view := None), hooks)
  }

  /** Taking a view and dropping it again leaves a presenter with no view,
      whose two hooks both observed that view. */
  lemma TakeThenDrop(p: Presenter, v: View)
    ensures DropView(TakeView(p, v).after).after == Fresh(p.ref)
    ensures TakeView(p, v).hooks + DropView(TakeView(p, v).after).hooks
            == [OnTakeView(Some(v)), OnDropView(Some(v))]
  {
  }

  /** A second `takeView` replaces the first view without any `onDropView`. */
  lemma TakeViewOverwrites(p: Presenter, v1: View, v2: View)
    ensures TakeView(TakeView(p, v1).after, v2).after == TakeView(p, v2).after
    ensures GetView(TakeView(TakeView(p, v1).after, v2).after) == Some(v2)
  {
  }
}
