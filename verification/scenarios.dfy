/** Concrete runs of the hook: the cases the demo components exercise. */
module Scenarios {
  import opened Wrappers
  import opened Values
  import opened Filtering
  import opened RenderPeek

  /** Options that ignore one key. */
  function Ignoring(key: Key): Option<RenderPeekOptions>
  {
    Some(RenderPeekOptions(Some([key])))
  }

  /** `{staticObj: {id: 1}}` committed twice, the second time as a new
      object with the same content and no options: the second commit flashes, and
      the reset it schedules (the first handle) switches the flash off. */
  lemma DeepEqualCopyFlashesThenClears()
    ensures var p := map["staticObj" := Obj(map["id" := Num(1)])];
      var flashed := Run(Mount(), [Commit(p, None), Commit(p, None)]);
      var cleared := Run(Mount(), [Commit(p, None), Commit(p, None), Timeout(1)]);
      && ClassName(flashed.hook) == FlashClassName
      && flashed.hook.timer == Some(1)
      && ClassName(cleared.hook) == ""
  {
    var p := map["staticObj" := Obj(map["id" := Num(1)])];
    SamePropsTwiceFlashes(Mount(), p, None);
    var events := [Commit(p, None), Commit(p, None), Timeout(1)];
    assert events[..2] == [Commit(p, None), Commit(p, None)];
    assert events[..2][..1] == [Commit(p, None)];
    assert events[..2][..1][..0] == [];
    var first := EffectStep(Mount(), p, None);
    assert first.timers == Mount().timers && first.hook.timer.None?;
    assert RaiseFlash(first).hook.timer == Some(1);
    var second := EffectStep(first, p, None);
    assert Run(Mount(), events[..2][..1][..0]) == Mount();
    assert Run(Mount(), events[..2][..1]) == first;
    assert Run(Mount(), events[..2]) == second;
    assert second.hook.timer == Some(1);
  }

  /** `{stableId, unstableCallback: f1}` then the same id with a new closure
      `f2`: a fresh callback is a different value, so without options nothing
      flashes, while ignoring `unstableCallback` makes the second commit
      redundant. */
  lemma IgnoredCallbackFlashes()
    ensures var p1 := map["stableId" := Str("static-id-123"), "unstableCallback" := Fn(1)];
      var p2 := map["stableId" := Str("static-id-123"), "unstableCallback" := Fn(2)];
      && Run(Mount(), [Commit(p1, Ignoring("unstableCallback")), Commit(p2, Ignoring("unstableCallback"))]).hook.flash
      && !Run(Mount(), [Commit(p1, None), Commit(p2, None)]).hook.flash
  {
    var p1 := map["stableId" := Str("static-id-123"), "unstableCallback" := Fn(1)];
    var p2 := map["stableId" := Str("static-id-123"), "unstableCallback" := Fn(2)];
    assert AgreeOutside(p1, p2, IgnoredKeys(Ignoring("unstableCallback")));
    IgnoredKeyChangeFlashes(Mount(), p1, p2, Ignoring("unstableCallback"));
    assert p1["unstableCallback"] != p2["unstableCallback"];
    RedundantIffAgreeOutsideIgnored(p1, p2, None);
    var e := [Commit(p1, Ignoring("unstableCallback")), Commit(p2, Ignoring("unstableCallback"))];
    assert e[..1] == [Commit(p1, Ignoring("unstableCallback"))] && e[..1][..0] == [];
    var f := [Commit(p1, None), Commit(p2, None)];
    assert f[..1] == [Commit(p1, None)] && f[..1][..0] == [];
    var first := EffectStep(Mount(), p1, None);
    assert !first.hook.flash;
    assert Run(Mount(), f[..1][..0]) == Mount();
    assert Run(Mount(), f[..1]) == first;
    assert Run(Mount(), f) == EffectStep(first, p2, None);
  }

  /** `{count: 1}` then `{count: 2}`: a necessary re-render, so the flash stays off. */
  lemma ChangedCountDoesNotFlash()
    ensures var events := [Commit(map["count" := Num(1)], None), Commit(map["count" := Num(2)], None)];
      ClassName(Run(Mount(), events).hook) == ""
  {
    var p1, p2 := map["count" := Num(1)], map["count" := Num(2)];
    assert p1["count"] != p2["count"];
    RedundantIffAgreeOutsideIgnored(p1, p2, None);
    var events := [Commit(p1, None), Commit(p2, None)];
    assert events[..1] == [Commit(p1, None)] && events[..1][..0] == [];
  }
}
