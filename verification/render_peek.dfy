/** `useRenderPeek`: the per-instance state of the hook, the effect that runs
    after each commit, the timeout that ends a flash, and the class name a
    render returns. The React runtime is reduced to two explicit events: a
    commit of a render (after which the effect runs) and the host running a
    timeout. */
module RenderPeek {
  import opened Wrappers
  import opened Values
  import opened Filtering
  import opened Timers

  /** The class a render returns while the flash is on. */
  const FlashClassName: string := "render-peek-flash"

  /** How long a flash lasts after the latest redundant render, in milliseconds. */
  const FlashDurationMs: nat := 500

  /** The hook's memory for one component instance: `prevPropsRef`, the
      `shouldFlash` state and `timeoutRef`. */
  datatype Hook = Hook(prev: Option<Props>, flash: bool, timer: Option<TimerId>)

  /** One component instance together with the timeouts it has scheduled. */
  datatype Instance = Instance(hook: Hook, timers: TimerTable)

  /** The first render: both refs are `null`, the flag is off, nothing is scheduled. */
  function Mount(): (s: Instance)
    ensures Inv(s)
    ensures s.hook.prev.None? && !s.hook.flash
  {
    Instance(Hook(None, false, None), NoTimers)
  }

  /** The timeouts that should be pending for a given hook memory: the one
      stored in `timeoutRef`, with the flash delay, or none. */
  function ExpectedTimers(h: Hook): map<TimerId, nat>
  {
    match h.timer
    case None => map[]
    case Some(id) => map[id := FlashDurationMs]
  }

  /** What holds of an instance between events: the flag is on exactly while
      a reset timeout is stored; the stored timeout is the only one pending;
      and before the first commit nothing is flashing. */
  predicate Inv(s: Instance)
  {
    && HandlesIssued(s.timers)
    && (s.hook.flash <==> s.hook.timer.Some?)
    && s.timers.pending == ExpectedTimers(s.hook)
    && (s.hook.prev.None? ==> !s.hook.flash)
  }

  /** The filtered previous and current props are deeply equal, so this
      render was redundant. */
  predicate IsRedundant(prev: Props, current: Props, options: Option<RenderPeekOptions>)
  {
    DeepEqual(Obj(GetFilteredProps(prev, options)), Obj(GetFilteredProps(current, options)))
  }

  /** The equal branch of the effect: raise the flag, clear the stored
      timeout if there is one, and schedule a fresh reset. The fresh handle
      was not pending before, the old one is no longer pending, and nothing
      else changes. */
  function RaiseFlash(s: Instance): (r: Instance)
    requires HandlesIssued(s.timers)
    ensures HandlesIssued(r.timers)
    ensures r.hook.flash && r.hook.prev == s.hook.prev
    ensures r.hook.timer.Some? && r.hook.timer.value !in s.timers.pending
    ensures r.hook.timer.value == s.timers.nextId < r.timers.nextId
    ensures r.timers.pending.Keys
            == s.timers.pending.Keys - OptionKeys(s.hook.timer) + {r.hook.timer.value}
    ensures r.timers.pending[r.hook.timer.value] == FlashDurationMs
    ensures forall id :: id in r.timers.pending ==> id == r.hook.timer.value || r.timers.pending[id] == s.timers.pending[id]
  {
    var cleared :=
      if s.hook.timer.Some? then ClearTimeout(s.timers, s.hook.timer.value) else s.timers;
    var scheduled := SetTimeout(cleared, FlashDurationMs);
    Instance(Hook(s.hook.prev, true, Some(scheduled.id)), scheduled.table)
  }

  /** The handle stored in a nullable timeout ref, as a set. */
  function OptionKeys(o: Option<TimerId>): set<TimerId>
  {
    if o.Some? then {o.value} else {}
  }

  /** The effect that runs after a render with `props` and `options` commits.
      It always stores the full, unfiltered props as the previous record. On
      the first commit it does nothing else. Afterwards, when the filtered
      views are deeply equal it raises the flag and replaces the pending
      reset by a fresh one; when they differ the flag and the timeouts are
      left as they were, even a flag that is still on. */
  function EffectStep(s: Instance, props: Props, options: Option<RenderPeekOptions>): (r: Instance)
    requires HandlesIssued(s.timers)
    ensures HandlesIssued(r.timers)
    ensures s.timers.nextId <= r.timers.nextId
    ensures r.hook.prev == Some(props)
    ensures s.hook.prev.None? ==>
      r.hook.flash == s.hook.flash && r.hook.timer == s.hook.timer && r.timers == s.timers
    ensures s.hook.prev.Some? && IsRedundant(s.hook.prev.value, props, options) ==>
      && r.hook.flash
      && r.hook.timer.Some?
      && r.hook.timer.value !in s.timers.pending
      && r.timers.pending.Keys == s.timers.pending.Keys - OptionKeys(s.hook.timer) + {r.hook.timer.value}
    ensures s.hook.prev.Some? && !IsRedundant(s.hook.prev.value, props, options) ==>
      r.hook.flash == s.hook.flash && r.hook.timer == s.hook.timer && r.timers == s.timers
  {
    var current := GetFilteredProps(props, options);
    var compared :=
      if s.hook.prev.Some? && DeepEqual(Obj(GetFilteredProps(s.hook.prev.value, options)), Obj(current))
      then RaiseFlash(s)
      else s;
    compared.(hook := compared.hook.(prev := Some(props)))
  }

  /** The reset callback: the flag goes off and the stored handle is dropped. */
  function ResetFlash(h: Hook): (r: Hook)
    ensures !r.flash && r.timer.None? && r.prev == h.prev
  {
    h.(flash := false, timer := None)
  }

  /** The host runs timeout `id`. A pending timeout leaves the queue and runs
      its reset; a cleared or already-run timeout never runs, so nothing
      changes. */
  function FireTimer(s: Instance, id: TimerId): (r: Instance)
    requires HandlesIssued(s.timers)
    ensures HandlesIssued(r.timers)
    ensures r.timers.nextId == s.timers.nextId
    ensures id !in s.timers.pending ==> r == s
    ensures id in s.timers.pending ==>
      && !r.hook.flash
      && r.hook.timer.None?
      && r.hook.prev == s.hook.prev
      && r.timers.pending.Keys == s.timers.pending.Keys - {id}
  {
    if id in s.timers.pending
    then Instance(ResetFlash(s.hook), ClearTimeout(s.timers, id))
    else s
  }

  /** The `className` a render returns: the flash class exactly while the
      flag is on, the empty string otherwise. */
  function ClassName(h: Hook): (c: string)
    ensures c == FlashClassName <==> h.flash
    ensures c == "" <==> !h.flash
  {
    if h.flash then FlashClassName else ""
  }

  /** The events that drive one instance: a render committed with these props
      and options, or the host running a timeout. */
  datatype Event =
    | Commit(props: Props, options: Option<RenderPeekOptions>)
    | Timeout(id: TimerId)

  function Step(s: Instance, e: Event): (r: Instance)
    requires HandlesIssued(s.timers)
    ensures HandlesIssued(r.timers)
  {
    match e
    case Commit(props, options) => EffectStep(s, props, options)
    case Timeout(id) => FireTimer(s, id)
  }

  /** The instance after a sequence of events, in order. */
  function Run(s: Instance, events: seq<Event>): (r: Instance)
    requires HandlesIssued(s.timers)
    ensures HandlesIssued(r.timers)
    decreases |events|
  {
    if |events| == 0 then s
    else Step(Run(s, events[..|events| - 1]), events[|events| - 1])
  }

  /** Mounts an instance and drives it through `events`, collecting the
      class name showing when each event arrives. For a commit this is the
      class its render returned: a render returns the class of the state it
      starts from, and the effect runs only after that render is on screen,
      so a redundant render is shown without the flash and the flash
      appears on the next render. */
  method Replay(events: seq<Event>) returns (s: Instance, classNames: seq<string>)
    ensures s == Run(Mount(), events)
    ensures Inv(s)
    ensures |classNames| == |events|
    ensures forall i :: 0 <= i < |events| ==>
      classNames[i] == ClassName(Run(Mount(), events[..i]).hook)
  {
    s := Mount();
    classNames := [];
    var i := 0;
    while i < |events|
      invariant 0 <= i <= |events|
      invariant s == Run(Mount(), events[..i])
      invariant Inv(s)
      invariant |classNames| == i
      invariant forall j :: 0 <= j < i ==>
        classNames[j] == ClassName(Run(Mount(), events[..j]).hook)
    {
      classNames := classNames + [ClassName(s.hook)];
      StepKeepsInv(s, events[i]);
      assert events[..i + 1][..i] == events[..i];
      s := Step(s, events[i]);
      i := i + 1;
    }
    assert events[..i] == events;
  }

  // ----- Properties of the effect, the timeout and the class name -----

  /** A commit keeps the invariant: at most one reset is ever pending and the
      flag is on exactly while it is. */
  lemma EffectStepKeepsInv(s: Instance, props: Props, options: Option<RenderPeekOptions>)
    requires Inv(s)
    ensures Inv(EffectStep(s, props, options))
  {
    var r := EffectStep(s, props, options);
    if s.hook.prev.Some? && IsRedundant(s.hook.prev.value, props, options) {
      var id := r.hook.timer.value;
      assert r.timers.pending.Keys == {id};
      assert r.timers.pending == map[id := FlashDurationMs];
    }
  }

  /** The host running any timeout keeps the invariant. */
  lemma FireTimerKeepsInv(s: Instance, id: TimerId)
    requires Inv(s)
    ensures Inv(FireTimer(s, id))
  {
    var r := FireTimer(s, id);
    if id in s.timers.pending {
      assert r.timers.pending.Keys == {};
    }
  }

  lemma StepKeepsInv(s: Instance, e: Event)
    requires Inv(s)
    ensures Inv(Step(s, e))
  {
    match e
    case Commit(props, options) => EffectStepKeepsInv(s, props, options);
    case Timeout(id) => FireTimerKeepsInv(s, id);
  }

  /** Every reachable instance satisfies the invariant. */
  lemma {:induction false} RunKeepsInv(s: Instance, events: seq<Event>)
    requires Inv(s)
    ensures Inv(Run(s, events))
    decreases |events|
  {
    if |events| > 0 {
      var front := events[..|events| - 1];
      RunKeepsInv(s, front);
      StepKeepsInv(Run(s, front), events[|events| - 1]);
    }
  }

  /** A render is redundant exactly when the previous and current props
      differ at most in ignored keys. */
  lemma RedundantIffAgreeOutsideIgnored(prev: Props, current: Props, options: Option<RenderPeekOptions>)
    ensures IsRedundant(prev, current, options) <==> AgreeOutside(prev, current, IgnoredKeys(options))
  {
    var fp, fc := GetFilteredProps(prev, options), GetFilteredProps(current, options);
    DeepEqualIsEquality(Obj(fp), Obj(fc));
    FilteredViewsEqualIff(prev, current, options);
  }

  /** The first commit of a fresh instance never flashes and schedules
      nothing: it only records the props. */
  lemma FirstCommitOnlyRecords(s: Instance, props: Props, options: Option<RenderPeekOptions>)
    requires Inv(s) && s.hook.prev.None?
    ensures var r := EffectStep(s, props, options);
      && r.hook == Hook(Some(props), false, None)
      && r.timers.pending == map[]
      && ClassName(r.hook) == ""
  {
  }

  /** After a redundant commit the flag is on and exactly one reset is
      pending, the fresh one with the flash delay; the reset that was pending
      before, if any, has been withdrawn. */
  lemma RedundantCommitLeavesOneTimer(s: Instance, props: Props, options: Option<RenderPeekOptions>)
    requires Inv(s) && s.hook.prev.Some? && IsRedundant(s.hook.prev.value, props, options)
    ensures var r := EffectStep(s, props, options);
      && r.hook.flash
      && ClassName(r.hook) == FlashClassName
      && r.hook.timer.Some?
      && r.timers.pending == map[r.hook.timer.value := FlashDurationMs]
      && (s.hook.timer.Some? ==> s.hook.timer.value !in r.timers.pending)
  {
    EffectStepKeepsInv(s, props, options);
  }

  /** When the relevant props changed and no flash was on, the commit leaves
      the flag off and schedules nothing. */
  lemma ChangedPropsDoNotFlash(s: Instance, props: Props, options: Option<RenderPeekOptions>)
    requires Inv(s) && !s.hook.flash && s.hook.prev.Some?
    requires !AgreeOutside(s.hook.prev.value, props, IgnoredKeys(options))
    ensures var r := EffectStep(s, props, options);
      && !r.hook.flash
      && ClassName(r.hook) == ""
      && r.timers.pending == map[]
  {
    RedundantIffAgreeOutsideIgnored(s.hook.prev.value, props, options);
  }

  /** Committing the same props twice in a row always flashes on the second
      commit, because the stored previous record is the full props. */
  lemma SamePropsTwiceFlashes(s: Instance, props: Props, options: Option<RenderPeekOptions>)
    requires HandlesIssued(s.timers)
    ensures EffectStep(EffectStep(s, props, options), props, options).hook.flash
  {
    var f := GetFilteredProps(props, options);
    DeepEqualIsEquality(Obj(f), Obj(f));
  }

  /** Two consecutive commits whose props differ only in ignored keys are
      treated as no change: the second one flashes. */
  lemma IgnoredKeyChangeFlashes(s: Instance, p: Props, q: Props, options: Option<RenderPeekOptions>)
    requires HandlesIssued(s.timers)
    requires AgreeOutside(p, q, IgnoredKeys(options))
    ensures EffectStep(EffectStep(s, p, options), q, options).hook.flash
  {
    RedundantIffAgreeOutsideIgnored(p, q, options);
  }

  /** Firing the stored timeout switches the flash off and leaves nothing
      pending. */
  lemma StoredTimerEndsFlash(s: Instance)
    requires Inv(s) && s.hook.timer.Some?
    ensures var r := FireTimer(s, s.hook.timer.value);
      && !r.hook.flash
      && ClassName(r.hook) == ""
      && r.hook.timer.None?
      && r.timers.pending == map[]
  {
    FireTimerKeepsInv(s, s.hook.timer.value);
  }

  /** Any timeout other than the stored one has no effect: it was cleared
      or has already run. */
  lemma OnlyStoredTimerFires(s: Instance, id: TimerId)
    requires Inv(s) && s.hook.timer != Some(id)
    ensures FireTimer(s, id) == s
  {
  }

  /** A handle that was handed out before and is no longer pending. */
  predicate Retired(s: Instance, id: TimerId)
  {
    id < s.timers.nextId && id !in s.timers.pending
  }

  /** Once retired, a handle stays retired whatever happens next: handles
      in the model only grow, so no later `setTimeout` hands it out again. */
  lemma {:induction false} RetiredStaysRetired(s: Instance, events: seq<Event>, id: TimerId)
    requires HandlesIssued(s.timers) && Retired(s, id)
    ensures Retired(Run(s, events), id)
    decreases |events|
  {
    if |events| > 0 {
      var front := events[..|events| - 1];
      RetiredStaysRetired(s, front, id);
    }
  }

  /** A reset that a later redundant commit replaced never takes effect:
      right after the replacing commit the flash is on, and after any
      sequence of further events running the replaced timeout changes
      nothing. */
  lemma ReplacedTimerNeverFires(s: Instance, props: Props, options: Option<RenderPeekOptions>, events: seq<Event>)
    requires Inv(s) && s.hook.timer.Some?
    requires s.hook.prev.Some? && IsRedundant(s.hook.prev.value, props, options)
    ensures EffectStep(s, props, options).hook.flash
    ensures var r := Run(EffectStep(s, props, options), events);
      FireTimer(r, s.hook.timer.value) == r
  {
    var replaced := s.hook.timer.value;
    var r := EffectStep(s, props, options);
    RedundantCommitLeavesOneTimer(s, props, options);
    assert Retired(r, replaced);
    RetiredStaysRetired(r, events, replaced);
  }
}
