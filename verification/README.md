# render-peek in Dafny

`useRenderPeek(props, options)` is a React hook that makes a component flash
when it re-renders although its relevant props did not change. Each render
hands the hook the component's props. After the render commits, an effect
compares the previous props with the current ones, both with the keys in
`options.ignoreKeys` removed, using deep structural equality. When they are
equal the render was redundant: the hook raises its `shouldFlash` flag and
replaces any pending reset timeout by a fresh 500 ms one. In every case it
then stores the full current props as the previous record. When the timeout
runs, it clears the flag and the stored handle. A render returns
`className: 'render-peek-flash'` while the flag is on and `''` otherwise.

The model is a deterministic state machine for one component instance:

- `Wrappers` holds `Option`, for the nullable refs and the optional options.
- `Values` holds a JSON-like `Value`: primitives, arrays, string-keyed objects,
  and functions as opaque references. It also holds `DeepEqual`, the equality
  `fast-deep-equal` computes on such values.
- `Filtering` holds `Props`, `RenderPeekOptions` and `GetFilteredProps`.
- `Timers` holds the host's timeout queue, with `SetTimeout` and `ClearTimeout`.
- `RenderPeek` holds the hook's memory (`Hook`: `prev`, `flash`, `timer`) and
  the effect step. It also holds the timeout firing, `ClassName`, the
  instance invariant, and `Replay`, which drives an instance through a
  sequence of commits and timeouts.
- `Scenarios` holds concrete runs matching the demo components.

The React runtime is reduced to two explicit events. `Commit(props, options)`
means a render committed and its effect runs. `Timeout(id)` means the host
runs timeout `id`.

Three points of timing and storage follow the code closely:

- The hook keeps a reference to the full, unfiltered props object as the
  previous record (src/useRenderPeek.tsx:130) and filters it again with the
  current options at the next comparison. `EffectStep` stores a snapshot of
  the full props as a value and filters it the same way.
- The effect returns no cleanup function, so a pending timeout is never
  cancelled at unmount. The model has no unmount.
- A render returns the class of the state it started from; the comparison
  runs afterwards in the effect. `Replay` models this timing.

## Model

| member | source | states |
|---|---|---|
| Values.DeepEqualIsEquality | src/useRenderPeek.tsx:114-116 | deep equality of two acyclic values holds exactly when they are the same structural value, so a fresh copy with the same content compares equal and two distinct closures never do |
| Filtering.DeleteEach | src/useRenderPeek.tsx:28-30 | deleting the listed keys one by one removes exactly those keys and keeps every other entry with its value, whether keys repeat or are absent |
| Filtering.GetFilteredProps | src/useRenderPeek.tsx:23-32 | with nothing to ignore the props come back unchanged; otherwise the result has exactly the props' keys minus the ignored ones, each with its original value |
| Filtering.IgnoringAbsentKeysKeepsProps | src/useRenderPeek.tsx:27-31 | ignoring only keys the props do not have leaves the props as they are |
| Filtering.FilteredViewsEqualIff | src/useRenderPeek.tsx:23-31 | two props records have equal filtered views if and only if they agree on every key outside the ignored set |
| Timers.SetTimeout | src/useRenderPeek.tsx:123-126 | scheduling returns a handle larger than every handle handed out before, that was not pending, makes it pending with the given delay and keeps every other pending timeout |
| Timers.ClearTimeout | src/useRenderPeek.tsx:119-121 | clearing withdraws exactly the given handle and keeps every other pending timeout and the handle counter |
| RenderPeek.Mount | src/useRenderPeek.tsx:16-20 | a fresh instance has no previous props, the flag off, and satisfies the instance invariant |
| RenderPeek.RaiseFlash | src/useRenderPeek.tsx:117-126 | the equal branch turns the flag on, withdraws the stored timeout, and leaves exactly one fresh handle pending in its place with the 500 ms delay |
| RenderPeek.EffectStep | src/useRenderPeek.tsx:110-131 | after every commit the previous record is the full current props; the first commit changes nothing else; a redundant commit turns the flag on with a fresh timeout replacing the old one; a changed commit leaves flag and timeouts as they were |
| RenderPeek.ResetFlash | src/useRenderPeek.tsx:123-126 | the timeout callback turns the flag off and drops the stored handle, keeping the previous props |
| RenderPeek.FireTimer | src/useRenderPeek.tsx:119-126 | a pending timeout that runs turns the flag off and leaves the queue; a cleared or already-run one changes nothing |
| RenderPeek.ClassName | src/useRenderPeek.tsx:133-135 | the class is `render-peek-flash` exactly when the flag is on and the empty string exactly when it is off |
| RenderPeek.Replay | src/useRenderPeek.tsx:9-136 | driving a fresh instance through commits and timeouts keeps the invariant, and records the class showing when each event arrives; for a commit that is the class its render returned, from the state before its effect runs |
| RenderPeek.EffectStepKeepsInv | src/useRenderPeek.tsx:116-130 | a commit preserves: flag on exactly while a reset is stored, and the stored reset is the only pending timeout |
| RenderPeek.FireTimerKeepsInv | src/useRenderPeek.tsx:123-126 | running any timeout preserves the instance invariant |
| RenderPeek.RunKeepsInv | src/useRenderPeek.tsx:110-131 | every sequence of commits and timeouts from a valid instance ends in a valid instance, so at most one reset is ever pending |
| RenderPeek.RedundantIffAgreeOutsideIgnored | src/useRenderPeek.tsx:111-116 | the effect finds a render redundant exactly when previous and current props differ at most in ignored keys |
| RenderPeek.FirstCommitOnlyRecords | src/useRenderPeek.tsx:111-130 | the first commit never flashes and schedules nothing; it only records the props |
| RenderPeek.RedundantCommitLeavesOneTimer | src/useRenderPeek.tsx:116-126 | after a redundant commit the flag is on and exactly one 500 ms reset is pending, the previously stored one having been withdrawn |
| RenderPeek.ChangedPropsDoNotFlash | src/useRenderPeek.tsx:116-130 | when a relevant key changed and no flash was on, the commit leaves the flag off and nothing pending |
| RenderPeek.SamePropsTwiceFlashes | src/useRenderPeek.tsx:130 | committing the same props twice always flashes the second time, because the full props are stored |
| RenderPeek.IgnoredKeyChangeFlashes | src/useRenderPeek.tsx:110-130 | two consecutive commits that differ only in ignored keys are treated as no change: the second one flashes |
| RenderPeek.StoredTimerEndsFlash | src/useRenderPeek.tsx:123-126 | running the stored timeout turns the flash off, clears the class and leaves nothing pending |
| RenderPeek.OnlyStoredTimerFires | src/useRenderPeek.tsx:119-126 | any timeout other than the stored one has no effect on the instance |
| RenderPeek.RetiredStaysRetired | src/useRenderPeek.tsx:119-126 | a handle that was handed out and is no longer pending stays so after any sequence of commits and timeouts, because the model's handles only grow |
| RenderPeek.ReplacedTimerNeverFires | src/useRenderPeek.tsx:119-126 | a reset replaced by a redundant commit never takes effect: after that commit and any sequence of later events, running it changes nothing |
| Scenarios.DeepEqualCopyFlashesThenClears | example/src/App.tsx:30-31 | `{staticObj: {id: 1}}` re-sent as a new object with the same content flashes on the second commit, and the reset it schedules clears the flash |
| Scenarios.IgnoredCallbackFlashes | examples/basic/src/App.tsx:6-9 | with `stableId` unchanged and a fresh `unstableCallback`, detection fails unless the callback key is ignored; ignored, the second commit flashes |
| Scenarios.ChangedCountDoesNotFlash | example/src/CaseNoFlash.tsx:8-18 | `{count: 1}` then `{count: 2}` is a necessary re-render and does not flash |

## Left out

- The React runtime is not modelled: `useRef`, `useState`, re-render scheduling, and the dependency array `[props, options]` that decides when the effect runs (src/useRenderPeek.tsx:131). Commits and timeouts are explicit events instead. So the model does not decide whether the effect runs again on the re-render caused by the flag's own state change. That happens when a component passes its options as an inline object literal.
- The comparison block inside the render (src/useRenderPeek.tsx:34-108) is not modelled. It computes a result and discards it, so it changes no state.
- `fast-deep-equal` is not part of this model. It is replaced by structural equality on `Value`.
- RenderPeek.EffectStep: objects and arrays are values without identity, so props mutated in place between renders are outside the model. The hook keeps a reference, and `fast-deep-equal` counts an object as equal to itself, so the code would treat such props as unchanged and flash. The model compares the stored snapshot with the new content and sees a change. React's rules forbid mutating props in place.
- Values.DeepEqualIsEquality: numbers are integers, so `NaN` (which the library counts equal to itself) and `-0` are not represented. Dates, regular expressions, typed arrays, Maps, Sets and prototype or constructor checks are not represented either. Cyclic values are outside the library's contract and are not modelled.
- Wall-clock time is not modelled. A pending timeout only records its 500 ms delay, and the host running it is the `Timeout` event.
- The timeout queue belongs to one instance. Other instances' timeouts on the same host queue are not modelled; the hook never touches them.
- Unmount is not modelled. The effect returns no cleanup function, so the code never cancels a pending timeout at unmount.
- src/utils/injectStyles.ts (the one-time style injection at src/useRenderPeek.tsx:14) is not part of this model. It is a DOM side effect.
- The demo applications, the type declaration file and the build configuration are not part of this model. The `Scenarios` module replays the demos' cases as concrete runs.
