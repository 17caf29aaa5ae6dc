/** The host's timeout queue as one instance of the hook sees it:
    `setTimeout` hands out a fresh handle, `clearTimeout` withdraws one, and a
    timeout that runs leaves the queue. Wall-clock time is not modelled; each
    entry only records the delay it was scheduled with. */
module Timers {

  /** A timeout handle. The model hands out positive integers, as browsers
      do, so a handle is never falsy and `if (timeoutRef.current)` holds
      exactly when a handle is stored. */
  type TimerId = n: nat | 0 < n witness 1

  /** The timeouts that are scheduled and have neither run nor been cleared,
      with their delays in milliseconds, and the next handle to hand out. */
  datatype TimerTable = TimerTable(pending: map<TimerId, nat>, nextId: TimerId)

  /** The result of `setTimeout`: the new queue and the handle returned. */
  datatype Scheduled = Scheduled(table: TimerTable, id: TimerId)

  const NoTimers: TimerTable := TimerTable(map[], 1)

  /** Every pending handle has already been handed out, so the next one is fresh. */
  predicate HandlesIssued(t: TimerTable)
  {
    forall id :: id in t.pending ==> id < t.nextId
  }

  /** `setTimeout(callback, delay)`: the returned handle was not pending, and
      it is now pending with `delay` while every other entry stays. The
      model hands out increasing handles, as browsers do, so a handle is
      never handed out twice; on any host a cleared timeout's callback
      never runs. */
  function SetTimeout(t: TimerTable, delay: nat): (r: Scheduled)
    requires HandlesIssued(t)
    ensures HandlesIssued(r.table)
    ensures r.id == t.nextId < r.table.nextId
    ensures r.id !in t.pending
    ensures r.table.pending.Keys == t.pending.Keys + {r.id}
    ensures r.table.pending[r.id] == delay
    ensures forall id :: id in t.pending ==> r.table.pending[id] == t.pending[id]
  {
    Scheduled(TimerTable(t.pending[t.nextId := delay], t.nextId + 1), t.nextId)
  }

  /** `clearTimeout(id)`: the handle is no longer pending and every other entry
      stays. The host drops a timeout that has run in the same way. */
  function ClearTimeout(t: TimerTable, id: TimerId): (r: TimerTable)
    ensures HandlesIssued(t) ==> HandlesIssued(r)
    ensures r.pending.Keys == t.pending.Keys - {id}
    ensures forall other :: other in r.pending ==> r.pending[other] == t.pending[other]
    ensures r.nextId == t.nextId
  {
    TimerTable(t.pending - {id}, t.nextId)
  }
}
