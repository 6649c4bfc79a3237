/** One-shot timers (`setTimeout`/`clearTimeout`) over an explicit
    millisecond clock: a map from handle to the pending deadline and the
    action the callback performs. Handles are positive and never reused,
    as in a browser. */
module Timers {

  import opened Js

  datatype Timer<A> = Timer(deadline: nat, action: A)

  datatype Queue<A> = Queue(pending: map<nat, Timer<A>>, next: nat)

  ghost predicate Valid<A>(q: Queue<A>) {
    q.next >= 1 && forall h :: h in q.pending ==> 1 <= h < q.next
  }

  function Empty<A>(): (q: Queue<A>)
    ensures Valid(q) && q.pending == map[]
  {
    Queue(map[], 1)
  }

  /** `setTimeout(action, delay)` at time `now`: a fresh handle whose timer
      is due at `now + delay`; every other timer is kept as it was. */
  function Schedule<A>(q: Queue<A>, now: nat, delay: nat, action: A): (r: (Queue<A>, nat))
    requires Valid(q)
    ensures Valid(r.0)
    ensures r.1 >= 1 && r.1 !in q.pending
    ensures q.next <= r.1 < r.0.next
    ensures r.1 in r.0.pending && r.0.pending[r.1] == Timer(now + delay, action)
    ensures r.0.pending.Keys == q.pending.Keys + {r.1}
    ensures forall h :: h in q.pending ==> r.0.pending[h] == q.pending[h]
  {
    (Queue(q.pending[q.next := Timer(now + delay, action)], q.next + 1), q.next)
  }

  /** `clearTimeout(h)`: a no-op on a missing, fired or already cleared handle. */
  function Cancel<A>(q: Queue<A>, h: Option<nat>): (r: Queue<A>)
    requires Valid(q)
    ensures Valid(r) && r.next == q.next
    ensures h.Some? ==> h.value !in r.pending
    ensures forall k :: k in q.pending && h != Some(k) ==> k in r.pending && r.pending[k] == q.pending[k]
    ensures r.pending.Keys <= q.pending.Keys
  {
    match h
    case None => q
    case Some(k) => Queue(q.pending - {k}, q.next)
  }

  /** The handles whose pending callback performs `a`. */
  function With<A(==)>(q: Queue<A>, a: A): set<nat> {
    set h | h in q.pending && q.pending[h].action == a
  }

  /** Removes a timer that is due: the runtime is about to call it. */
  function Fire<A>(q: Queue<A>, h: nat): (r: Queue<A>)
    requires Valid(q) && h in q.pending
    ensures Valid(r) && h !in r.pending && r.next == q.next
    ensures r.pending.Keys == q.pending.Keys - {h}
    ensures forall k :: k in r.pending ==> r.pending[k] == q.pending[k]
  {
    Queue(q.pending - {h}, q.next)
  }

  /** Cancelling never adds a timer for an action. */
  lemma CancelShrinks<A>(q: Queue<A>, h: Option<nat>, a: A)
    requires Valid(q)
    ensures With(Cancel(q, h), a) <= With(q, a)
  {
    forall x | x in With(Cancel(q, h), a) ensures x in With(q, a) {
      assert x in q.pending && h != Some(x);
    }
  }

  /** Cancelling the only handle an action's timers can have leaves none. */
  lemma CancelClears<A>(q: Queue<A>, h: nat, a: A)
    requires Valid(q) && With(q, a) <= {h}
    ensures With(Cancel(q, Some(h)), a) == {}
  {
    CancelShrinks(q, Some(h), a);
  }

  /** Scheduling adds the new handle to its own action's timers and to no
      other action's. */
  lemma ScheduleWith<A>(q: Queue<A>, now: nat, delay: nat, action: A, a: A)
    requires Valid(q)
    ensures var r := Schedule(q, now, delay, action);
            With(r.0, a) == With(q, a) + (if a == action then {r.1} else {})
  {
  }
}
