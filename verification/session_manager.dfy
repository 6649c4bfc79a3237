/** The client's session manager singleton: per-student warning and logout
    deadlines that every reset cancels and schedules again, debounced
    activity recording, and the remaining-time and elapsed-time displays.
    Timer callbacks are reported to the caller instead of run. */
module SessionManager {

  import opened Js
  import Text
  import opened Browser
  import Timers

  const SessionTimeout: nat := 1800000
  const WarningTime: nat := 300000
  const ActivityDebounce: nat := 1000
  /** The warning fires this long after a reset. */
  const WarningDelay: nat := SessionTimeout - WarningTime

  /** What a pending timer does when it fires. `gen` identifies the session
      entry whose callbacks the timer closed over. */
  datatype Alarm = Warn(key: string, gen: nat) | Expire(key: string, gen: nat) | DebounceOver

  /** One entry of `sessionTimers`. */
  datatype Config = Config(gen: nat, warningTimer: Option<nat>, logoutTimer: Option<nat>)

  datatype Manager = Manager(
    initialized: bool,
    sessions: map<string, Config>,
    timers: Timers.Queue<Alarm>,
    debounce: Option<nat>,
    listeners: nat,
    storage: Storage,
    nextGen: nat)

  /** `session_${studentId}` */
  function SessionKey(studentId: string): string {
    "session_" + studentId
  }

  function Handles(h: Option<nat>): set<nat> {
    if h.Some? then {h.value} else {}
  }

  function GenOf(a: Alarm): nat {
    if a.DebounceOver? then 0 else a.gen
  }

  /** Every entry's own warning and logout timers are the only pending
      timers that closed over it, and entries from later starts have
      generations no pending timer carries yet. */
  ghost predicate Tracked(m: Manager) {
    && Timers.Valid(m.timers) && m.nextGen >= 1
    && (forall h :: h in m.timers.pending ==> GenOf(m.timers.pending[h].action) < m.nextGen)
    && (forall k :: k in m.sessions ==> m.sessions[k].gen < m.nextGen)
    && (forall k :: k in m.sessions ==>
          && Timers.With(m.timers, Warn(k, m.sessions[k].gen)) <= Handles(m.sessions[k].warningTimer)
          && Timers.With(m.timers, Expire(k, m.sessions[k].gen)) <= Handles(m.sessions[k].logoutTimer))
    && (forall k :: k in m.sessions ==> Holds(m.timers, m.sessions[k].warningTimer, Warn(k, m.sessions[k].gen)))
    && (forall k :: k in m.sessions ==> Holds(m.timers, m.sessions[k].logoutTimer, Expire(k, m.sessions[k].gen)))
  }

  /** A stored handle was issued by `q`, and while it is pending it names
      a timer for `a`. */
  ghost predicate Holds(q: Timers.Queue<Alarm>, h: Option<nat>, a: Alarm) {
    h.Some? ==> h.value < q.next && (h.value in q.pending ==> q.pending[h.value].action == a)
  }

  /** The singleton as first constructed. */
  function Fresh(st: Storage): (m: Manager)
    ensures Tracked(m) && !m.initialized && m.sessions == map[]
  {
    Manager(false, map[], Timers.Empty(), None, 0, st, 1)
  }

  /** `init`: attaches the activity handlers once; later calls do nothing. */
  function Init(m: Manager): (r: Manager)
    ensures r.initialized
    ensures r == m.(initialized := true)
  {
    if m.initialized then m else m.(initialized := true)
  }

  lemma InitIdempotent(m: Manager)
    ensures Init(Init(m)) == Init(m)
    ensures m.initialized ==> Init(m) == m
  {
  }

  /** `onActivity`: one more listener to notify. */
  function OnActivity(m: Manager): (r: Manager)
    ensures r.listeners == m.listeners + 1
    ensures r.initialized == m.initialized && r.debounce == m.debounce
    ensures r.sessions == m.sessions && r.timers == m.timers && r.storage == m.storage && r.nextGen == m.nextGen
  {
    m.(listeners := m.listeners + 1)
  }

  /** A listener registered before an event is notified by it: the next
      recorded activity runs one more callback, and registering touches
      neither the sessions nor the timers. */
  lemma ListenerIsNotified(m: Manager, now: nat)
    requires Tracked(m)
    ensures Tracked(OnActivity(m))
    ensures OnActivity(m).sessions == m.sessions && OnActivity(m).timers == m.timers
    ensures m.initialized && m.debounce.None? ==> Activity(OnActivity(m), now).1 == Activity(m, now).1 + 1
    ensures !m.initialized || m.debounce.Some? ==> Activity(OnActivity(m), now).1 == 0
  {
  }

  /** A user-input event at time `now`: ignored before `init` and while the
      one-second debounce timer is pending; otherwise it records the time
      under `lastActivityTime`, starts the debounce timer and notifies every
      listener. The result's second half is how many listeners ran. It
      never touches the session deadlines. */
  function Activity(m: Manager, now: nat): (r: (Manager, nat))
    requires Tracked(m)
    ensures Tracked(r.0)
    ensures r.0.sessions == m.sessions && r.0.initialized == m.initialized
    ensures !m.initialized || m.debounce.Some? ==> r == (m, 0)
    ensures m.initialized && m.debounce.None? ==>
              && r.1 == m.listeners
              && r.0.storage == m.storage[LastActivityKey := Number(now)]
              && r.0.debounce.Some?
              && r.0.debounce.value in r.0.timers.pending
              && r.0.timers.pending[r.0.debounce.value] == Timers.Timer(now + ActivityDebounce, DebounceOver)
    ensures forall h :: h in m.timers.pending ==> h in r.0.timers.pending && r.0.timers.pending[h] == m.timers.pending[h]
  {
    if !m.initialized || m.debounce.Some? then (m, 0)
    else
      var s := Timers.Schedule(m.timers, now, ActivityDebounce, DebounceOver);
      DebounceTracked(m, now);
      (m.(timers := s.0, debounce := Some(s.1), storage := m.storage[LastActivityKey := Number(now)]), m.listeners)
  }

  /** Starting the debounce timer keeps the manager tracked. */
  lemma DebounceTracked(m: Manager, now: nat)
    requires Tracked(m)
    ensures Tracked(m.(timers := Timers.Schedule(m.timers, now, ActivityDebounce, DebounceOver).0))
  {
    var q := Timers.Schedule(m.timers, now, ActivityDebounce, DebounceOver).0;
    forall k | k in m.sessions
      ensures Holds(q, m.sessions[k].warningTimer, Warn(k, m.sessions[k].gen))
      ensures Holds(q, m.sessions[k].logoutTimer, Expire(k, m.sessions[k].gen))
      ensures Timers.With(q, Warn(k, m.sessions[k].gen)) == Timers.With(m.timers, Warn(k, m.sessions[k].gen))
      ensures Timers.With(q, Expire(k, m.sessions[k].gen)) == Timers.With(m.timers, Expire(k, m.sessions[k].gen))
    {
      HoldsLater(m.timers, q, m.sessions[k].warningTimer, Warn(k, m.sessions[k].gen));
      HoldsLater(m.timers, q, m.sessions[k].logoutTimer, Expire(k, m.sessions[k].gen));
      Timers.ScheduleWith(m.timers, now, ActivityDebounce, DebounceOver, Warn(k, m.sessions[k].gen));
      Timers.ScheduleWith(m.timers, now, ActivityDebounce, DebounceOver, Expire(k, m.sessions[k].gen));
    }
  }

  /** Two events less than a second apart record once: the second is
      ignored while the first one's debounce timer is pending. */
  lemma DebounceIgnoresSecondEvent(m: Manager, t1: nat, t2: nat)
    requires Tracked(m) && m.initialized && m.debounce.None?
    ensures var a := Activity(m, t1).0;
            Activity(a, t2) == (a, 0) && a.storage[LastActivityKey] == Number(t1)
  {
  }

  /** The reset of an existing entry: both of its timers cancelled, a
      warning and a logout scheduled, their handles kept in the entry. */
  function Rearm(m: Manager, key: string, now: nat): Manager
    requires Tracked(m) && key in m.sessions
  {
    var c := m.sessions[key];
    var d := Disarm(m, key);
    var w := Timers.Schedule(d.timers, now, WarningDelay, Warn(key, c.gen));
    var x := Timers.Schedule(w.0, now, SessionTimeout, Expire(key, c.gen));
    d.(timers := x.0, sessions := m.sessions[key := Config(c.gen, Some(w.1), Some(x.1))])
  }

  lemma RearmFacts(m: Manager, key: string, now: nat)
    requires Tracked(m) && key in m.sessions
    ensures var r := Rearm(m, key, now);
            var g := m.sessions[key].gen;
            && Tracked(r)
            && r.sessions[key].warningTimer.Some? && r.sessions[key].logoutTimer.Some?
            && Timers.With(r.timers, Warn(key, g)) == {r.sessions[key].warningTimer.value}
            && Timers.With(r.timers, Expire(key, g)) == {r.sessions[key].logoutTimer.value}
            && r.timers.pending[r.sessions[key].warningTimer.value].deadline == now + WarningDelay
            && r.timers.pending[r.sessions[key].logoutTimer.value].deadline == now + SessionTimeout
            && forall h :: h in m.timers.pending && h !in Handles(m.sessions[key].warningTimer)
                             && h !in Handles(m.sessions[key].logoutTimer) ==>
                 h in r.timers.pending && r.timers.pending[h] == m.timers.pending[h]
  {
    RearmOwn(m, key, now);
    RearmTracked(m, key, now);
  }

  /** The entry's new handles are its only timers, due 25 and 30 minutes
      ahead. */
  lemma RearmOwn(m: Manager, key: string, now: nat)
    requires Tracked(m) && key in m.sessions
    ensures var r := Rearm(m, key, now);
            var g := m.sessions[key].gen;
            && r.sessions[key].warningTimer.Some? && r.sessions[key].logoutTimer.Some?
            && Timers.With(r.timers, Warn(key, g)) == {r.sessions[key].warningTimer.value}
            && Timers.With(r.timers, Expire(key, g)) == {r.sessions[key].logoutTimer.value}
            && r.timers.pending[r.sessions[key].warningTimer.value].deadline == now + WarningDelay
            && r.timers.pending[r.sessions[key].logoutTimer.value].deadline == now + SessionTimeout
  {
    var c := m.sessions[key];
    var d := Disarm(m, key);
    var w := Timers.Schedule(d.timers, now, WarningDelay, Warn(key, c.gen));
    Timers.ScheduleWith(d.timers, now, WarningDelay, Warn(key, c.gen), Warn(key, c.gen));
    Timers.ScheduleWith(w.0, now, SessionTimeout, Expire(key, c.gen), Warn(key, c.gen));
    Timers.ScheduleWith(d.timers, now, WarningDelay, Warn(key, c.gen), Expire(key, c.gen));
    Timers.ScheduleWith(w.0, now, SessionTimeout, Expire(key, c.gen), Expire(key, c.gen));
  }

  /** A queue that only removed the timers `q` issued, and issued new
      ones after them, keeps every stored handle's claim. */
  lemma HoldsLater(q: Timers.Queue<Alarm>, q': Timers.Queue<Alarm>, h: Option<nat>, a: Alarm)
    requires Holds(q, h, a) && q.next <= q'.next
    requires forall x :: x in q'.pending && x < q.next ==> x in q.pending && q'.pending[x] == q.pending[x]
    ensures Holds(q', h, a)
  {
  }

  /** Re-arming one entry keeps the manager tracked. */
  lemma RearmTracked(m: Manager, key: string, now: nat)
    requires Tracked(m) && key in m.sessions
    ensures Tracked(Rearm(m, key, now))
  {
    var c := m.sessions[key];
    var r := Rearm(m, key, now);
    RearmOwn(m, key, now);
    assert Holds(r.timers, r.sessions[key].warningTimer, Warn(key, c.gen));
    assert Holds(r.timers, r.sessions[key].logoutTimer, Expire(key, c.gen));
    forall k | k in r.sessions && k != key
      ensures Holds(r.timers, r.sessions[k].warningTimer, Warn(k, r.sessions[k].gen))
      ensures Holds(r.timers, r.sessions[k].logoutTimer, Expire(k, r.sessions[k].gen))
      ensures Timers.With(r.timers, Warn(k, r.sessions[k].gen)) <= Handles(r.sessions[k].warningTimer)
      ensures Timers.With(r.timers, Expire(k, r.sessions[k].gen)) <= Handles(r.sessions[k].logoutTimer)
    {
      RearmOthers(m, key, now, k);
    }
  }

  /** Re-arming one entry leaves every other entry's claims standing. */
  lemma RearmOthers(m: Manager, key: string, now: nat, k: string)
    requires Tracked(m) && key in m.sessions && k in m.sessions && k != key
    ensures var r := Rearm(m, key, now);
            var e := m.sessions[k];
            && r.sessions[k] == e
            && Holds(r.timers, e.warningTimer, Warn(k, e.gen))
            && Holds(r.timers, e.logoutTimer, Expire(k, e.gen))
            && Timers.With(r.timers, Warn(k, e.gen)) <= Handles(e.warningTimer)
            && Timers.With(r.timers, Expire(k, e.gen)) <= Handles(e.logoutTimer)
  {
    var c := m.sessions[key];
    var e := m.sessions[k];
    var d := Disarm(m, key);
    var w := Timers.Schedule(d.timers, now, WarningDelay, Warn(key, c.gen));
    var x := Timers.Schedule(w.0, now, SessionTimeout, Expire(key, c.gen));
    var r := Rearm(m, key, now);
    assert r.timers == x.0;
    HoldsLater(m.timers, r.timers, e.warningTimer, Warn(k, e.gen));
    HoldsLater(m.timers, r.timers, e.logoutTimer, Expire(k, e.gen));
    Timers.ScheduleWith(d.timers, now, WarningDelay, Warn(key, c.gen), Warn(k, e.gen));
    Timers.ScheduleWith(w.0, now, SessionTimeout, Expire(key, c.gen), Warn(k, e.gen));
    Timers.ScheduleWith(d.timers, now, WarningDelay, Warn(key, c.gen), Expire(k, e.gen));
    Timers.ScheduleWith(w.0, now, SessionTimeout, Expire(key, c.gen), Expire(k, e.gen));
  }

  /** `resetSessionTimer`: nothing without an entry; otherwise the entry's
      two earlier timers are cancelled and exactly one warning (25 minutes
      ahead) and one logout (30 minutes ahead) are pending for it. */
  function Reset(m: Manager, studentId: string, now: nat): (r: Manager)
    requires Tracked(m)
    ensures Tracked(r)
    ensures SessionKey(studentId) !in m.sessions ==> r == m
    ensures r.sessions.Keys == m.sessions.Keys && r.storage == m.storage && r.nextGen == m.nextGen
    ensures forall k :: k in m.sessions ==> r.sessions[k].gen == m.sessions[k].gen
    ensures forall k :: k in m.sessions && k != SessionKey(studentId) ==> r.sessions[k] == m.sessions[k]
    ensures SessionKey(studentId) in m.sessions ==>
              var key := SessionKey(studentId);
              var g := m.sessions[key].gen;
              && (exists w :: w in r.timers.pending && Timers.With(r.timers, Warn(key, g)) == {w}
                               && r.timers.pending[w].deadline == now + WarningDelay)
              && (exists x :: x in r.timers.pending && Timers.With(r.timers, Expire(key, g)) == {x}
                               && r.timers.pending[x].deadline == now + SessionTimeout)
    ensures SessionKey(studentId) in m.sessions ==>
              var c := m.sessions[SessionKey(studentId)];
              forall h :: h in m.timers.pending && h !in Handles(c.warningTimer) && h !in Handles(c.logoutTimer) ==>
                h in r.timers.pending && r.timers.pending[h] == m.timers.pending[h]
  {
    var key := SessionKey(studentId);
    if key !in m.sessions then m
    else
      RearmFacts(m, key, now);
      Rearm(m, key, now)
  }

  /** `startSession`: a new entry for the student, then a reset. The entry
      it replaces is dropped without cancelling its timers, so nothing that
      was pending is cancelled. */
  function Start(m: Manager, studentId: string, now: nat): (r: Manager)
    requires Tracked(m)
    ensures Tracked(r)
    ensures r.sessions.Keys == m.sessions.Keys + {SessionKey(studentId)}
    ensures forall k :: k in m.sessions && k != SessionKey(studentId) ==> r.sessions[k] == m.sessions[k]
    ensures var key := SessionKey(studentId);
            var g := r.sessions[key].gen;
            && (forall k :: k in m.sessions ==> m.sessions[k].gen != g)
            && (exists w :: w in r.timers.pending && Timers.With(r.timers, Warn(key, g)) == {w}
                             && r.timers.pending[w].deadline == now + WarningDelay)
            && (exists x :: x in r.timers.pending && Timers.With(r.timers, Expire(key, g)) == {x}
                             && r.timers.pending[x].deadline == now + SessionTimeout)
    ensures forall h :: h in m.timers.pending ==> h in r.timers.pending && r.timers.pending[h] == m.timers.pending[h]
  {
    var key := SessionKey(studentId);
    var m1 := Enter(m, key);
    assert m1.sessions[key] == Config(m.nextGen, None, None);
    Reset(m1, studentId, now)
  }

  /** A new entry under `key` with a generation no timer carries yet and no
      handles. */
  function Enter(m: Manager, key: string): (r: Manager)
    requires Tracked(m)
    ensures Tracked(r)
    ensures r == m.(sessions := m.sessions[key := Config(m.nextGen, None, None)], nextGen := m.nextGen + 1)
  {
    var g := m.nextGen;
    assert Timers.With(m.timers, Warn(key, g)) == {} && Timers.With(m.timers, Expire(key, g)) == {} by {
      forall h | h in m.timers.pending ensures m.timers.pending[h].action != Warn(key, g) && m.timers.pending[h].action != Expire(key, g) {
        assert GenOf(m.timers.pending[h].action) < g;
      }
    }
    m.(sessions := m.sessions[key := Config(g, None, None)], nextGen := g + 1)
  }

  /** Starting a session twice leaves the first start's warning pending
      beside the new one: two warnings will fire for the same student. */
  lemma RestartLeavesEarlierTimers(m: Manager, studentId: string, now: nat, later: nat)
    requires Tracked(m)
    ensures var a := Start(m, studentId, now);
            var b := Start(a, studentId, later);
            var key := SessionKey(studentId);
            exists w1, w2 :: w1 != w2 && w1 in b.timers.pending && w2 in b.timers.pending
              && b.timers.pending[w1] == Timers.Timer(now + WarningDelay, Warn(key, a.sessions[key].gen))
              && b.timers.pending[w2] == Timers.Timer(later + WarningDelay, Warn(key, b.sessions[key].gen))
  {
    var key := SessionKey(studentId);
    var a := Start(m, studentId, now);
    var b := Start(a, studentId, later);
    var w1 :| w1 in a.timers.pending && Timers.With(a.timers, Warn(key, a.sessions[key].gen)) == {w1}
              && a.timers.pending[w1].deadline == now + WarningDelay;
    assert w1 in Timers.With(a.timers, Warn(key, a.sessions[key].gen));
    var w2 :| w2 in b.timers.pending && Timers.With(b.timers, Warn(key, b.sessions[key].gen)) == {w2}
              && b.timers.pending[w2].deadline == later + WarningDelay;
    assert w2 in Timers.With(b.timers, Warn(key, b.sessions[key].gen));
    assert b.sessions[key].gen != a.sessions[key].gen;
  }

  /** `endSession`: the entry's two timers cancelled and the entry dropped,
      then the four session keys removed from storage. Other entries and
      other keys are untouched. */
  function End(m: Manager, studentId: string): (r: Manager)
    requires Tracked(m)
    ensures Tracked(r)
    ensures r.sessions == m.sessions - {SessionKey(studentId)}
    ensures SessionKey(studentId) in m.sessions ==>
              var g := m.sessions[SessionKey(studentId)].gen;
              Timers.With(r.timers, Warn(SessionKey(studentId), g)) == {}
              && Timers.With(r.timers, Expire(SessionKey(studentId), g)) == {}
    ensures forall k :: k in SessionKeys ==> k !in r.storage
    ensures forall k :: k in m.storage && k !in SessionKeys ==> k in r.storage && r.storage[k] == m.storage[k]
    ensures SessionKey(studentId) !in m.sessions ==> r.timers == m.timers
    ensures forall h :: h in r.timers.pending ==> h in m.timers.pending && r.timers.pending[h] == m.timers.pending[h]
    ensures SessionKey(studentId) in m.sessions ==>
              var c := m.sessions[SessionKey(studentId)];
              forall h :: h in m.timers.pending && h !in Handles(c.warningTimer) && h !in Handles(c.logoutTimer) ==>
                h in r.timers.pending && r.timers.pending[h] == m.timers.pending[h]
    ensures r.initialized == m.initialized && r.debounce == m.debounce
            && r.listeners == m.listeners && r.nextGen == m.nextGen
  {
    var key := SessionKey(studentId);
    var m1 := if key in m.sessions then Dismiss(m, key) else m;
    m1.(storage := ClearSession(m.storage))
  }

  /** Ending a session cancels only that session's warning and logout:
      every other session's timers, and every other pending timer, stay. */
  lemma EndKeepsOtherTimers(m: Manager, studentId: string, a: Alarm)
    requires Tracked(m)
    requires SessionKey(studentId) in m.sessions ==>
               var g := m.sessions[SessionKey(studentId)].gen;
               a != Warn(SessionKey(studentId), g) && a != Expire(SessionKey(studentId), g)
    ensures Timers.With(End(m, studentId).timers, a) == Timers.With(m.timers, a)
  {
    var key := SessionKey(studentId);
    var r := End(m, studentId);
    if key in m.sessions {
      var c := m.sessions[key];
      forall h | h in Timers.With(m.timers, a) ensures h in Timers.With(r.timers, a) {
        assert h !in Handles(c.warningTimer) by {
          if c.warningTimer == Some(h) {
            assert Holds(m.timers, c.warningTimer, Warn(key, c.gen));
          }
        }
        assert h !in Handles(c.logoutTimer) by {
          if c.logoutTimer == Some(h) {
            assert Holds(m.timers, c.logoutTimer, Expire(key, c.gen));
          }
        }
      }
    }
  }

  /** The entry under `key` dropped after its two timers are cancelled. */
  function Dismiss(m: Manager, key: string): (r: Manager)
    requires Tracked(m) && key in m.sessions
    ensures Tracked(r)
    ensures r.sessions == m.sessions - {key} && r.storage == m.storage
    ensures Timers.With(r.timers, Warn(key, m.sessions[key].gen)) == {}
    ensures Timers.With(r.timers, Expire(key, m.sessions[key].gen)) == {}
    ensures forall h :: h in r.timers.pending ==> h in m.timers.pending && r.timers.pending[h] == m.timers.pending[h]
    ensures forall h :: h in m.timers.pending && h !in Handles(m.sessions[key].warningTimer)
                        && h !in Handles(m.sessions[key].logoutTimer) ==>
              h in r.timers.pending && r.timers.pending[h] == m.timers.pending[h]
    ensures r == m.(sessions := r.sessions, timers := r.timers)
  {
    Disarm(m, key).(sessions := m.sessions - {key})
  }

  /** The two timers of the entry under `key` cancelled; the entry keeps
      its now stale handles. */
  function Disarm(m: Manager, key: string): (r: Manager)
    requires Tracked(m) && key in m.sessions
    ensures Tracked(r) && r == m.(timers := r.timers)
    ensures Timers.Valid(r.timers) && r.timers.next == m.timers.next
    ensures Timers.With(r.timers, Warn(key, m.sessions[key].gen)) == {}
    ensures Timers.With(r.timers, Expire(key, m.sessions[key].gen)) == {}
    ensures forall a :: Timers.With(r.timers, a) <= Timers.With(m.timers, a)
    ensures forall h :: h in r.timers.pending ==> h in m.timers.pending && r.timers.pending[h] == m.timers.pending[h]
    ensures forall h :: h in m.timers.pending && h !in Handles(m.sessions[key].warningTimer)
                        && h !in Handles(m.sessions[key].logoutTimer) ==>
              h in r.timers.pending && r.timers.pending[h] == m.timers.pending[h]
  {
    var c := m.sessions[key];
    var q1 := Timers.Cancel(m.timers, c.warningTimer);
    var q := Timers.Cancel(q1, c.logoutTimer);
    CancelsShrink(m.timers, c.warningTimer, c.logoutTimer);
    assert forall h :: h in q.pending ==> h in q1.pending && q.pending[h] == q1.pending[h];
    SubQueueTracked(m, q);
    assert Timers.With(q, Warn(key, c.gen)) == {} by {
      if c.warningTimer.Some? {
        Timers.CancelClears(m.timers, c.warningTimer.value, Warn(key, c.gen));
      }
      Timers.CancelShrinks(q1, c.logoutTimer, Warn(key, c.gen));
    }
    assert Timers.With(q, Expire(key, c.gen)) == {} by {
      Timers.CancelShrinks(m.timers, c.warningTimer, Expire(key, c.gen));
      if c.logoutTimer.Some? {
        Timers.CancelClears(q1, c.logoutTimer.value, Expire(key, c.gen));
      }
    }
    m.(timers := q)
  }

  /** Dropping pending timers, and nothing else, keeps the manager tracked. */
  lemma SubQueueTracked(m: Manager, q: Timers.Queue<Alarm>)
    requires Tracked(m) && Timers.Valid(q) && q.next == m.timers.next
    requires forall h :: h in q.pending ==> h in m.timers.pending && q.pending[h] == m.timers.pending[h]
    ensures Tracked(m.(timers := q))
  {
    forall k | k in m.sessions
      ensures Holds(q, m.sessions[k].warningTimer, Warn(k, m.sessions[k].gen))
      ensures Holds(q, m.sessions[k].logoutTimer, Expire(k, m.sessions[k].gen))
      ensures Timers.With(q, Warn(k, m.sessions[k].gen)) <= Timers.With(m.timers, Warn(k, m.sessions[k].gen))
      ensures Timers.With(q, Expire(k, m.sessions[k].gen)) <= Timers.With(m.timers, Expire(k, m.sessions[k].gen))
    {
      HoldsLater(m.timers, q, m.sessions[k].warningTimer, Warn(k, m.sessions[k].gen));
      HoldsLater(m.timers, q, m.sessions[k].logoutTimer, Expire(k, m.sessions[k].gen));
    }
  }

  /** Cancelling two handles keeps no timer that was not there before. */
  lemma CancelsShrink(q: Timers.Queue<Alarm>, w: Option<nat>, x: Option<nat>)
    requires Timers.Valid(q)
    ensures forall a :: Timers.With(Timers.Cancel(Timers.Cancel(q, w), x), a) <= Timers.With(q, a)
  {
    forall a ensures Timers.With(Timers.Cancel(Timers.Cancel(q, w), x), a) <= Timers.With(q, a) {
      Timers.CancelShrinks(q, w, a);
      Timers.CancelShrinks(Timers.Cancel(q, w), x, a);
    }
  }

  /** The runtime calls the due timer `h`: the debounce timer re-arms
      activity recording; a warning or logout timer reports which entry's
      callback runs. */
  function Fire(m: Manager, h: nat): (r: (Manager, Alarm))
    requires Tracked(m) && h in m.timers.pending
    ensures Tracked(r.0) && h !in r.0.timers.pending
    ensures r.0.sessions == m.sessions && r.0.storage == m.storage
    ensures r.1 == m.timers.pending[h].action
    ensures r.1.DebounceOver? ==> r.0.debounce.None?
  {
    var a := m.timers.pending[h].action;
    var q := Timers.Fire(m.timers, h);
    assert forall k :: k in m.sessions ==>
      Timers.With(q, Warn(k, m.sessions[k].gen)) <= Timers.With(m.timers, Warn(k, m.sessions[k].gen))
      && Timers.With(q, Expire(k, m.sessions[k].gen)) <= Timers.With(m.timers, Expire(k, m.sessions[k].gen));
    (m.(timers := q, debounce := if a.DebounceOver? then None else m.debounce), a)
  }

  // ---------------------------------------------------------------------
  // Displays

  /** `getRemainingTime`: thirty minutes less the time since the stored
      login, never below zero; NaN (`None`) when the stored value does not
      parse. The last activity plays no part. */
  function RemainingTime(st: Storage, now: nat): (r: Option<int>)
    ensures r.None? <==> ReadTime(st, LoginTimestampKey, now).None?
    ensures r.Some? ==>
              var login := ReadTime(st, LoginTimestampKey, now).value;
              && r.value >= 0
              && (login <= now ==> r.value <= SessionTimeout)
              && (r.value == 0 <==> now - login >= SessionTimeout)
              && (r.value > 0 ==> r.value + (now - login) == SessionTimeout)
  {
    match ReadTime(st, LoginTimestampKey, now)
    case None => None
    case Some(login) =>
      var remaining := SessionTimeout - (now - login);
      Some(if remaining > 0 then remaining else 0)
  }

  /** Activity does not extend what the remaining-time display shows. */
  lemma RemainingIgnoresActivity(st: Storage, now: nat, v: Stored)
    ensures RemainingTime(st[LastActivityKey := v], now) == RemainingTime(st, now)
  {
    KeysDistinct();
  }

  /** `${minutes}:${seconds.toString().padStart(2, "0")}` for a number of
      whole seconds: minutes rounded down, seconds the truncated remainder. */
  function Clock(totalSeconds: int): string {
    var minutes := FloorDiv(totalSeconds, 60);
    var seconds := TruncRem(totalSeconds, 60);
    Text.IntString(minutes) + ":" + Text.Pad2(Text.IntString(seconds))
  }

  /** Read back, a clock for a non-negative count is two digit strings
      around one colon: the seconds have two digits below 60, and minutes
      times 60 plus seconds gives the count back. */
  lemma ClockReadsBack(totalSeconds: nat)
    ensures var parts := Text.Split(Clock(totalSeconds), ':');
            && |parts| == 2
            && Text.AllDigits(parts[0]) && Text.AllDigits(parts[1]) && |parts[1]| == 2
            && Text.DigitsValue(parts[1]) < 60
            && Text.DigitsValue(parts[0]) * 60 + Text.DigitsValue(parts[1]) == totalSeconds
  {
    var minutes := totalSeconds / 60;
    var seconds := totalSeconds % 60;
    assert FloorDiv(totalSeconds, 60) == minutes && TruncRem(totalSeconds, 60) == seconds;
    var a := Text.Decimal(minutes);
    var b := Text.Pad2(Text.Decimal(seconds));
    PaddedSeconds(seconds);
    DigitsHaveNoColon(a);
    DigitsHaveNoColon(b);
    assert Clock(totalSeconds) == a + [':'] + b;
    Text.SplitAtFirst(a, b, ':');
    Text.SplitNoSeparator(b, ':');
    Text.DecimalRoundTrip(minutes);
  }

  /** `formatRemainingTime`: the clock for the whole seconds in `ms`. */
  function FormatRemainingTime(ms: int): (r: string)
    ensures ms >= 0 ==>
              var parts := Text.Split(r, ':');
              && |parts| == 2 && Text.AllDigits(parts[0]) && Text.AllDigits(parts[1])
              && |parts[1]| == 2 && Text.DigitsValue(parts[1]) < 60
              && Text.DigitsValue(parts[0]) * 60 + Text.DigitsValue(parts[1]) == ms / 1000
  {
    if ms >= 0 then ClockReadsBack(ms / 1000); Clock(FloorDiv(ms, 1000))
    else Clock(FloorDiv(ms, 1000))
  }

  lemma DigitsHaveNoColon(s: string)
    requires Text.AllDigits(s)
    ensures ':' !in s
  {
  }

  /** Seconds below 60, padded to two places, read back as themselves. */
  lemma PaddedSeconds(s: nat)
    requires s < 60
    ensures var p := Text.Pad2(Text.Decimal(s));
            |p| == 2 && Text.AllDigits(p) && Text.DigitsValue(p) == s
  {
    Text.DecimalRoundTrip(s);
    var d := Text.Decimal(s);
    if s < 10 {
      Text.DigitsValueLeadingZero(d);
      assert Text.Pad2(d) == "0" + d;
    } else {
      assert d == Text.Decimal(s / 10) + [Text.DigitChar(s % 10)];
    }
  }

  /** Minutes and seconds of an elapsed time, with the `Xm Ys` label. */
  datatype Duration = Duration(minutes: int, seconds: int, formatted: string)

  /** The split the session-duration and elapsed-time displays share:
      floor of the minutes, and the seconds left over. */
  function Breakdown(elapsed: int): (d: Duration)
    ensures elapsed >= 0 ==> 0 <= d.seconds < 60 && d.minutes * 60 + d.seconds == elapsed / 1000
    ensures elapsed >= 0 ==> d.minutes == elapsed / 60000
  {
    var minutes := FloorDiv(elapsed, 60000);
    var seconds := FloorDiv(TruncRem(elapsed, 60000), 1000);
    if elapsed >= 0 then BreakdownArith(elapsed); Duration(minutes, seconds, Text.IntString(minutes) + "m " + Text.IntString(seconds) + "s")
    else Duration(minutes, seconds, Text.IntString(minutes) + "m " + Text.IntString(seconds) + "s")
  }

  lemma BreakdownArith(e: nat)
    ensures (e / 60000) * 60 + (e % 60000) / 1000 == e / 1000
  {
    var q := e / 60000;
    var r := e % 60000;
    var s := r / 1000;
    var t := r % 1000;
    assert e == 1000 * (q * 60 + s) + t;
  }

  /** `getSessionDuration`: the breakdown of the time since the stored
      login, absent (NaN) when the stored value does not parse. */
  function SessionDuration(st: Storage, now: nat): (r: Option<Duration>)
    ensures r.None? <==> ReadTime(st, LoginTimestampKey, now).None?
    ensures r.Some? ==>
              var elapsed := now - ReadTime(st, LoginTimestampKey, now).value;
              elapsed >= 0 ==> 0 <= r.value.seconds < 60 && r.value.minutes * 60 + r.value.seconds == elapsed / 1000
  {
    match ReadTime(st, LoginTimestampKey, now)
    case None => None
    case Some(login) => Some(Breakdown(now - login))
  }
}
