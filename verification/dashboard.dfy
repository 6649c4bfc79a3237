/** The student dashboard's own session handling: the mount check, the
    activity handler that re-arms the inactivity timers, the five-minute
    warning countdown, and the two logout paths.

    Timers, intervals and document listeners belong to the browser tab, not
    to the component, so they are part of the state and outlive a
    navigation away from the page. Every mount creates a new component
    instance with refs of its own, and a timer, interval or listener keeps
    running in the closure of the instance that created it. */
module Dashboard {

  import opened Js
  import Text
  import opened Browser
  import Timers
  import SessionManager

  const SessionTimeout: nat := 1800000
  /** The warning timer fires this long after a reset: 5 minutes early. */
  const WarningDelay: nat := SessionTimeout - 300000
  const CountdownStart: int := 300

  /** A timer's callback, with the instance whose closure it runs in. */
  datatype Alarm = ShowWarning(owner: nat) | AutoLogoutDue(owner: nat)

  datatype Page = DashboardPage | LoginPage | HomePage

  /** One mounted `StudentDashboard`. */
  datatype Instance = Instance(
    warningRef: Option<nat>,     // activityTimerRef
    logoutRef: Option<nat>,      // kept only by the corrected reset
    elapsedRunning: bool,        // the interval behind sessionTimerRef
    loginTime: Option<int>)      // read once at mount; None is NaN

  /** A running warning countdown: the instance whose `showSessionWarning`
      started it, and its `secondsLeft`. */
  datatype Warning = Warning(owner: nat, secondsLeft: int)

  datatype Dash = Dash(
    page: Page,
    storage: Storage,
    timers: Timers.Queue<Alarm>,
    instances: seq<Instance>,    // every instance mounted so far, in mount order
    shown: Option<nat>,          // the instance on screen
    listeners: seq<nat>,         // the instance of each handler set on the document
    countdowns: seq<Warning>,
    sessionWarning: bool,        // the state of the instance on screen
    timeLeft: string,
    sessionTime: string)

  function Handles(h: Option<nat>): set<nat> {
    if h.Some? then {h.value} else {}
  }

  /** The pending warning timers, whoever owns them. */
  function Warnings(q: Timers.Queue<Alarm>): set<nat> {
    set h | h in q.pending && q.pending[h].action.ShowWarning?
  }

  /** Instance `i`'s warning ref names its only pending warning timer, and
      is a handle already issued. */
  ghost predicate Armed(q: Timers.Queue<Alarm>, s: seq<Instance>, i: nat) {
    && i < |s|
    && Timers.With(q, ShowWarning(i)) <= Handles(s[i].warningRef)
    && (s[i].warningRef.Some? ==> s[i].warningRef.value < q.next)
    && (s[i].warningRef.Some? && s[i].warningRef.value in q.pending ==>
          q.pending[s[i].warningRef.value].action == ShowWarning(i))
  }

  /** Every pending timer runs in an instance of `s`. */
  ghost predicate Owned(q: Timers.Queue<Alarm>, s: seq<Instance>) {
    forall h :: h in q.pending ==> q.pending[h].action.owner < |s|
  }

  /** The tab's invariant: the dashboard shows exactly when an instance is
      on screen, everything names an instance that exists, and each
      instance's ref names its only pending warning. */
  ghost predicate Tracked(d: Dash) {
    && Timers.Valid(d.timers)
    && (d.page == DashboardPage <==> d.shown.Some?)
    && (d.shown.Some? ==> d.shown.value < |d.instances|)
    && (forall k :: 0 <= k < |d.listeners| ==> d.listeners[k] < |d.instances|)
    && (forall k :: 0 <= k < |d.countdowns| ==> d.countdowns[k].owner < |d.instances|)
    && Owned(d.timers, d.instances)
    && (forall i :: 0 <= i < |d.instances| ==> Armed(d.timers, d.instances, i))
  }

  /** Instance `i` has exactly one warning pending, the one its ref names,
      due `WarningDelay` after `now`. */
  ghost predicate Warned(q: Timers.Queue<Alarm>, s: seq<Instance>, i: nat, now: nat) {
    && i < |s|
    && s[i].warningRef.Some?
    && Timers.With(q, ShowWarning(i)) == {s[i].warningRef.value}
    && s[i].warningRef.value in q.pending
    && q.pending[s[i].warningRef.value].deadline == now + WarningDelay
  }

  /** Instance `j`, its refs and its warning timers are as they were in the
      timers `q` and instances `s`. */
  ghost predicate Untouched(q: Timers.Queue<Alarm>, s: seq<Instance>, q': Timers.Queue<Alarm>, s': seq<Instance>, j: nat) {
    && j < |s| && j < |s'|
    && s'[j] == s[j]
    && Timers.With(q', ShowWarning(j)) == Timers.With(q, ShowWarning(j))
    && forall h :: h in Timers.With(q, ShowWarning(j)) ==> h in q'.pending && q'.pending[h] == q.pending[h]
  }

  /** Every pending logout timer is still pending, unchanged. */
  ghost predicate KeepsLogouts(q: Timers.Queue<Alarm>, q': Timers.Queue<Alarm>) {
    forall h :: h in q.pending && q.pending[h].action.AutoLogoutDue? ==>
      h in q'.pending && q'.pending[h] == q.pending[h]
  }

  /** A tab before the dashboard has been opened. */
  function Initial(st: Storage): (d: Dash)
    ensures Tracked(d) && d.timers.pending == map[] && d.instances == [] && d.listeners == []
    ensures d.page == LoginPage && d.storage == st && d.countdowns == []
  {
    Dash(LoginPage, st, Timers.Empty(), [], None, [], [], false, "", "")
  }

  /** Cancelling instance `i`'s warning ref removes at most its own warning:
      every other timer stays, and the ref's handle is no other timer's. */
  lemma CancelOwn(d: Dash, i: nat)
    requires Tracked(d) && i < |d.instances|
    ensures var q := Timers.Cancel(d.timers, d.instances[i].warningRef);
            && Timers.With(q, ShowWarning(i)) == {}
            && (forall h :: h in d.timers.pending && d.timers.pending[h].action != ShowWarning(i) ==>
                  h in q.pending && q.pending[h] == d.timers.pending[h])
  {
    assert Armed(d.timers, d.instances, i);
    Timers.CancelShrinks(d.timers, d.instances[i].warningRef, ShowWarning(i));
  }

  /** After changing only instance `i` and the timers, the other instances
      are untouched and still armed when the timers of theirs are kept and
      every new timer runs in `i`. */
  lemma OthersKept(d: Dash, q: Timers.Queue<Alarm>, s: seq<Instance>, i: nat)
    requires Tracked(d) && i < |d.instances|
    requires |s| == |d.instances| && Timers.Valid(q) && q.next >= d.timers.next
    requires forall j :: 0 <= j < |s| && j != i ==> s[j] == d.instances[j]
    requires forall h :: h in d.timers.pending && d.timers.pending[h].action.owner != i ==>
               h in q.pending && q.pending[h] == d.timers.pending[h]
    requires forall h :: h in q.pending && h !in d.timers.pending ==>
               h >= d.timers.next && q.pending[h].action.owner == i
    requires forall h :: h in q.pending && h in d.timers.pending ==> q.pending[h] == d.timers.pending[h]
    ensures forall j :: 0 <= j < |s| && j != i ==>
              Untouched(d.timers, d.instances, q, s, j) && Armed(q, s, j)
    ensures Owned(q, s)
  {
    forall j | 0 <= j < |s| && j != i
      ensures Untouched(d.timers, d.instances, q, s, j) && Armed(q, s, j)
    {
      assert Armed(d.timers, d.instances, j);
      forall h | h in Timers.With(q, ShowWarning(j)) ensures h in Timers.With(d.timers, ShowWarning(j)) {
        assert h in d.timers.pending;
      }
    }
  }

  /** `resetSessionTimeout` of instance `i`: its pending warning is
      cancelled and a new one set 25 minutes ahead; a logout timer is set
      30 minutes ahead and its handle is dropped, so no logout timer is
      ever cancelled. No other instance is affected. */
  function ResetTimeout(d: Dash, i: nat, now: nat): (r: Dash)
    requires Tracked(d) && i < |d.instances|
    ensures Tracked(r) && |r.instances| == |d.instances|
    ensures Warned(r.timers, r.instances, i, now)
    ensures forall j :: 0 <= j < |d.instances| && j != i ==> Untouched(d.timers, d.instances, r.timers, r.instances, j)
    ensures KeepsLogouts(d.timers, r.timers)
    ensures exists x :: x !in d.timers.pending && x in r.timers.pending
              && Timers.With(r.timers, AutoLogoutDue(i)) == Timers.With(d.timers, AutoLogoutDue(i)) + {x}
              && r.timers.pending[x] == Timers.Timer(now + SessionTimeout, AutoLogoutDue(i))
    ensures r.instances[i] == d.instances[i].(warningRef := r.instances[i].warningRef)
    ensures r == d.(timers := r.timers, instances := r.instances)
  {
    var q := Timers.Cancel(d.timers, d.instances[i].warningRef);
    var w := Timers.Schedule(q, now, WarningDelay, ShowWarning(i));
    var x := Timers.Schedule(w.0, now, SessionTimeout, AutoLogoutDue(i));
    var r := d.(timers := x.0, instances := d.instances[i := d.instances[i].(warningRef := Some(w.1))]);
    ResetFacts(d, i, now, q, w, x, r);
    r
  }

  lemma ResetFacts(d: Dash, i: nat, now: nat, q: Timers.Queue<Alarm>, w: (Timers.Queue<Alarm>, nat),
                   x: (Timers.Queue<Alarm>, nat), r: Dash)
    requires Tracked(d) && i < |d.instances|
    requires q == Timers.Cancel(d.timers, d.instances[i].warningRef)
    requires w == Timers.Schedule(q, now, WarningDelay, ShowWarning(i))
    requires x == Timers.Schedule(w.0, now, SessionTimeout, AutoLogoutDue(i))
    requires r == d.(timers := x.0, instances := d.instances[i := d.instances[i].(warningRef := Some(w.1))])
    ensures Tracked(r) && Warned(r.timers, r.instances, i, now)
    ensures forall j :: 0 <= j < |d.instances| && j != i ==> Untouched(d.timers, d.instances, r.timers, r.instances, j)
    ensures KeepsLogouts(d.timers, r.timers)
    ensures x.1 !in d.timers.pending && x.1 in r.timers.pending
    ensures Timers.With(r.timers, AutoLogoutDue(i)) == Timers.With(d.timers, AutoLogoutDue(i)) + {x.1}
    ensures r.timers.pending[x.1] == Timers.Timer(now + SessionTimeout, AutoLogoutDue(i))
  {
    CancelOwn(d, i);
    Timers.ScheduleWith(q, now, WarningDelay, ShowWarning(i), ShowWarning(i));
    Timers.ScheduleWith(w.0, now, SessionTimeout, AutoLogoutDue(i), ShowWarning(i));
    assert Timers.With(r.timers, ShowWarning(i)) == {w.1};
    OthersKept(d, r.timers, r.instances, i);
    ResetLogouts(d, i, now, q, w, x);
  }

  /** The reset's logout timer joins the instance's earlier ones, none of
      which, nor any other instance's, is cancelled. */
  lemma ResetLogouts(d: Dash, i: nat, now: nat, q: Timers.Queue<Alarm>, w: (Timers.Queue<Alarm>, nat),
                     x: (Timers.Queue<Alarm>, nat))
    requires Tracked(d) && i < |d.instances|
    requires q == Timers.Cancel(d.timers, d.instances[i].warningRef)
    requires w == Timers.Schedule(q, now, WarningDelay, ShowWarning(i))
    requires x == Timers.Schedule(w.0, now, SessionTimeout, AutoLogoutDue(i))
    ensures KeepsLogouts(d.timers, x.0)
    ensures x.1 !in d.timers.pending && x.1 in x.0.pending
    ensures Timers.With(x.0, AutoLogoutDue(i)) == Timers.With(d.timers, AutoLogoutDue(i)) + {x.1}
  {
    CancelOwn(d, i);
    Timers.ScheduleWith(q, now, WarningDelay, ShowWarning(i), AutoLogoutDue(i));
    Timers.ScheduleWith(w.0, now, SessionTimeout, AutoLogoutDue(i), AutoLogoutDue(i));
    Timers.CancelShrinks(d.timers, d.instances[i].warningRef, AutoLogoutDue(i));
    forall h | h in Timers.With(d.timers, AutoLogoutDue(i)) ensures h in Timers.With(q, AutoLogoutDue(i)) {
      assert d.timers.pending[h].action != ShowWarning(i);
    }
  }

  /** Stops instance `i`'s own timers: the warning its ref names and its
      elapsed-time interval. */
  function StopInstance(d: Dash, i: nat): (r: Dash)
    requires Tracked(d) && i < |d.instances|
    ensures Tracked(r) && |r.instances| == |d.instances|
    ensures Timers.With(r.timers, ShowWarning(i)) == {} && !r.instances[i].elapsedRunning
    ensures forall j :: 0 <= j < |d.instances| && j != i ==> Untouched(d.timers, d.instances, r.timers, r.instances, j)
    ensures KeepsLogouts(d.timers, r.timers) && r.timers.pending.Keys <= d.timers.pending.Keys
    ensures r == d.(timers := r.timers, instances := r.instances)
  {
    var q := Timers.Cancel(d.timers, d.instances[i].warningRef);
    var s := d.instances[i := d.instances[i].(elapsedRunning := false)];
    CancelOwn(d, i);
    OthersKept(d, q, s, i);
    assert Armed(d.timers, d.instances, i) && Armed(q, s, i);
    d.(timers := q, instances := s)
  }

  /** Composes two steps that leave instances `0 .. n-1` untouched. */
  lemma UntouchedBelow(d: Dash, e: Dash, r: Dash, n: nat)
    requires forall j :: 0 <= j < n ==> Untouched(d.timers, d.instances, e.timers, e.instances, j)
    requires forall j :: 0 <= j < n ==> Untouched(e.timers, e.instances, r.timers, r.instances, j)
    ensures forall j :: 0 <= j < n ==> Untouched(d.timers, d.instances, r.timers, r.instances, j)
  {
    forall j | 0 <= j < n ensures Untouched(d.timers, d.instances, r.timers, r.instances, j) {
      UntouchedTrans(d, e, r, j);
    }
  }

  /** The mount effect. A dashboard already on screen is not mounted
      again. Without a token or a stored profile, or with a profile that
      does not parse, the page goes to the login screen and no timer
      starts. Otherwise a new instance is on screen: its elapsed-time
      interval runs, one more set of document listeners calls it, and its
      reset has run. */
  function Mount(d: Dash, now: nat): (r: Dash)
    requires Tracked(d)
    ensures Tracked(r)
    ensures d.shown.Some? ==> r == d
    ensures r.page == DashboardPage <==>
              d.shown.Some? ||
              (Present(d.storage, TokenKey) && Present(d.storage, InfoKey) && ParseJson(d.storage[InfoKey]).Some?)
    ensures d.shown.None? && r.page != DashboardPage ==> r == d.(page := LoginPage)
    ensures d.shown.None? && r.page == DashboardPage ==>
              var n := |d.instances|;
              && |r.instances| == n + 1 && r.shown == Some(n)
              && r.listeners == d.listeners + [n]
              && r.instances[n].elapsedRunning
              && r.instances[n].loginTime == ReadTime(d.storage, LoginTimestampKey, now)
              && Warned(r.timers, r.instances, n, now)
              && (exists x :: x !in d.timers.pending && x in r.timers.pending
                    && r.timers.pending[x] == Timers.Timer(now + SessionTimeout, AutoLogoutDue(n)))
              && (forall j :: 0 <= j < n ==> Untouched(d.timers, d.instances, r.timers, r.instances, j))
              && KeepsLogouts(d.timers, r.timers)
              && r.storage == d.storage && r.countdowns == d.countdowns && !r.sessionWarning
  {
    if d.shown.Some? then d
    else if !Present(d.storage, TokenKey) || !Present(d.storage, InfoKey) then d.(page := LoginPage)
    else if ParseJson(d.storage[InfoKey]).None? then d.(page := LoginPage)
    else
      var n := |d.instances|;
      var e := d.(page := DashboardPage, shown := Some(n),
                  instances := d.instances + [Instance(None, None, true, ReadTime(d.storage, LoginTimestampKey, now))],
                  listeners := d.listeners + [n], sessionWarning := false, timeLeft := "", sessionTime := "");
      MountFacts(d, e);
      var r := ResetTimeout(e, n, now);
      UntouchedBelow(d, e, r, n);
      r
  }

  lemma MountFacts(d: Dash, e: Dash)
    requires Tracked(d) && d.shown.None?
    requires |e.instances| == |d.instances| + 1 && e.instances[..|d.instances|] == d.instances
    requires e.instances[|d.instances|].warningRef.None?
    requires e.timers == d.timers && e.page == DashboardPage && e.shown == Some(|d.instances|)
    requires e.listeners == d.listeners + [|d.instances|] && e.countdowns == d.countdowns
    ensures Tracked(e)
    ensures forall j :: 0 <= j < |d.instances| ==> Untouched(d.timers, d.instances, e.timers, e.instances, j)
  {
    var n := |d.instances|;
    assert forall h :: h in d.timers.pending ==> d.timers.pending[h].action != ShowWarning(n);
    assert Timers.With(e.timers, ShowWarning(n)) == {};
    forall i | 0 <= i < n ensures Armed(e.timers, e.instances, i) && e.instances[i] == d.instances[i] {
      assert Armed(d.timers, d.instances, i);
      assert e.instances[i] == e.instances[..n][i];
    }
  }

  /** A navigation away from the dashboard: the instance on screen, if
      any, unmounts, and its cleanup clears its warning timer and stops
      its interval. Its listeners stay attached: nothing removes them. */
  function Leave(d: Dash, to: Page): (r: Dash)
    requires Tracked(d) && to != DashboardPage
    ensures Tracked(r) && r.page == to && r.shown.None? && |r.instances| == |d.instances|
    ensures r == d.(page := to, shown := None, timers := r.timers, instances := r.instances)
    ensures KeepsLogouts(d.timers, r.timers) && r.timers.pending.Keys <= d.timers.pending.Keys
    ensures d.shown.None? ==> r == d.(page := to)
    ensures d.shown.Some? ==>
              && Timers.With(r.timers, ShowWarning(d.shown.value)) == {}
              && !r.instances[d.shown.value].elapsedRunning
              && forall j :: 0 <= j < |d.instances| && j != d.shown.value ==>
                   Untouched(d.timers, d.instances, r.timers, r.instances, j)
  {
    match d.shown
    case None => d.(page := to)
    case Some(i) => StopInstance(d, i).(page := to, shown := None)
  }

  /** What a run of activity handlers does to the tab as a whole: the
      activity time is stored, every pending logout timer is kept, and
      nothing outside the timers, the instances and the banner changes. */
  ghost predicate Frame(d: Dash, r: Dash, now: nat) {
    && |r.instances| == |d.instances|
    && r.countdowns == d.countdowns && r.page == d.page && r.shown == d.shown && r.listeners == d.listeners
    && r.timeLeft == d.timeLeft && r.sessionTime == d.sessionTime
    && KeepsLogouts(d.timers, r.timers)
    && r.storage == d.storage[LastActivityKey := Number(now)]
  }

  /** What one run of instance `i`'s activity handler does. */
  ghost predicate Step(d: Dash, r: Dash, i: nat, now: nat) {
    && Frame(d, r, now)
    && Warned(r.timers, r.instances, i, now)
    && (forall j :: 0 <= j < |d.instances| && j != i ==> Untouched(d.timers, d.instances, r.timers, r.instances, j))
    && r.sessionWarning == (if d.shown == Some(i) then false else d.sessionWarning)
  }

  /** Two runs of handlers at the same time make one. */
  lemma FrameTwice(d: Dash, e: Dash, r: Dash, now: nat)
    requires Frame(d, e, now) && Frame(e, r, now)
    ensures Frame(d, r, now)
  {
    assert e.storage[LastActivityKey := Number(now)] == e.storage;
  }

  /** Instance `i`'s activity handler: the activity time is stored, the
      instance's timers are reset and its banner hidden (a state update of
      an instance no longer on screen changes nothing). */
  function Handler(d: Dash, i: nat, now: nat): (r: Dash)
    requires Tracked(d) && i < |d.instances|
    ensures Tracked(r)
    ensures Step(d, r, i, now)
  {
    var e := ResetTimeout(d.(storage := d.storage[LastActivityKey := Number(now)]), i, now);
    if d.shown == Some(i) then e.(sessionWarning := false) else e
  }

  /** The handlers of the instances `ls`, run in order. */
  function HandlerRuns(d: Dash, now: nat, ls: seq<nat>): (r: Dash)
    requires Tracked(d) && forall k :: 0 <= k < |ls| ==> ls[k] < |d.instances|
    ensures Tracked(r) && |r.instances| == |d.instances|
    ensures ls == [] ==> r == d
    ensures ls != [] ==> Frame(d, r, now)
    decreases |ls|
  {
    if ls == [] then d
    else
      var e := Handler(d, ls[0], now);
      var r := HandlerRuns(e, now, ls[1..]);
      if ls[1..] == [] then r else FrameTwice(d, e, r, now); r
  }

  /** A user-input event at time `now`: every attached handler runs, one
      set per mount, each re-arming the warning of the instance it was
      created by. Each such instance then has one warning pending; the
      others, the countdowns and every pending logout timer are left as
      they were. */
  function Activity(d: Dash, now: nat): (r: Dash)
    requires Tracked(d)
    ensures Tracked(r)
    ensures r.countdowns == d.countdowns && r.page == d.page && r.shown == d.shown && r.listeners == d.listeners
    ensures |r.instances| == |d.instances|
    ensures KeepsLogouts(d.timers, r.timers)
    ensures d.listeners == [] ==> r == d
    ensures d.listeners != [] ==> r.storage == d.storage[LastActivityKey := Number(now)]
    ensures forall i :: 0 <= i < |d.instances| && i in d.listeners ==> Warned(r.timers, r.instances, i, now)
    ensures forall i :: 0 <= i < |d.instances| && i !in d.listeners ==>
              Untouched(d.timers, d.instances, r.timers, r.instances, i)
    ensures d.shown.Some? && d.shown.value in d.listeners ==> !r.sessionWarning
  {
    ActivityKeeps(d, now, d.listeners);
    ActivityWarns(d, now, d.listeners);
    ActivityLeaves(d, now, d.listeners);
    HandlerRuns(d, now, d.listeners)
  }

  lemma {:induction false} ActivityKeeps(d: Dash, now: nat, ls: seq<nat>)
    requires Tracked(d) && forall k :: 0 <= k < |ls| ==> ls[k] < |d.instances|
    ensures var r := HandlerRuns(d, now, ls);
            && (d.shown.Some? && d.shown.value in ls ==> !r.sessionWarning)
            && (d.shown.Some? && d.shown.value !in ls ==> r.sessionWarning == d.sessionWarning)
    decreases |ls|
  {
    if ls != [] {
      var e := Handler(d, ls[0], now);
      var r := HandlerRuns(e, now, ls[1..]);
      assert r == HandlerRuns(d, now, ls);
      ActivityKeeps(e, now, ls[1..]);
      assert e.shown == d.shown;
      if d.shown.Some? {
        var v := d.shown.value;
        assert v in ls <==> v == ls[0] || v in ls[1..];
        assert v == ls[0] ==> !e.sessionWarning;
        assert v != ls[0] ==> e.sessionWarning == d.sessionWarning;
      }
    }
  }

  /** The handlers of `ls` leave one warning pending for each instance in
      `ls`. */
  lemma {:induction false} ActivityWarns(d: Dash, now: nat, ls: seq<nat>)
    requires Tracked(d) && forall k :: 0 <= k < |ls| ==> ls[k] < |d.instances|
    ensures var r := HandlerRuns(d, now, ls);
            forall i :: 0 <= i < |d.instances| && i in ls ==> Warned(r.timers, r.instances, i, now)
    decreases |ls|
  {
    if ls != [] {
      var e := Handler(d, ls[0], now);
      var r := HandlerRuns(e, now, ls[1..]);
      assert r == HandlerRuns(d, now, ls);
      ActivityWarns(e, now, ls[1..]);
      ActivityLeaves(e, now, ls[1..]);
      forall i | 0 <= i < |d.instances| && i in ls ensures Warned(r.timers, r.instances, i, now) {
        if i !in ls[1..] {
          assert i == ls[0];
          WarnedKept(e, r, i, now);
        }
      }
    }
  }

  /** The handlers of `ls` do not touch an instance outside `ls`. */
  lemma {:induction false} ActivityLeaves(d: Dash, now: nat, ls: seq<nat>)
    requires Tracked(d) && forall k :: 0 <= k < |ls| ==> ls[k] < |d.instances|
    ensures var r := HandlerRuns(d, now, ls);
            forall i :: 0 <= i < |d.instances| && i !in ls ==>
              Untouched(d.timers, d.instances, r.timers, r.instances, i)
    decreases |ls|
  {
    if ls != [] {
      var e := Handler(d, ls[0], now);
      var r := HandlerRuns(e, now, ls[1..]);
      assert r == HandlerRuns(d, now, ls);
      ActivityLeaves(e, now, ls[1..]);
      forall i | 0 <= i < |d.instances| && i !in ls
        ensures Untouched(d.timers, d.instances, r.timers, r.instances, i)
      {
        assert i != ls[0] && i !in ls[1..];
        UntouchedTrans(d, e, r, i);
      }
    }
  }

  lemma WarnedKept(e: Dash, r: Dash, i: nat, now: nat)
    requires Warned(e.timers, e.instances, i, now) && Untouched(e.timers, e.instances, r.timers, r.instances, i)
    ensures Warned(r.timers, r.instances, i, now)
  {
  }

  lemma UntouchedTrans(d: Dash, e: Dash, r: Dash, i: nat)
    requires Untouched(d.timers, d.instances, e.timers, e.instances, i)
    requires Untouched(e.timers, e.instances, r.timers, r.instances, i)
    ensures Untouched(d.timers, d.instances, r.timers, r.instances, i)
  {
  }

  /** "Stay Active" on the banner of the instance on screen: the banner is
      hidden and that instance's timers reset. (The same click also
      reaches the document handlers, as a separate `Activity`.) */
  function StayActive(d: Dash, now: nat): (r: Dash)
    requires Tracked(d) && d.shown.Some?
    ensures Tracked(r) && !r.sessionWarning && r.countdowns == d.countdowns && r.page == DashboardPage
    ensures Warned(r.timers, r.instances, d.shown.value, now) && KeepsLogouts(d.timers, r.timers)
  {
    ResetTimeout(d.(sessionWarning := false), d.shown.value, now)
  }

  /** `clearAllSessionData` of instance `i`: the four session keys removed
      (a remembered id survives), the instance's own warning timer
      cancelled and its elapsed-time interval stopped. Logout timers,
      countdowns and the other instances are not touched. */
  function ClearAll(d: Dash, i: nat): (r: Dash)
    requires Tracked(d) && i < |d.instances|
    ensures Tracked(r) && |r.instances| == |d.instances|
    ensures forall k :: k in SessionKeys ==> k !in r.storage
    ensures forall k :: k in d.storage && k !in SessionKeys ==> k in r.storage && r.storage[k] == d.storage[k]
    ensures Timers.With(r.timers, ShowWarning(i)) == {} && !r.instances[i].elapsedRunning
    ensures forall j :: 0 <= j < |d.instances| && j != i ==> Untouched(d.timers, d.instances, r.timers, r.instances, j)
    ensures KeepsLogouts(d.timers, r.timers) && r.timers.pending.Keys <= d.timers.pending.Keys
    ensures r == d.(storage := r.storage, timers := r.timers, instances := r.instances)
  {
    StopInstance(d.(storage := ClearSession(d.storage)), i)
  }

  /** Where a logout ends, and whether it posted to the logout endpoint
      (only when a token was stored). */
  datatype Exit = Exit(dash: Dash, requestSent: bool)

  /** `autoLogout` run by instance `i`: the request's failure is
      swallowed; the session is cleared with `i`'s refs and the tab goes to
      the login page either way, which unmounts the instance on screen. */
  function AutoLogout(d: Dash, i: nat, serverFails: bool): (r: Exit)
    requires Tracked(d) && i < |d.instances|
    ensures Tracked(r.dash) && |r.dash.instances| == |d.instances|
    ensures r.requestSent <==> Present(d.storage, TokenKey)
    ensures r.dash.page == LoginPage && r.dash.shown.None?
    ensures forall k :: k in SessionKeys ==> k !in r.dash.storage
    ensures forall k :: k in d.storage && k !in SessionKeys ==> k in r.dash.storage && r.dash.storage[k] == d.storage[k]
    ensures Timers.With(r.dash.timers, ShowWarning(i)) == {} && !r.dash.instances[i].elapsedRunning
    ensures d.shown.Some? ==> Timers.With(r.dash.timers, ShowWarning(d.shown.value)) == {}
    ensures KeepsLogouts(d.timers, r.dash.timers) && r.dash.timers.pending.Keys <= d.timers.pending.Keys
    ensures r.dash.countdowns == d.countdowns && r.dash.listeners == d.listeners
    ensures r.dash.timeLeft == d.timeLeft && r.dash.sessionTime == d.sessionTime
  {
    var c := ClearAll(d, i);
    var l := Leave(c, LoginPage);
    assert d.shown.Some? && d.shown.value != i ==> Untouched(c.timers, c.instances, l.timers, l.instances, i);
    Exit(l, Present(d.storage, TokenKey))
  }

  /** `confirmLogout` from the instance on screen: as `autoLogout`, ending
      on the home page. */
  function ConfirmLogout(d: Dash, serverFails: bool): (r: Exit)
    requires Tracked(d) && d.shown.Some?
    ensures Tracked(r.dash) && |r.dash.instances| == |d.instances|
    ensures r.requestSent <==> Present(d.storage, TokenKey)
    ensures r.dash.page == HomePage && r.dash.shown.None?
    ensures forall k :: k in SessionKeys ==> k !in r.dash.storage
    ensures forall k :: k in d.storage && k !in SessionKeys ==> k in r.dash.storage && r.dash.storage[k] == d.storage[k]
    ensures Timers.With(r.dash.timers, ShowWarning(d.shown.value)) == {}
    ensures !r.dash.instances[d.shown.value].elapsedRunning
    ensures KeepsLogouts(d.timers, r.dash.timers) && r.dash.timers.pending.Keys <= d.timers.pending.Keys
    ensures r.dash.countdowns == d.countdowns && r.dash.listeners == d.listeners
  {
    Exit(Leave(ClearAll(d, d.shown.value), HomePage), Present(d.storage, TokenKey))
  }

  /** Both logouts end the session whether or not the server call fails. */
  lemma LogoutIgnoresServerFailure(d: Dash, i: nat)
    requires Tracked(d) && i < |d.instances|
    ensures AutoLogout(d, i, true) == AutoLogout(d, i, false)
    ensures d.shown.Some? ==> ConfirmLogout(d, true) == ConfirmLogout(d, false)
    ensures forall k :: k in SessionKeys ==> k !in AutoLogout(d, i, true).dash.storage
  {
  }

  /** Firing removes one timer: every instance stays armed. */
  lemma FireKeeps(d: Dash, h: nat)
    requires Tracked(d) && h in d.timers.pending
    ensures Tracked(d.(timers := Timers.Fire(d.timers, h)))
  {
    var q := Timers.Fire(d.timers, h);
    forall i | 0 <= i < |d.instances| ensures Armed(q, d.instances, i) {
      assert Armed(d.timers, d.instances, i);
      assert Timers.With(q, ShowWarning(i)) <= Timers.With(d.timers, ShowWarning(i));
    }
  }

  /** The runtime calls the due timer `h`. A warning shows the banner, if
      its instance is on screen, and starts a 300-second countdown in that
      instance either way; a logout timer logs out. */
  function FireTimer(d: Dash, h: nat, serverFails: bool): (r: Exit)
    requires Tracked(d) && h in d.timers.pending
    ensures Tracked(r.dash) && h !in r.dash.timers.pending
    ensures d.timers.pending[h].action.ShowWarning? ==>
              var o := d.timers.pending[h].action.owner;
              && r.dash.countdowns == d.countdowns + [Warning(o, CountdownStart)]
              && r.dash.sessionWarning == (d.shown == Some(o) || d.sessionWarning)
              && r.dash.page == d.page && r.dash.storage == d.storage && !r.requestSent
    ensures d.timers.pending[h].action.AutoLogoutDue? ==>
              && r.dash.page == LoginPage && r.dash.shown.None?
              && (forall k :: k in SessionKeys ==> k !in r.dash.storage)
              && (r.requestSent <==> Present(d.storage, TokenKey))
  {
    var e := d.(timers := Timers.Fire(d.timers, h));
    FireKeeps(d, h);
    match d.timers.pending[h].action
    case ShowWarning(o) =>
      Exit(e.(sessionWarning := d.shown == Some(o) || d.sessionWarning,
              countdowns := d.countdowns + [Warning(o, CountdownStart)]), false)
    case AutoLogoutDue(o) => AutoLogout(e, o, serverFails)
  }

  /** `s` without its `k`th element. */
  function Without(s: seq<Warning>, k: nat): (r: seq<Warning>)
    requires k < |s|
    ensures |r| == |s| - 1
    ensures forall j :: 0 <= j < |r| ==> r[j] == (if j < k then s[j] else s[j + 1])
  {
    s[..k] + s[k + 1..]
  }

  /** Stopping a countdown keeps the tab's invariant. */
  lemma WithoutTracked(d: Dash, k: nat)
    requires Tracked(d) && k < |d.countdowns|
    ensures Tracked(d.(countdowns := Without(d.countdowns, k)))
  {
    var r := Without(d.countdowns, k);
    forall j | 0 <= j < |r| ensures r[j].owner < |d.instances| {
      if j >= k {
        assert r[j] == d.countdowns[j + 1];
      }
    }
  }

  /** One second of countdown `k`: one second less, shown as `m:ss` if its
      instance is on screen; at zero the countdown stops itself and its
      instance logs out. */
  function CountdownTick(d: Dash, k: nat, serverFails: bool): (r: Exit)
    requires Tracked(d) && k < |d.countdowns|
    ensures Tracked(r.dash)
    ensures d.shown == Some(d.countdowns[k].owner) ==>
              r.dash.timeLeft == SessionManager.Clock(d.countdowns[k].secondsLeft - 1)
    ensures d.shown != Some(d.countdowns[k].owner) ==> r.dash.timeLeft == d.timeLeft
    ensures var w := d.countdowns[k];
            w.secondsLeft > 1 ==>
              && r.dash.countdowns == d.countdowns[k := w.(secondsLeft := w.secondsLeft - 1)]
              && r.dash.page == d.page && r.dash.timers == d.timers && !r.requestSent
    ensures d.countdowns[k].secondsLeft <= 1 ==>
              && r.dash.page == LoginPage
              && r.dash.countdowns == Without(d.countdowns, k)
              && (forall key :: key in SessionKeys ==> key !in r.dash.storage)
  {
    var w := d.countdowns[k];
    var left := w.secondsLeft - 1;
    var e := if d.shown == Some(w.owner) then d.(timeLeft := SessionManager.Clock(left)) else d;
    WithoutTracked(e, k);
    if left <= 0 then AutoLogout(e.(countdowns := Without(d.countdowns, k)), w.owner, serverFails)
    else Exit(e.(countdowns := d.countdowns[k := w.(secondsLeft := left)]), false)
  }

  /** `n` ticks of countdown `k`, with nothing else happening. */
  function Countdown(d: Dash, k: nat, n: nat): (r: Dash)
    requires Tracked(d) && k < |d.countdowns|
    ensures Tracked(r)
    decreases n
  {
    if n == 0 then d
    else if d.countdowns[k].secondsLeft > 1 then
      StepKeepsTracked(d, k);
      Countdown(CountdownStep(d, k, SessionManager.Clock), k, n - 1)
    else CountdownTick(d, k, false).dash
  }

  /** Left alone, a countdown started at `c` seconds still runs after
      `c - 1` ticks, showing the seconds left while its instance is on
      screen, and logs out on tick `c`. */
  lemma CountdownLogsOutOnLastTick(d: Dash, k: nat, n: nat)
    requires Tracked(d) && k < |d.countdowns| && 1 <= n <= d.countdowns[k].secondsLeft
    ensures var w := d.countdowns[k];
            n < w.secondsLeft ==>
              && Countdown(d, k, n).countdowns == d.countdowns[k := w.(secondsLeft := w.secondsLeft - n)]
              && Countdown(d, k, n).page == d.page
              && (d.shown == Some(w.owner) ==> Countdown(d, k, n).timeLeft == SessionManager.Clock(w.secondsLeft - n))
    ensures n == d.countdowns[k].secondsLeft ==> Countdown(d, k, n).page == LoginPage
  {
    if n < d.countdowns[k].secondsLeft {
      CountdownRuns(d, k, n);
    } else {
      CountdownEnds(d, k, n);
    }
  }

  /** Before its last tick a countdown runs on, one second less per tick. */
  lemma CountdownRuns(d: Dash, k: nat, n: nat)
    requires Tracked(d) && k < |d.countdowns| && 1 <= n < d.countdowns[k].secondsLeft
    ensures var w := d.countdowns[k];
            Countdown(d, k, n).countdowns == d.countdowns[k := w.(secondsLeft := w.secondsLeft - n)]
    ensures Countdown(d, k, n).page == d.page
    ensures d.shown == Some(d.countdowns[k].owner) ==>
              Countdown(d, k, n).timeLeft == SessionManager.Clock(d.countdowns[k].secondsLeft - n)
  {
    CountdownIsRun(d, k, n);
    RunCounts(d, k, n, SessionManager.Clock);
    RunKeepsPage(d, k, n, SessionManager.Clock);
    if d.shown == Some(d.countdowns[k].owner) {
      RunShowsOwn(d, k, n, SessionManager.Clock);
    }
  }

  /** A tick of a countdown with more than a second left: only its count
      and, if its instance is on screen, the label written by `show`
      change. */
  function CountdownStep(d: Dash, k: nat, show: int -> string): (r: Dash)
    requires k < |d.countdowns|
    ensures r.countdowns == d.countdowns[k := d.countdowns[k].(secondsLeft := d.countdowns[k].secondsLeft - 1)]
    ensures r.page == d.page && r.shown == d.shown && r.timers == d.timers && r.instances == d.instances
    ensures d.shown == Some(d.countdowns[k].owner) ==> r.timeLeft == show(d.countdowns[k].secondsLeft - 1)
  {
    var w := d.countdowns[k];
    d.(timeLeft := if d.shown == Some(w.owner) then show(w.secondsLeft - 1) else d.timeLeft,
       countdowns := d.countdowns[k := w.(secondsLeft := w.secondsLeft - 1)])
  }

  /** `n` ticks that leave time on the countdown. */
  function Run(d: Dash, k: nat, n: nat, show: int -> string): (r: Dash)
    requires k < |d.countdowns| && n < d.countdowns[k].secondsLeft
    decreases n
  {
    if n == 0 then d else Run(CountdownStep(d, k, show), k, n - 1, show)
  }

  lemma {:induction false} CountdownIsRun(d: Dash, k: nat, n: nat)
    requires Tracked(d) && k < |d.countdowns| && n < d.countdowns[k].secondsLeft
    ensures Countdown(d, k, n) == Run(d, k, n, SessionManager.Clock)
    decreases n
  {
    if n > 0 {
      var e := CountdownStep(d, k, SessionManager.Clock);
      CountdownUnfold(d, k, n);
      StepKeepsTracked(d, k);
      CountdownIsRun(e, k, n - 1);
      assert Run(d, k, n, SessionManager.Clock) == Run(e, k, n - 1, SessionManager.Clock);
    }
  }

  /** After `n` ticks the countdown holds `n` seconds less and no other
      countdown has moved. */
  lemma {:induction false} RunCounts(d: Dash, k: nat, n: nat, show: int -> string)
    requires k < |d.countdowns| && 1 <= n < d.countdowns[k].secondsLeft
    ensures var w := d.countdowns[k];
            Run(d, k, n, show).countdowns == d.countdowns[k := w.(secondsLeft := w.secondsLeft - n)]
    decreases n
  {
    var e := CountdownStep(d, k, show);
    var w := d.countdowns[k];
    if n > 1 {
      RunCounts(e, k, n - 1, show);
      UpdateTwice(d.countdowns, e.countdowns, Run(e, k, n - 1, show).countdowns, k,
                  w.(secondsLeft := w.secondsLeft - 1), w.(secondsLeft := w.secondsLeft - n));
    } else {
      assert Run(e, k, 0, show) == e;
    }
  }

  lemma {:induction false} RunKeepsPage(d: Dash, k: nat, n: nat, show: int -> string)
    requires k < |d.countdowns| && n < d.countdowns[k].secondsLeft
    ensures Run(d, k, n, show).page == d.page
    decreases n
  {
    if n > 0 {
      RunKeepsPage(CountdownStep(d, k, show), k, n - 1, show);
    }
  }

  /** While its instance is on screen, after any tick that leaves time the
      label shows the seconds left. */
  lemma {:induction false} RunShowsOwn(d: Dash, k: nat, n: nat, show: int -> string)
    requires k < |d.countdowns| && 1 <= n < d.countdowns[k].secondsLeft
    requires d.shown == Some(d.countdowns[k].owner)
    ensures Run(d, k, n, show).timeLeft == show(d.countdowns[k].secondsLeft - n)
    decreases n
  {
    var e := CountdownStep(d, k, show);
    if n > 1 {
      RunShowsOwn(e, k, n - 1, show);
    } else {
      assert Run(e, k, 0, show) == e;
    }
  }

  /** On its last tick a countdown logs out. */
  lemma {:induction false} CountdownEnds(d: Dash, k: nat, n: nat)
    requires Tracked(d) && k < |d.countdowns| && 1 <= n == d.countdowns[k].secondsLeft
    ensures Countdown(d, k, n).page == LoginPage
    decreases n
  {
    if n > 1 {
      CountdownUnfold(d, k, n);
      StepKeepsTracked(d, k);
      CountdownEnds(CountdownStep(d, k, SessionManager.Clock), k, n - 1);
    }
  }

  /** A tick leaves the timers and instances alone. */
  lemma StepKeepsTracked(d: Dash, k: nat)
    requires Tracked(d) && k < |d.countdowns|
    ensures Tracked(CountdownStep(d, k, SessionManager.Clock))
  {
  }

  /** That is what the interval's tick does while time is left. */
  lemma StepIsTick(d: Dash, k: nat, serverFails: bool)
    requires Tracked(d) && k < |d.countdowns| && d.countdowns[k].secondsLeft > 1
    ensures CountdownStep(d, k, SessionManager.Clock) == CountdownTick(d, k, serverFails).dash
  {
  }

  /** One tick of a countdown with more than a second left, then the rest. */
  lemma CountdownUnfold(d: Dash, k: nat, n: nat)
    requires Tracked(d) && k < |d.countdowns| && n >= 1 && d.countdowns[k].secondsLeft > 1
    ensures Countdown(d, k, n) == Countdown(CountdownStep(d, k, SessionManager.Clock), k, n - 1)
  {
  }

  /** Writing one place twice keeps the second write. */
  lemma UpdateTwice(s: seq<Warning>, t: seq<Warning>, u: seq<Warning>, i: nat, a: Warning, b: Warning)
    requires i < |s| && t == s[i := a] && u == t[i := b]
    ensures u == s[i := b]
  {
  }

  /** Activity at any time does not stop a countdown that is running. */
  lemma ActivityKeepsCountdown(d: Dash, now: nat)
    requires Tracked(d) && |d.countdowns| > 0
    ensures Activity(d, now).countdowns == d.countdowns
    ensures d.shown.Some? ==> StayActive(d, now).countdowns == d.countdowns
  {
  }

  /** The elapsed-time interval of instance `i`: while it runs and the
      instance is on screen, the label is `Xm Ys` from the login time read
      at mount. */
  function ElapsedTick(d: Dash, i: nat, now: nat): (r: Dash)
    requires i < |d.instances|
    ensures var it := d.instances[i];
            it.elapsedRunning && d.shown == Some(i) && it.loginTime.Some? && now >= it.loginTime.value ==>
              var b := SessionManager.Breakdown(now - it.loginTime.value);
              && r.sessionTime == b.formatted
              && 0 <= b.seconds < 60 && b.minutes * 60 + b.seconds == (now - it.loginTime.value) / 1000
              && b.minutes == (now - it.loginTime.value) / 60000
    ensures !d.instances[i].elapsedRunning || d.shown != Some(i) ==> r == d
    ensures r == d.(sessionTime := r.sessionTime)
  {
    var it := d.instances[i];
    if !it.elapsedRunning || d.shown != Some(i) then d
    else match it.loginTime
      case None => d.(sessionTime := "NaNm NaNs")
      case Some(login) => d.(sessionTime := SessionManager.Breakdown(now - login).formatted)
  }

  // ---------------------------------------------------------------------
  // What the missing cancellation and the missing listener removal do

  /** The user is active after mounting, yet the logout timer the mount set
      still fires 30 minutes after the mount, before the inactivity window
      that began with the activity has run out. */
  lemma LogoutDespiteActivity(st: Storage, mounted: nat, active: nat)
    requires Present(st, TokenKey) && Present(st, InfoKey) && ParseJson(st[InfoKey]).Some?
    requires mounted < active
    ensures var d := Activity(Mount(Initial(st), mounted), active);
            && d.page == DashboardPage
            && Warned(d.timers, d.instances, 0, active)
            && (exists h :: h in d.timers.pending
                  && d.timers.pending[h] == Timers.Timer(mounted + SessionTimeout, AutoLogoutDue(0)))
            && mounted + SessionTimeout < active + SessionTimeout
  {
    var m := Mount(Initial(st), mounted);
    FirstMount(st, mounted);
    var x :| x !in Initial(st).timers.pending && x in m.timers.pending
              && m.timers.pending[x] == Timers.Timer(mounted + SessionTimeout, AutoLogoutDue(0));
    var d := Activity(m, active);
    assert x in d.timers.pending && d.timers.pending[x] == m.timers.pending[x];
  }

  /** A logout leaves the earlier logout timers pending. If the student logs
      in again before one fires, it clears the new session and sends the
      tab to the login page. */
  lemma StaleLogoutEndsNextSession(d: Dash, h: nat, token: string, info: Stored, now: nat)
    requires Tracked(d) && d.shown.Some? && h in d.timers.pending && d.timers.pending[h].action.AutoLogoutDue?
    requires token != "" && ParseJson(info).Some?
    ensures var out := ConfirmLogout(d, false).dash;
            && h in out.timers.pending
            && var back := Mount(out.(storage := out.storage[TokenKey := Text(token)][InfoKey := info]), now);
               && back.page == DashboardPage && h in back.timers.pending
               && var fired := FireTimer(back, h, false).dash;
                  TokenKey !in fired.storage && fired.page == LoginPage
  {
    var out := ConfirmLogout(d, false).dash;
    var again := out.(storage := out.storage[TokenKey := Text(token)][InfoKey := info]);
    assert Present(again.storage, TokenKey) && Present(again.storage, InfoKey);
  }

  /** A second login in the same tab stacks the instances: the next input
      event re-arms a warning for the new instance on screen and another
      for the first one, long unmounted, whose listeners were never
      removed. Both are due 25 minutes later. */
  lemma RemountStacksWarnings(st: Storage, t0: nat, t1: nat, t2: nat)
    requires Present(st, TokenKey) && Present(st, InfoKey) && ParseJson(st[InfoKey]).Some?
    ensures var first := Mount(Initial(st), t0);
            var out := ConfirmLogout(first, false).dash;
            var back := Mount(out.(storage := out.storage[TokenKey := st[TokenKey]][InfoKey := st[InfoKey]]), t1);
            var a := Activity(back, t2);
            && a.shown == Some(1) && a.listeners == [0, 1]
            && exists h0, h1 :: h0 != h1 && h0 in a.timers.pending && h1 in a.timers.pending
                 && a.timers.pending[h0] == Timers.Timer(t2 + WarningDelay, ShowWarning(0))
                 && a.timers.pending[h1] == Timers.Timer(t2 + WarningDelay, ShowWarning(1))
  {
    var first := Mount(Initial(st), t0);
    var out := ConfirmLogout(first, false).dash;
    var back := Mount(out.(storage := out.storage[TokenKey := st[TokenKey]][InfoKey := st[InfoKey]]), t1);
    SecondMount(st, t0, t1);
    var a := Activity(back, t2);
    assert 0 in back.listeners && 1 in back.listeners;
    WarnedPair(a.timers, a.instances, t2);
  }

  /** Logging out and in again mounts a second instance, with the first
      one's listeners still attached. */
  lemma SecondMount(st: Storage, t0: nat, t1: nat)
    requires Present(st, TokenKey) && Present(st, InfoKey) && ParseJson(st[InfoKey]).Some?
    ensures var first := Mount(Initial(st), t0);
            var out := ConfirmLogout(first, false).dash;
            var back := Mount(out.(storage := out.storage[TokenKey := st[TokenKey]][InfoKey := st[InfoKey]]), t1);
            back.shown == Some(1) && back.listeners == [0, 1]
  {
    var first := Mount(Initial(st), t0);
    FirstMount(st, t0);
    var out := ConfirmLogout(first, false).dash;
    MountAgain(out, st[TokenKey], st[InfoKey], t1);
  }

  /** The first mount in a tab is instance 0, with one set of listeners. */
  lemma FirstMount(st: Storage, now: nat)
    requires Present(st, TokenKey) && Present(st, InfoKey) && ParseJson(st[InfoKey]).Some?
    ensures var first := Mount(Initial(st), now);
            first.shown == Some(0) && first.listeners == [0] && |first.instances| == 1
  {
  }

  /** Mounting with a token and a parsable profile stored adds the next
      instance and its listeners. */
  lemma MountAgain(out: Dash, token: Stored, info: Stored, now: nat)
    requires Tracked(out) && out.shown.None?
    requires token != Text("") && info != Text("") && ParseJson(info).Some?
    ensures var back := Mount(out.(storage := out.storage[TokenKey := token][InfoKey := info]), now);
            back.shown == Some(|out.instances|) && back.listeners == out.listeners + [|out.instances|]
  {
    var again := out.(storage := out.storage[TokenKey := token][InfoKey := info]);
    assert again.storage[InfoKey] == info && again.storage[TokenKey] == token;
  }

  /** Two instances each warned at the same time have two distinct warning
      timers, one each. */
  lemma WarnedPair(q: Timers.Queue<Alarm>, s: seq<Instance>, now: nat)
    requires Warned(q, s, 0, now) && Warned(q, s, 1, now)
    ensures exists h0, h1 :: h0 != h1 && h0 in q.pending && h1 in q.pending
              && q.pending[h0] == Timers.Timer(now + WarningDelay, ShowWarning(0))
              && q.pending[h1] == Timers.Timer(now + WarningDelay, ShowWarning(1))
  {
    var h0 := s[0].warningRef.value;
    var h1 := s[1].warningRef.value;
    assert h0 in Timers.With(q, ShowWarning(0));
    assert h1 in Timers.With(q, ShowWarning(1));
  }

  // ---------------------------------------------------------------------
  // The reset with both timers cancelled

  /** Instance `i`'s logout ref names its only pending logout timer. */
  ghost predicate LogoutArmed(q: Timers.Queue<Alarm>, s: seq<Instance>, i: nat) {
    && i < |s|
    && Timers.With(q, AutoLogoutDue(i)) <= Handles(s[i].logoutRef)
    && (s[i].logoutRef.Some? ==> s[i].logoutRef.value < q.next)
    && (s[i].logoutRef.Some? && s[i].logoutRef.value in q.pending ==>
          q.pending[s[i].logoutRef.value].action == AutoLogoutDue(i))
  }

  /** Both timers tracked: each instance's refs name its only pending
      warning and its only pending logout timer. */
  ghost predicate TrackedBoth(d: Dash) {
    && Tracked(d)
    && forall i :: 0 <= i < |d.instances| ==> LogoutArmed(d.timers, d.instances, i)
  }

  /** Cancelling both of instance `i`'s refs removes exactly its timers. */
  lemma CancelBoth(d: Dash, i: nat)
    requires TrackedBoth(d) && i < |d.instances|
    ensures var q := Timers.Cancel(Timers.Cancel(d.timers, d.instances[i].warningRef), d.instances[i].logoutRef);
            && Timers.Valid(q) && q.next == d.timers.next
            && Timers.With(q, ShowWarning(i)) == {} && Timers.With(q, AutoLogoutDue(i)) == {}
            && (forall h :: h in d.timers.pending && d.timers.pending[h].action.owner != i ==>
                  h in q.pending && q.pending[h] == d.timers.pending[h])
            && (forall h :: h in q.pending ==> h in d.timers.pending && q.pending[h] == d.timers.pending[h])
  {
    var it := d.instances[i];
    var q1 := Timers.Cancel(d.timers, it.warningRef);
    var q := Timers.Cancel(q1, it.logoutRef);
    assert Armed(d.timers, d.instances, i) && LogoutArmed(d.timers, d.instances, i);
    Timers.CancelShrinks(d.timers, it.warningRef, ShowWarning(i));
    Timers.CancelShrinks(q1, it.logoutRef, ShowWarning(i));
    Timers.CancelShrinks(d.timers, it.warningRef, AutoLogoutDue(i));
    Timers.CancelShrinks(q1, it.logoutRef, AutoLogoutDue(i));
  }

  /** After changing only instance `i` and the timers, every other
      instance's logout ref is still armed. */
  lemma OthersLogoutArmed(d: Dash, q: Timers.Queue<Alarm>, s: seq<Instance>, i: nat)
    requires TrackedBoth(d) && i < |d.instances|
    requires |s| == |d.instances| && q.next >= d.timers.next
    requires forall j :: 0 <= j < |s| && j != i ==> s[j] == d.instances[j]
    requires forall h :: h in d.timers.pending && d.timers.pending[h].action.owner != i ==>
               h in q.pending && q.pending[h] == d.timers.pending[h]
    requires forall h :: h in q.pending && h !in d.timers.pending ==>
               h >= d.timers.next && q.pending[h].action.owner == i
    requires forall h :: h in q.pending && h in d.timers.pending ==> q.pending[h] == d.timers.pending[h]
    ensures forall j :: 0 <= j < |s| && j != i ==> LogoutArmed(q, s, j)
  {
    forall j | 0 <= j < |s| && j != i ensures LogoutArmed(q, s, j) {
      assert LogoutArmed(d.timers, d.instances, j);
      forall h | h in Timers.With(q, AutoLogoutDue(j)) ensures h in Timers.With(d.timers, AutoLogoutDue(j)) {
        assert h in d.timers.pending;
      }
    }
  }

  /** The corrected reset of instance `i`: the logout timer's handle is
      kept and cancelled with the warning's, so exactly one of each is
      pending for the instance afterwards. */
  function ResetBoth(d: Dash, i: nat, now: nat): (r: Dash)
    requires TrackedBoth(d) && i < |d.instances|
    ensures TrackedBoth(r) && |r.instances| == |d.instances|
    ensures Warned(r.timers, r.instances, i, now)
    ensures r.instances[i].logoutRef.Some?
    ensures Timers.With(r.timers, AutoLogoutDue(i)) == {r.instances[i].logoutRef.value}
    ensures r.timers.pending[r.instances[i].logoutRef.value] == Timers.Timer(now + SessionTimeout, AutoLogoutDue(i))
    ensures forall j :: 0 <= j < |d.instances| && j != i ==> Untouched(d.timers, d.instances, r.timers, r.instances, j)
    ensures r == d.(timers := r.timers, instances := r.instances)
  {
    var it := d.instances[i];
    var q := Timers.Cancel(Timers.Cancel(d.timers, it.warningRef), it.logoutRef);
    var w := Timers.Schedule(q, now, WarningDelay, ShowWarning(i));
    var x := Timers.Schedule(w.0, now, SessionTimeout, AutoLogoutDue(i));
    var r := d.(timers := x.0, instances := d.instances[i := it.(warningRef := Some(w.1), logoutRef := Some(x.1))]);
    ResetBothFacts(d, i, now, q, w, x, r);
    r
  }

  lemma ResetBothFacts(d: Dash, i: nat, now: nat, q: Timers.Queue<Alarm>, w: (Timers.Queue<Alarm>, nat),
                       x: (Timers.Queue<Alarm>, nat), r: Dash)
    requires TrackedBoth(d) && i < |d.instances|
    requires q == Timers.Cancel(Timers.Cancel(d.timers, d.instances[i].warningRef), d.instances[i].logoutRef)
    requires w == Timers.Schedule(q, now, WarningDelay, ShowWarning(i))
    requires x == Timers.Schedule(w.0, now, SessionTimeout, AutoLogoutDue(i))
    requires r == d.(timers := x.0, instances := d.instances[i := d.instances[i].(warningRef := Some(w.1), logoutRef := Some(x.1))])
    ensures TrackedBoth(r) && Warned(r.timers, r.instances, i, now)
    ensures Timers.With(r.timers, AutoLogoutDue(i)) == {x.1}
    ensures r.timers.pending[x.1] == Timers.Timer(now + SessionTimeout, AutoLogoutDue(i))
    ensures forall j :: 0 <= j < |d.instances| && j != i ==> Untouched(d.timers, d.instances, r.timers, r.instances, j)
  {
    CancelBoth(d, i);
    Timers.ScheduleWith(q, now, WarningDelay, ShowWarning(i), ShowWarning(i));
    Timers.ScheduleWith(w.0, now, SessionTimeout, AutoLogoutDue(i), ShowWarning(i));
    assert Timers.With(r.timers, ShowWarning(i)) == {w.1};
    OthersKept(d, r.timers, r.instances, i);
    ResetBothLogouts(d, i, now, q, w, x, r);
  }

  /** After the corrected reset every instance's logout ref is armed, and
      instance `i`'s names its only logout timer. */
  lemma ResetBothLogouts(d: Dash, i: nat, now: nat, q: Timers.Queue<Alarm>, w: (Timers.Queue<Alarm>, nat),
                         x: (Timers.Queue<Alarm>, nat), r: Dash)
    requires TrackedBoth(d) && i < |d.instances|
    requires q == Timers.Cancel(Timers.Cancel(d.timers, d.instances[i].warningRef), d.instances[i].logoutRef)
    requires w == Timers.Schedule(q, now, WarningDelay, ShowWarning(i))
    requires x == Timers.Schedule(w.0, now, SessionTimeout, AutoLogoutDue(i))
    requires r == d.(timers := x.0, instances := d.instances[i := d.instances[i].(warningRef := Some(w.1), logoutRef := Some(x.1))])
    ensures forall j :: 0 <= j < |r.instances| ==> LogoutArmed(r.timers, r.instances, j)
    ensures Timers.With(r.timers, AutoLogoutDue(i)) == {x.1}
  {
    CancelBoth(d, i);
    Timers.ScheduleWith(q, now, WarningDelay, ShowWarning(i), AutoLogoutDue(i));
    Timers.ScheduleWith(w.0, now, SessionTimeout, AutoLogoutDue(i), AutoLogoutDue(i));
    assert Timers.With(r.timers, AutoLogoutDue(i)) == {x.1};
    OthersLogoutArmed(d, r.timers, r.instances, i);
    assert LogoutArmed(r.timers, r.instances, i);
  }

  /** The countdowns of every instance but `i`. */
  function DropOwned(cs: seq<Warning>, i: nat): (r: seq<Warning>)
    ensures forall w :: w in r <==> w in cs && w.owner != i
    ensures forall k :: 0 <= k < |r| ==> r[k].owner != i && r[k] in cs
  {
    if cs == [] then []
    else if cs[0].owner == i then DropOwned(cs[1..], i)
    else [cs[0]] + DropOwned(cs[1..], i)
  }

  /** Countdowns taken from a tracked tab belong to its instances. */
  lemma DropOwnedTracked(d: Dash, i: nat)
    requires Tracked(d)
    ensures Tracked(d.(countdowns := DropOwned(d.countdowns, i)))
  {
    var r := DropOwned(d.countdowns, i);
    forall k | 0 <= k < |r| ensures r[k].owner < |d.instances| {
      var j :| 0 <= j < |d.countdowns| && d.countdowns[j] == r[k];
    }
  }

  /** The corrected activity handler of instance `i`: both of its timers
      re-armed and its running countdowns stopped, since the student is
      evidently present. */
  function ActivityBoth(d: Dash, i: nat, now: nat): (r: Dash)
    requires TrackedBoth(d) && i < |d.instances|
    ensures TrackedBoth(r)
    ensures forall k :: 0 <= k < |r.countdowns| ==> r.countdowns[k].owner != i
    ensures forall w :: w in d.countdowns && w.owner != i ==> w in r.countdowns
    ensures d.shown == Some(i) ==> !r.sessionWarning
    ensures r.storage == d.storage[LastActivityKey := Number(now)]
    ensures Warned(r.timers, r.instances, i, now)
    ensures r.instances[i].logoutRef.Some?
    ensures Timers.With(r.timers, AutoLogoutDue(i)) == {r.instances[i].logoutRef.value}
    ensures r.timers.pending[r.instances[i].logoutRef.value] == Timers.Timer(now + SessionTimeout, AutoLogoutDue(i))
  {
    var e := d.(storage := d.storage[LastActivityKey := Number(now)], countdowns := DropOwned(d.countdowns, i),
                sessionWarning := if d.shown == Some(i) then false else d.sessionWarning);
    DropOwnedTracked(d, i);
    ResetBoth(e, i, now)
  }

  /** The corrected clear of instance `i`: both of its timers cancelled and
      its countdowns stopped, so nothing from its session can fire
      afterwards. */
  function ClearAllBoth(d: Dash, i: nat): (r: Dash)
    requires TrackedBoth(d) && i < |d.instances|
    ensures TrackedBoth(r) && |r.instances| == |d.instances|
    ensures Timers.With(r.timers, ShowWarning(i)) == {} && Timers.With(r.timers, AutoLogoutDue(i)) == {}
    ensures forall k :: 0 <= k < |r.countdowns| ==> r.countdowns[k].owner != i
    ensures !r.instances[i].elapsedRunning
    ensures forall k :: k in SessionKeys ==> k !in r.storage
    ensures forall k :: k in d.storage && k !in SessionKeys ==> k in r.storage && r.storage[k] == d.storage[k]
  {
    var it := d.instances[i];
    var q := Timers.Cancel(Timers.Cancel(d.timers, it.warningRef), it.logoutRef);
    var s := d.instances[i := it.(elapsedRunning := false)];
    CancelBoth(d, i);
    OthersKept(d, q, s, i);
    OthersLogoutArmed(d, q, s, i);
    assert Armed(d.timers, d.instances, i) && Armed(q, s, i);
    assert LogoutArmed(d.timers, d.instances, i) && LogoutArmed(q, s, i);
    DropOwnedTracked(d, i);
    d.(storage := ClearSession(d.storage), timers := q, instances := s, countdowns := DropOwned(d.countdowns, i))
  }
}
