/** The registry of periodic refreshes: at most one interval per
    component, with its callback kept alongside. The browser's table of
    live intervals is part of the state, so a leaked interval shows. */
module AutoRefresh {

  /** `intervalMs` when none is given: three minutes. */
  const DefaultInterval: nat := 180000

  /** `intervals` and `callbacks` keyed by component id, the live interval
      handles, and the handle `setInterval` gives out next (handles start
      at 1, so every handle is truthy). */
  datatype Manager<C> = Manager(
    intervals: map<string, nat>,
    callbacks: map<string, C>,
    running: set<nat>,
    next: nat)

  function Empty<C>(): Manager<C> {
    Manager(map[], map[], {}, 1)
  }

  /** Both maps have the same keys; the live intervals are exactly the
      registered handles, one per component, all below `next`. */
  ghost predicate Valid<C>(m: Manager<C>) {
    && m.intervals.Keys == m.callbacks.Keys
    && m.running == m.intervals.Values
    && m.next >= 1
    && (forall id :: id in m.intervals ==> 1 <= m.intervals[id] < m.next)
    && (forall a, b :: a in m.intervals && b in m.intervals && a != b ==> m.intervals[a] != m.intervals[b])
  }

  /** `stopAutoRefresh`: clears and forgets the component's interval; an
      unknown id changes nothing. */
  function Stop<C>(m: Manager<C>, id: string): (r: Manager<C>)
    ensures id !in m.intervals || m.intervals[id] == 0 ==> r == m
    ensures id in m.intervals && m.intervals[id] != 0 ==>
              && r.intervals == m.intervals - {id} && r.callbacks == m.callbacks - {id}
              && r.running == m.running - {m.intervals[id]} && r.next == m.next
  {
    if id in m.intervals && m.intervals[id] != 0 then
      Manager(m.intervals - {id}, m.callbacks - {id}, m.running - {m.intervals[id]}, m.next)
    else m
  }

  /** `startAutoRefresh`: the new interval's handle and the registry. */
  function Start<C>(m: Manager<C>, id: string, callback: C): (r: (Manager<C>, nat))
    ensures r.1 == m.next && r.0.next == m.next + 1
    ensures r.0.intervals == m.intervals[id := m.next] && r.0.callbacks == Stop(m, id).callbacks[id := callback]
    ensures r.0.running == Stop(m, id).running + {m.next}
  {
    var s := Stop(m, id);
    (Manager(s.intervals[id := m.next], s.callbacks[id := callback], s.running + {m.next}, m.next + 1), m.next)
  }

  /** `stopAll`: clears every interval and both maps. */
  function StopAll<C>(m: Manager<C>): (r: Manager<C>)
    ensures r.intervals == map[] && r.callbacks == map[]
    ensures r.running == m.running - m.intervals.Values
    ensures r.next == m.next
  {
    Manager(map[], map[], m.running - m.intervals.Values, m.next)
  }

  /** `getActiveCount` */
  function ActiveCount<C>(m: Manager<C>): (n: nat)
    ensures n == 0 <==> m.intervals == map[]
  {
    |m.intervals.Keys|
  }

  lemma EmptyValid<C>()
    ensures Valid(Empty<C>()) && ActiveCount(Empty<C>()) == 0
  {
  }

  /** Registering a fresh handle under a component that has none keeps
      the registry valid. */
  lemma AddKeepsValid<C>(s: Manager<C>, id: string, callback: C)
    requires Valid(s) && id !in s.intervals
    ensures Valid(Manager(s.intervals[id := s.next], s.callbacks[id := callback], s.running + {s.next}, s.next + 1))
  {
    var r := Manager(s.intervals[id := s.next], s.callbacks[id := callback], s.running + {s.next}, s.next + 1);
    forall h | h in r.intervals.Values ensures h in r.running {
      var j :| j in r.intervals && r.intervals[j] == h;
      if j != id { assert j in s.intervals && s.intervals[j] == h; }
    }
    forall h | h in r.running ensures h in r.intervals.Values {
      if h != s.next {
        var j :| j in s.intervals && s.intervals[j] == h;
        assert r.intervals[j] == h;
      } else {
        assert r.intervals[id] == h;
      }
    }
  }

  /** Starting keeps the registry valid: the component's earlier interval
      is cleared, so no interval leaks and the count of live intervals is
      the number of components. */
  lemma StartKeepsValid<C>(m: Manager<C>, id: string, callback: C)
    requires Valid(m)
    ensures Valid(Start(m, id, callback).0)
    ensures |Start(m, id, callback).0.running| == ActiveCount(Start(m, id, callback).0)
  {
    StopKeepsValid(m, id);
    var s := Stop(m, id);
    AddKeepsValid(s, id, callback);
    ValuesOfInjective(Start(m, id, callback).0.intervals);
  }

  /** A map whose values are pairwise distinct has as many values as keys. */
  lemma {:induction false} ValuesOfInjective(m: map<string, nat>)
    requires forall a, b :: a in m && b in m && a != b ==> m[a] != m[b]
    ensures |m.Values| == |m.Keys|
    decreases |m.Keys|
  {
    if m != map[] {
      var k :| k in m;
      var rest := m - {k};
      ValuesOfInjective(rest);
      assert m.Keys == rest.Keys + {k};
      forall v | v in m.Values ensures v in rest.Values + {m[k]} {
        var j :| j in m && m[j] == v;
        if j != k { assert j in rest && rest[j] == v; }
      }
      forall v | v in rest.Values + {m[k]} ensures v in m.Values {
        if v != m[k] {
          var j :| j in rest && rest[j] == v;
          assert m[j] == v;
        }
      }
      assert m.Values == rest.Values + {m[k]};
      assert m[k] !in rest.Values;
    }
  }

  lemma StopKeepsValid<C>(m: Manager<C>, id: string)
    requires Valid(m)
    ensures Valid(Stop(m, id))
  {
    var s := Stop(m, id);
    if id in m.intervals {
      forall h | h in s.running ensures h in s.intervals.Values {
        var j :| j in m.intervals && m.intervals[j] == h;
        assert s.intervals[j] == h;
      }
    }
  }

  /** After `stopAll` nothing of the registry is live and the count is
      zero. */
  lemma StopAllClears<C>(m: Manager<C>)
    requires Valid(m)
    ensures Valid(StopAll(m)) && ActiveCount(StopAll(m)) == 0 && StopAll(m).running == {}
  {
  }

  /** The cleanup returned by `start` undoes exactly that start: on a
      component that had no interval, everything returns as it was but
      the handle counter. */
  lemma CleanupUndoesStart<C>(m: Manager<C>, id: string, callback: C)
    requires Valid(m) && id !in m.intervals
    ensures Stop(Start(m, id, callback).0, id) == m.(next := m.next + 1)
  {
    var r := Start(m, id, callback).0;
    assert id !in m.callbacks;
    assert r.intervals - {id} == m.intervals;
    assert r.callbacks - {id} == m.callbacks;
    assert m.next !in m.running;
    assert r.running - {m.next} == m.running;
  }
}
