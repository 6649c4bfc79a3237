/** Removing duplicate records by id, keeping the first of each, in the two
    formulations the pages use: a `reduce` that appends a record unless
    one with its id is already kept, and a `filter` that keeps the record
    whose index is the first index of its id. */
module Dedupe {

  import opened Js

  /** A record from the API: its `id`, which object that id is when it is
      an array or an object (every object of a parsed response is a distinct
      one), and its other properties. */
  datatype Record = Record(id: Value, idRef: nat, fields: map<string, Value>)

  /** `a.id === b.id`: primitives compare by value, arrays and objects by
      identity. */
  predicate SameId(a: Record, b: Record) {
    if Primitive(a.id) || Primitive(b.id) then a.id == b.id else a.idRef == b.idRef
  }

  /** `record[name]`, `undefined` when absent. */
  function Field(r: Record, name: string): Value {
    if name in r.fields then r.fields[name] else Undefined
  }

  /** Some record of `s` has the id of `x` (`s.find(item => item.id ===
      x.id)` finds something). */
  predicate HasId(s: seq<Record>, x: Record) {
    exists j :: 0 <= j < |s| && SameId(s[j], x)
  }

  /** No earlier record of `s` shares the id of `s[i]`. */
  predicate IsFirst(s: seq<Record>, i: nat)
    requires i < |s|
  {
    forall j :: 0 <= j < i ==> !SameId(s[j], s[i])
  }

  /** The reference: the first occurrences of `s`, in order. */
  function FirstOccurrences(s: seq<Record>): (r: seq<Record>)
    ensures |r| <= |s|
    ensures forall k :: 0 <= k < |r| ==> r[k] in s
    decreases |s|
  {
    if s == [] then []
    else
      var init := s[..|s| - 1];
      FirstOccurrences(init) + (if IsFirst(s, |s| - 1) then [s[|s| - 1]] else [])
  }

  /** The kept records carry each id of `s` once and no other id. */
  lemma {:induction false} FirstOccurrencesIds(s: seq<Record>)
    ensures forall x :: HasId(FirstOccurrences(s), x) <==> HasId(s, x)
    ensures forall a, b :: 0 <= a < b < |FirstOccurrences(s)| ==> !SameId(FirstOccurrences(s)[a], FirstOccurrences(s)[b])
    decreases |s|
  {
    if s != [] {
      var init := s[..|s| - 1];
      var last := s[|s| - 1];
      FirstOccurrencesIds(init);
      var r := FirstOccurrences(s);
      var ri := FirstOccurrences(init);
      forall x ensures HasId(s, x) <==> HasId(init, x) || SameId(last, x) {
        if HasId(s, x) {
          var j :| 0 <= j < |s| && SameId(s[j], x);
          if j < |s| - 1 { assert SameId(init[j], x); }
        }
        if HasId(init, x) {
          var j :| 0 <= j < |init| && SameId(init[j], x);
          assert SameId(s[j], x);
        }
      }
      if IsFirst(s, |s| - 1) {
        assert r == ri + [last];
        assert !HasId(init, last) by {
          forall j | 0 <= j < |init| ensures !SameId(init[j], last) { assert init[j] == s[j]; }
        }
        forall x ensures HasId(r, x) <==> HasId(ri, x) || SameId(last, x) {
          if HasId(r, x) {
            var j :| 0 <= j < |r| && SameId(r[j], x);
            if j < |ri| { assert SameId(ri[j], x); }
          }
          if HasId(ri, x) {
            var j :| 0 <= j < |ri| && SameId(ri[j], x);
            assert SameId(r[j], x);
          }
          if SameId(last, x) { assert SameId(r[|ri|], x); }
        }
        forall a, b | 0 <= a < b < |r| ensures !SameId(r[a], r[b]) {
          if b == |ri| {
            assert r[a] == ri[a];
            assert HasId(ri, ri[a]);
          }
        }
      } else {
        assert r == ri;
        var j :| 0 <= j < |s| - 1 && SameId(s[j], last);
        assert SameId(init[j], last);
      }
    }
  }

  /** Records whose ids are arrays or objects, each a distinct one, are
      never merged: `===` equates an object only with itself. */
  lemma {:induction false} DistinctObjectIdsAllKept(s: seq<Record>)
    requires forall i :: 0 <= i < |s| ==> !Primitive(s[i].id)
    requires forall i, j :: 0 <= i < j < |s| ==> s[i].idRef != s[j].idRef
    ensures FirstOccurrences(s) == s
    decreases |s|
  {
    if s != [] {
      var init := s[..|s| - 1];
      DistinctObjectIdsAllKept(init);
      assert IsFirst(s, |s| - 1);
      assert init + [s[|s| - 1]] == s;
    }
  }

  /** `x` is the first record of `s` with its id. */
  predicate IsFirstRecord(s: seq<Record>, x: Record) {
    exists i :: 0 <= i < |s| && IsFirst(s, i) && x == s[i]
  }

  /** Each kept record is the first record of `s` with its id. */
  lemma {:induction false} KeptIsFirst(s: seq<Record>, k: nat)
    requires k < |FirstOccurrences(s)|
    ensures IsFirstRecord(s, FirstOccurrences(s)[k])
    decreases |s|
  {
    var init := s[..|s| - 1];
    var r := FirstOccurrences(s);
    var ri := FirstOccurrences(init);
    assert r == ri + (if IsFirst(s, |s| - 1) then [s[|s| - 1]] else []);
    if k < |ri| {
      KeptIsFirst(init, k);
      assert r[k] == ri[k];
      var i :| 0 <= i < |init| && IsFirst(init, i) && ri[k] == init[i];
      assert s[i] == init[i];
      assert IsFirst(s, i) by {
        forall j | 0 <= j < i ensures !SameId(s[j], s[i]) { assert s[j] == init[j]; }
      }
    } else {
      assert IsFirst(s, |s| - 1) && r[k] == s[|s| - 1];
    }
  }

  lemma KeptAreFirst(s: seq<Record>)
    ensures forall k :: 0 <= k < |FirstOccurrences(s)| ==>
              IsFirstRecord(s, FirstOccurrences(s)[k])
  {
    forall k | 0 <= k < |FirstOccurrences(s)|
      ensures IsFirstRecord(s, FirstOccurrences(s)[k])
    {
      KeptIsFirst(s, k);
    }
  }

  /** `s.reduce((acc, cur) => acc.find(i => i.id === cur.id) ? acc :
      acc.concat([cur]), acc)` */
  function Reduce(acc: seq<Record>, s: seq<Record>): seq<Record>
    decreases |s|
  {
    if s == [] then acc
    else Reduce(if HasId(acc, s[0]) then acc else acc + [s[0]], s[1..])
  }

  /** The `reduce` formulation keeps exactly the first occurrences. */
  lemma ReduceKeepsFirst(s: seq<Record>)
    ensures Reduce([], s) == FirstOccurrences(s)
  {
    assert s[..0] == [];
    ReduceFrom(s, 0);
  }

  lemma {:induction false} ReduceFrom(s: seq<Record>, i: nat)
    requires i <= |s|
    ensures Reduce(FirstOccurrences(s[..i]), s[i..]) == FirstOccurrences(s)
    decreases |s| - i
  {
    if i == |s| {
      assert s[..i] == s;
    } else {
      var kept := FirstOccurrences(s[..i]);
      var next := if HasId(kept, s[i]) then kept else kept + [s[i]];
      ReduceStep(kept, s, i);
      FirstStep(s, i);
      assert next == FirstOccurrences(s[..i + 1]);
      ReduceFrom(s, i + 1);
    }
  }

  /** `reduce` takes one record off the front of the rest. */
  lemma ReduceStep(acc: seq<Record>, s: seq<Record>, i: nat)
    requires i < |s|
    ensures Reduce(acc, s[i..]) == Reduce(if HasId(acc, s[i]) then acc else acc + [s[i]], s[i + 1..])
  {
    var rest := s[i..];
    assert rest != [] && rest[0] == s[i] && rest[1..] == s[i + 1..];
  }

  /** One more record: it is kept exactly when the ones kept so far have no
      record with its id. */
  lemma FirstStep(s: seq<Record>, i: nat)
    requires i < |s|
    ensures FirstOccurrences(s[..i + 1])
         == (if HasId(FirstOccurrences(s[..i]), s[i]) then FirstOccurrences(s[..i]) else FirstOccurrences(s[..i]) + [s[i]])
  {
    var p := s[..i];
    var q := s[..i + 1];
    assert q[..|q| - 1] == p && q[i] == s[i];
    FirstOccurrencesIds(p);
    assert IsFirst(q, i) <==> !HasId(p, s[i]) by {
      if !IsFirst(q, i) {
        var j :| 0 <= j < i && SameId(q[j], q[i]);
        assert SameId(p[j], s[i]);
      }
      if HasId(p, s[i]) {
        var j :| 0 <= j < |p| && SameId(p[j], s[i]);
        assert SameId(q[j], q[i]);
      }
    }
  }

  /** `s.findIndex(t => t.id === x.id)`: the first index with the id of
      `x`, or -1. */
  function FindIndex(s: seq<Record>, x: Record): (k: int)
    ensures -1 <= k < |s|
    ensures k >= 0 ==> SameId(s[k], x) && forall j :: 0 <= j < k ==> !SameId(s[j], x)
    ensures k == -1 <==> !HasId(s, x)
  {
    if s == [] then -1
    else if SameId(s[0], x) then 0
    else
      var k := FindIndex(s[1..], x);
      if k == -1 then -1 else k + 1
  }

  /** `s.filter((x, i, self) => self.findIndex(t => t.id === x.id) === i)`
      over the first `n` records. */
  function FilterFirst(s: seq<Record>, n: nat): seq<Record>
    requires n <= |s|
  {
    if n == 0 then []
    else FilterFirst(s, n - 1) + (if FindIndex(s, s[n - 1]) == n - 1 then [s[n - 1]] else [])
  }

  /** The `filter` formulation keeps exactly the first occurrences too, so
      the two agree on every input. */
  lemma FilterKeepsFirst(s: seq<Record>)
    ensures FilterFirst(s, |s|) == FirstOccurrences(s)
    ensures FilterFirst(s, |s|) == Reduce([], s)
  {
    FilterPrefix(s, |s|);
    assert s[..|s|] == s;
    ReduceKeepsFirst(s);
  }

  lemma {:induction false} FilterPrefix(s: seq<Record>, n: nat)
    requires n <= |s|
    ensures FilterFirst(s, n) == FirstOccurrences(s[..n])
  {
    if n > 0 {
      FilterPrefix(s, n - 1);
      var q := s[..n];
      assert q[..n - 1] == s[..n - 1];
      assert FindIndex(s, s[n - 1]) == n - 1 <==> IsFirst(q, n - 1) by {
        var k := FindIndex(s, s[n - 1]);
        if IsFirst(q, n - 1) {
          assert forall j :: 0 <= j < n - 1 ==> !SameId(s[j], s[n - 1]) by {
            forall j | 0 <= j < n - 1 ensures !SameId(s[j], s[n - 1]) { assert q[j] == s[j]; }
          }
        } else {
          var j :| 0 <= j < n - 1 && SameId(q[j], q[n - 1]);
          assert SameId(s[j], s[n - 1]);
        }
      }
    }
  }
}
