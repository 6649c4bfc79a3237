/** The events carousel: the fetched events without duplicates, only those
    with an image, and arrows that step through them cyclically. */
module Events {

  import opened Js
  import opened Dedupe

  /** `events.filter(e => e.imageUrl)` */
  function WithImages(s: seq<Record>): (r: seq<Record>)
    ensures |r| <= |s|
    ensures forall k :: 0 <= k < |r| ==> Truthy(Field(r[k], "imageUrl")) && r[k] in s
    ensures forall x :: x in s && Truthy(Field(x, "imageUrl")) ==> x in r
  {
    if s == [] then []
    else (if Truthy(Field(s[0], "imageUrl")) then [s[0]] else []) + WithImages(s[1..])
  }

  /** What the carousel shows for a fetched list: duplicates removed first,
      then the events without an image. */
  function Shown(raw: seq<Record>): seq<Record> {
    WithImages(Reduce([], raw))
  }

  /** An id is shown exactly when its FIRST event has an image: a later
      duplicate with an image does not bring it back, and the ids shown
      are distinct. */
  lemma ShownIff(raw: seq<Record>, x: Record)
    ensures HasId(Shown(raw), x) <==> HasId(raw, x) && Truthy(Field(raw[FindIndex(raw, x)], "imageUrl"))
    ensures forall a, b :: 0 <= a < b < |Shown(raw)| ==> !SameId(Shown(raw)[a], Shown(raw)[b])
  {
    ReduceKeepsFirst(raw);
    FirstOccurrencesIds(raw);
    ShownOnlyFirst(raw, x);
    FirstWithImageShown(raw, x);
    DistinctFilter(FirstOccurrences(raw));
  }

  lemma ShownOnlyFirst(raw: seq<Record>, x: Record)
    ensures HasId(Shown(raw), x) ==> HasId(raw, x) && Truthy(Field(raw[FindIndex(raw, x)], "imageUrl"))
  {
    ReduceKeepsFirst(raw);
    KeptAreFirst(raw);
    var kept := FirstOccurrences(raw);
    var shown := Shown(raw);
    if HasId(shown, x) {
      var k :| 0 <= k < |shown| && SameId(shown[k], x);
      var m :| 0 <= m < |kept| && kept[m] == shown[k];
      assert IsFirstRecord(raw, kept[m]);
      var i :| 0 <= i < |raw| && IsFirst(raw, i) && kept[m] == raw[i];
      assert HasId(raw, x);
      assert FindIndex(raw, x) == i;
    }
  }

  lemma FirstWithImageShown(raw: seq<Record>, x: Record)
    ensures HasId(raw, x) && Truthy(Field(raw[FindIndex(raw, x)], "imageUrl")) ==> HasId(Shown(raw), x)
  {
    ReduceKeepsFirst(raw);
    FirstOccurrencesIds(raw);
    KeptAreFirst(raw);
    var kept := FirstOccurrences(raw);
    var shown := Shown(raw);
    if HasId(raw, x) && Truthy(Field(raw[FindIndex(raw, x)], "imageUrl")) {
      assert HasId(kept, x);
      var m :| 0 <= m < |kept| && SameId(kept[m], x);
      assert IsFirstRecord(raw, kept[m]);
      var i :| 0 <= i < |raw| && IsFirst(raw, i) && kept[m] == raw[i];
      assert FindIndex(raw, x) == i;
      assert kept[m] in kept;
      assert SameId(shown[IndexOf(shown, kept[m])], x);
    }
  }

  /** The position of an element known to be in the sequence. */
  function IndexOf(s: seq<Record>, x: Record): (i: nat)
    requires x in s
    ensures i < |s| && s[i] == x
  {
    if s[0] == x then 0 else 1 + IndexOf(s[1..], x)
  }

  /** Filtering keeps distinct ids distinct. */
  lemma {:induction false} DistinctFilter(s: seq<Record>)
    requires forall a, b :: 0 <= a < b < |s| ==> !SameId(s[a], s[b])
    ensures forall a, b :: 0 <= a < b < |WithImages(s)| ==> !SameId(WithImages(s)[a], WithImages(s)[b])
  {
    if s != [] {
      DistinctFilter(s[1..]);
      var rest := WithImages(s[1..]);
      forall k | 0 <= k < |rest| ensures !SameId(s[0], rest[k]) {
        var j := IndexOf(s[1..], rest[k]);
        assert s[j + 1] == rest[k];
      }
    }
  }

  /** `nextSlide`: `(prev + 1) % events.length`, NaN (`None`) when there
      are no events. */
  function Next(i: nat, n: nat): (r: Option<nat>)
    ensures r.None? <==> n == 0
    ensures r.Some? ==> r.value < n
    ensures r.Some? && i + 1 < n ==> r.value == i + 1
    ensures r.Some? && i + 1 == n ==> r.value == 0
  {
    if n == 0 then None else Some((i + 1) % n)
  }

  /** `prevSlide`: `(prev - 1 + events.length) % events.length`. */
  function Prev(i: nat, n: nat): (r: Option<nat>)
    ensures r.None? <==> n == 0
    ensures r.Some? ==> r.value < n
    ensures r.Some? && 0 < i < n ==> r.value == i - 1
    ensures r.Some? && i == 0 ==> r.value == n - 1
  {
    if n == 0 then None else Some((i - 1 + n) % n)
  }

  /** Stepping forward then back, or back then forward, returns to the
      slide shown. */
  lemma PrevUndoesNext(i: nat, n: nat)
    requires i < n
    ensures Prev(Next(i, n).value, n) == Some(i)
    ensures Next(Prev(i, n).value, n) == Some(i)
  {
  }
}
