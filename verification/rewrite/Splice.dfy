// Replacing byte ranges of a source: back to front in the code, all at once in meaning.
module Splice {
  import opened Wrappers
  import opened Sorting

  datatype Replacement = Replacement(start: int, end: int, value: string)

  function Start(r: Replacement): int {
    r.start
  }

  predicate StartLess(x: Replacement, y: Replacement) {
    x.start < y.start
  }

  // Valid ranges, none reaching into another.
  ghost predicate Disjoint(source: string, changes: seq<Replacement>) {
    && (forall k | 0 <= k < |changes| :: 0 <= changes[k].start <= changes[k].end <= |source|)
    && (forall j, k | 0 <= j < |changes| && 0 <= k < |changes| && changes[j].start < changes[k].start ::
          changes[j].end <= changes[k].start)
  }

  ghost predicate Ascending(changes: seq<Replacement>) {
    forall j, k | 0 <= j < k < |changes| :: changes[j].start < changes[k].start
  }

  // The simultaneous splice: kept stretches of the source from at on, with each value in its place.
  function SpliceFrom(source: string, changes: seq<Replacement>, at: int): string
    requires 0 <= at <= |source|
    decreases |changes|
  {
    if changes == [] then source[at..]
    else if at <= changes[0].start <= changes[0].end <= |source| then
      source[at..changes[0].start] + changes[0].value + SpliceFrom(source, changes[1..], changes[0].end)
    else source[at..]
  }

  function Spliced(source: string, changes: seq<Replacement>): string {
    SpliceFrom(source, Sort(changes, StartLess), 0)
  }

  // One replacement after the other, each checked against the start of the previous one.
  function BackToFront(source: string, changes: seq<Replacement>, previous: int): (r: Option<string>)
    requires previous <= |source|
    decreases |changes|
  {
    if changes == [] then Some(source)
    else
      var c := changes[0];
      if c.start < 0 || c.end < c.start || c.end > previous then None
      else BackToFront(source[..c.start] + c.value + source[c.end..], changes[1..], c.start)
  }

  lemma StartOrder()
    ensures IsOrder(StartLess)
  {
  }

  // ---- Why the two agree ----

  function Reversed<T>(s: seq<T>): (r: seq<T>)
    ensures |r| == |s|
    ensures forall k | 0 <= k < |s| :: r[k] == s[|s| - 1 - k]
  {
    if s == [] then [] else Reversed(s[1..]) + [s[0]]
  }

  predicate InPlace(source: string, changes: seq<Replacement>, at: int) {
    if changes == [] then at <= |source|
    else at <= changes[0].start <= changes[0].end && InPlace(source, changes[1..], changes[0].end)
  }

  lemma {:induction false} InPlaceBound(source: string, changes: seq<Replacement>, at: int)
    requires InPlace(source, changes, at)
    ensures at <= |source|
    ensures changes != [] ==> changes[0].end <= |source|
    decreases |changes|
  {
    if changes != [] { InPlaceBound(source, changes[1..], changes[0].end); }
  }

  lemma {:induction false} InPlaceIsDisjoint(source: string, changes: seq<Replacement>, at: int)
    requires InPlace(source, changes, at) && 0 <= at
    ensures Disjoint(source, changes)
    ensures forall k | 0 <= k < |changes| :: at <= changes[k].start
    decreases |changes|
  {
    if changes != [] {
      var first, rest := changes[0], changes[1..];
      InPlaceBound(source, changes, at);
      InPlaceIsDisjoint(source, rest, first.end);
      assert forall k | 0 < k < |changes| :: changes[k] == rest[k - 1];
      hide InPlace;
    }
  }

  lemma {:induction false} DisjointIsInPlace(source: string, changes: seq<Replacement>, at: int)
    requires Ascending(changes) && Disjoint(source, changes) && at <= |source|
    requires changes != [] ==> at <= changes[0].start
    ensures InPlace(source, changes, at)
    decreases |changes|
  {
    if changes != [] {
      var rest := changes[1..];
      assert forall k | 0 <= k < |rest| :: rest[k] == changes[k + 1];
      if rest != [] { assert changes[0].start < changes[1].start; }
      DisjointIsInPlace(source, rest, changes[0].end);
    }
  }

  // For ascending starts, fitting one after the other is pairwise disjointness.
  lemma InPlaceIffDisjoint(source: string, changes: seq<Replacement>, at: int)
    requires Ascending(changes) && 0 <= at <= |source|
    ensures InPlace(source, changes, at) <==> Disjoint(source, changes) && (changes != [] ==> at <= changes[0].start)
  {
    if InPlace(source, changes, at) { InPlaceIsDisjoint(source, changes, at); }
    if Disjoint(source, changes) && (changes != [] ==> at <= changes[0].start) { DisjointIsInPlace(source, changes, at); }
  }

  // Applying the ascending list from its end leaves the prefix untouched and splices the rest.
  lemma {:induction false} BackToFrontSplices(source: string, changes: seq<Replacement>, at: int)
    requires 0 <= at <= |source| && InPlace(source, changes, at)
    ensures BackToFront(source, Reversed(changes), |source|) == Some(source[..at] + SpliceFrom(source, changes, at))
    decreases |changes|
  {
    InPlaceBound(source, changes, at);
    if changes == [] {
      assert source[..at] + source[at..] == source;
    } else {
      var first, rest := changes[0], changes[1..];
      BackToFrontSplices(source, rest, first.end);
      var after := source[..first.end] + SpliceFrom(source, rest, first.end);
      BackToFrontLast(source, Reversed(rest), first, |source|, after);
      FirstFits(source, rest, first);
      assert after[..first.start] == source[..first.start] && after[first.end..] == SpliceFrom(source, rest, first.end);
      assert source[..first.start] == source[..at] + source[at..first.start];
      assert Reversed(changes) == Reversed(rest) + [first];
      assert [first][1..] == [];
      var tail := SpliceFrom(source, rest, first.end);
      assert source[..at] + (source[at..first.start] + first.value + tail) == source[..first.start] + first.value + tail;
    }
  }

  // Where the processing of a list stops.
  function LastStart(changes: seq<Replacement>, previous: int): int {
    if changes == [] then previous else changes[|changes| - 1].start
  }

  lemma {:induction false} BackToFrontLast(source: string, changes: seq<Replacement>, last: Replacement, previous: int, after: string)
    requires previous <= |source| && BackToFront(source, changes, previous) == Some(after)
    ensures LastStart(changes, previous) <= |after|
    ensures BackToFront(source, changes + [last], previous) ==
      BackToFront(after, [last], LastStart(changes, previous))
    decreases |changes|
  {
    if changes == [] {
      assert [] + [last] == [last];
    } else {
      var c := changes[0];
      assert (changes + [last])[0] == c && (changes + [last])[1..] == changes[1..] + [last];
      BackToFrontLast(source[..c.start] + c.value + source[c.end..], changes[1..], last, c.start, after);
    }
  }

  lemma FirstFits(source: string, rest: seq<Replacement>, first: Replacement)
    requires first.start <= first.end && InPlace(source, rest, first.end)
    ensures first.end <= LastStart(Reversed(rest), |source|)
  {
    InPlaceBound(source, rest, first.end);
  }

  // A list that does not fit is refused.
  lemma {:induction false} BackToFrontRefuses(source: string, changes: seq<Replacement>, at: int)
    requires changes != [] && 0 <= at <= changes[0].start && !InPlace(source, changes, at)
    ensures BackToFront(source, Reversed(changes), |source|) == None
    decreases |changes|
  {
    var first, rest := changes[0], changes[1..];
    assert Reversed(changes) == Reversed(rest) + [first];
    if first.end < first.start || rest == [] || rest[0].start < first.end {
      RefusesWithLast(source, Reversed(rest), first, |source|);
    } else {
      BackToFrontRefuses(source, rest, first.end);
      RefusalStays(source, Reversed(rest), first, |source|);
    }
  }

  lemma {:induction false} RefusalStays(source: string, changes: seq<Replacement>, last: Replacement, previous: int)
    requires previous <= |source| && BackToFront(source, changes, previous) == None
    ensures BackToFront(source, changes + [last], previous) == None
    decreases |changes|
  {
    var c := changes[0];
    assert (changes + [last])[0] == c && (changes + [last])[1..] == changes[1..] + [last];
    if !(c.start < 0 || c.end < c.start || c.end > previous) {
      RefusalStays(source[..c.start] + c.value + source[c.end..], changes[1..], last, c.start);
    }
  }

  lemma {:induction false} RefusesWithLast(source: string, changes: seq<Replacement>, last: Replacement, previous: int)
    requires previous <= |source| && (last.end < last.start || last.end > LastStart(changes, previous))
    ensures BackToFront(source, changes + [last], previous) == None
    decreases |changes|
  {
    if changes == [] {
      assert [] + [last] == [last];
    } else {
      var c := changes[0];
      assert (changes + [last])[0] == c && (changes + [last])[1..] == changes[1..] + [last];
      if !(c.start < 0 || c.end < c.start || c.end > previous) {
        RefusesWithLast(source[..c.start] + c.value + source[c.end..], changes[1..], last, c.start);
      }
    }
  }

  // ---- The method ----

  ghost predicate Descending(changes: seq<Replacement>) {
    forall j, k | 0 <= j < k < |changes| :: changes[j].start >= changes[k].start
  }

  ghost predicate BoundedFrom(changes: seq<Replacement>, i: nat, top: int) {
    forall k | i <= k < |changes| :: changes[k].start <= top
  }

  // One round of the exchange sort: position i ends up with a largest start of the rest.
  method BringUp(changes: array<Replacement>, i: nat)
    requires i < changes.Length
    modifies changes
    ensures multiset(changes[..]) == old(multiset(changes[..]))
    ensures forall k | 0 <= k < i :: changes[k] == old(changes[k])
    ensures BoundedFrom(changes[..], i, changes[i].start)
    ensures forall top | old(BoundedFrom(changes[..], i, top)) :: BoundedFrom(changes[..], i, top)
    ensures old(BoundedFrom(changes[..], i, changes[i].start)) ==> changes[..] == old(changes[..])
  {
    ghost var was := changes[..];
    hide BoundedFrom;
    for j := i + 1 to changes.Length
      invariant multiset(changes[..]) == multiset(was)
      invariant forall k | 0 <= k < i :: changes[k] == was[k]
      invariant forall k | i < k < j :: changes[i].start >= changes[k].start
      invariant forall top | BoundedFrom(was, i, top) :: BoundedFrom(changes[..], i, top)
      invariant BoundedFrom(was, i, was[i].start) ==> changes[..] == was
    {
      BoundHolds(was, i, was[i].start, j);
      if changes[i].start < changes[j].start {
        Exchange(changes, i, j);
      }
    }
    TopIsBound(changes[..], i);
  }

  lemma BoundHolds(changes: seq<Replacement>, i: nat, top: int, k: nat)
    requires i <= k < |changes|
    ensures BoundedFrom(changes, i, top) ==> changes[k].start <= top
  {
  }

  lemma TopIsBound(changes: seq<Replacement>, i: nat)
    requires i < |changes| && forall k | i < k < |changes| :: changes[i].start >= changes[k].start
    ensures BoundedFrom(changes, i, changes[i].start)
  {
  }

  method Exchange(changes: array<Replacement>, i: nat, j: nat)
    requires i < j < changes.Length
    modifies changes
    ensures multiset(changes[..]) == old(multiset(changes[..]))
    ensures changes[..] == old(changes[..])[i := old(changes[j])][j := old(changes[i])]
    ensures forall top | BoundedFrom(old(changes[..]), i, top) :: BoundedFrom(changes[..], i, top)
  {
    changes[i], changes[j] := changes[j], changes[i];
  }

  // Sorts in place by descending start, exchanging any pair found out of order: what is in order stays.
  method SortDescending(changes: array<Replacement>)
    modifies changes
    ensures Descending(changes[..])
    ensures multiset(changes[..]) == old(multiset(changes[..]))
    ensures old(Descending(changes[..])) ==> changes[..] == old(changes[..])
  {
    for i := 0 to changes.Length
      invariant multiset(changes[..]) == old(multiset(changes[..]))
      invariant forall j, k | 0 <= j < i && j < k < changes.Length :: changes[j].start >= changes[k].start
      invariant old(Descending(changes[..])) ==> changes[..] == old(changes[..])
    {
      forall j | 0 <= j < i ensures BoundedFrom(changes[..], i, changes[j].start) {
      }
      BringUp(changes, i);
      forall j, k | 0 <= j < i + 1 && j < k < changes.Length ensures changes[j].start >= changes[k].start {
        if j < i && k >= i { assert BoundedFrom(changes[..], i, changes[j].start); }
      }
    }
  }

  // The loop over the sorted list.
  method SpliceBackward(source: string, changes: array<Replacement>) returns (r: Option<string>)
    ensures r == BackToFront(source, changes[..], |source|)
  {
    var text := source;
    var previous: int := |source|;
    assert changes[0..] == changes[..];
    for k := 0 to changes.Length
      invariant previous <= |text|
      invariant BackToFront(text, changes[k..], previous) == BackToFront(source, changes[..], |source|)
    {
      var c := changes[k];
      assert changes[k..][0] == c && changes[k..][1..] == changes[k + 1..];
      if c.start < 0 || c.end < c.start || c.end > previous {
        return None;
      }
      text := text[..c.start] + c.value + text[c.end..];
      previous := c.start;
    }
    r := Some(text);
  }

  lemma {:induction false} DescendingIsReversedSort(given: seq<Replacement>, sorted: seq<Replacement>)
    requires DistinctKeys(given, Start) && Descending(sorted) && multiset(sorted) == multiset(given)
    ensures sorted == Reversed(Sort(given, StartLess)) && Ascending(Sort(given, StartLess))
  {
    var up, ref := Reversed(sorted), Sort(given, StartLess);
    StartOrder();
    SortSorted(given, StartLess);
    ReversedBag(sorted);
    DistinctUnderPermutation(given, ref, Start);
    DistinctUnderPermutation(given, sorted, Start);
    assert Sorted(up, StartLess);
    assert Separated(ref, StartLess) by {
      forall i, j | 0 <= i < |ref| && 0 <= j < |ref| && i != j ensures StartLess(ref[i], ref[j]) || StartLess(ref[j], ref[i]) {
        assert Start(ref[i]) != Start(ref[j]);
      }
    }
    SortedIsUnique(ref, up, StartLess);
    forall j, k | 0 <= j < k < |ref| ensures ref[j].start < ref[k].start {
      assert !StartLess(ref[k], ref[j]) && Start(ref[j]) != Start(ref[k]);
    }
    assert Reversed(up) == sorted;
  }

  lemma {:induction false} ReversedBag<T>(s: seq<T>)
    ensures multiset(Reversed(s)) == multiset(s)
  {
    if s != [] {
      ReversedBag(s[1..]);
      assert s == [s[0]] + s[1..];
    }
  }

  lemma DisjointBag(source: string, s: seq<Replacement>, t: seq<Replacement>)
    requires multiset(s) == multiset(t) && Disjoint(source, s)
    ensures Disjoint(source, t)
  {
    SameMembers(s, t);
    forall k | 0 <= k < |t| ensures 0 <= t[k].start <= t[k].end <= |source| {
      assert t[k] in s;
    }
    forall j, k | 0 <= j < |t| && 0 <= k < |t| && t[j].start < t[k].start ensures t[j].end <= t[k].start {
      assert t[j] in s && t[k] in s;
    }
  }

  // With distinct starts the outcome is the simultaneous splice, and there is one exactly when the
  // ranges are valid and disjoint.
  lemma SortedSplice(source: string, given: seq<Replacement>, sorted: seq<Replacement>)
    requires DistinctKeys(given, Start) && Descending(sorted) && multiset(sorted) == multiset(given)
    ensures BackToFront(source, sorted, |source|).Some? <==> Disjoint(source, given)
    ensures Disjoint(source, given) ==> BackToFront(source, sorted, |source|) == Some(Spliced(source, given))
  {
    var up := Sort(given, StartLess);
    DescendingIsReversedSort(given, sorted);
    if up != [] && up[0].start < 0 {
      assert !Disjoint(source, up);
      NegativeRefused(source, sorted, |source|);
    } else {
      InPlaceIffDisjoint(source, up, 0);
      if InPlace(source, up, 0) {
        BackToFrontSplices(source, up, 0);
        assert source[..0] + SpliceFrom(source, up, 0) == SpliceFrom(source, up, 0);
      } else if up != [] {
        BackToFrontRefuses(source, up, 0);
      }
    }
    if Disjoint(source, given) { DisjointBag(source, given, up); }
    if Disjoint(source, up) { DisjointBag(source, up, given); }
  }

  // The order of the list leaves no trace in the splice.
  lemma SpliceIgnoresOrder(source: string, given: seq<Replacement>, other: seq<Replacement>)
    requires DistinctKeys(given, Start) && multiset(other) == multiset(given)
    ensures Disjoint(source, given) <==> Disjoint(source, other)
    ensures Spliced(source, given) == Spliced(source, other)
  {
    DistinctUnderPermutation(given, other, Start);
    SortedDescends(given);
    var sorted := Reversed(Sort(given, StartLess));
    DescendingIsReversedSort(given, sorted);
    DescendingIsReversedSort(other, sorted);
    ReversedTwice(Sort(given, StartLess), Sort(other, StartLess));
    hide Disjoint, Descending, Ascending, Reversed, Sort, SpliceFrom;
    if Disjoint(source, given) { DisjointBag(source, given, other); }
    if Disjoint(source, other) { DisjointBag(source, other, given); }
  }

  lemma ReversedTwice<T>(s: seq<T>, t: seq<T>)
    requires Reversed(s) == Reversed(t)
    ensures s == t
  {
    forall k | 0 <= k < |s| ensures s[k] == t[k] {
      assert Reversed(s)[|s| - 1 - k] == Reversed(t)[|s| - 1 - k];
    }
  }

  lemma SortedDescends(given: seq<Replacement>)
    ensures Descending(Reversed(Sort(given, StartLess))) && multiset(Reversed(Sort(given, StartLess))) == multiset(given)
  {
    StartOrder();
    SortSorted(given, StartLess);
    ReversedBag(Sort(given, StartLess));
  }

  // Disjoint ranges with distinct starts, once sorted, lie one after the other.
  lemma SortedInPlace(source: string, given: seq<Replacement>)
    requires DistinctKeys(given, Start) && Disjoint(source, given)
    ensures InPlace(source, Sort(given, StartLess), 0)
  {
    var up := Sort(given, StartLess);
    SortedDescends(given);
    DescendingIsReversedSort(given, Reversed(up));
    DisjointBag(source, given, up);
    InPlaceIffDisjoint(source, up, 0);
  }

  lemma {:induction false} NegativeRefused(source: string, changes: seq<Replacement>, previous: int)
    requires previous <= |source| && changes != [] && changes[|changes| - 1].start < 0
    ensures BackToFront(source, changes, previous) == None
    decreases |changes|
  {
    var c := changes[0];
    if !(c.start < 0 || c.end < c.start || c.end > previous) {
      NegativeRefused(source[..c.start] + c.value + source[c.end..], changes[1..], c.start);
    }
  }

  // Replaces every range of the source, or refuses. With distinct starts what comes out does not
  // depend on the order the list came in; equal starts keep the order they are in.
  method Replace(source: string, changes: array<Replacement>) returns (r: Option<string>)
    modifies changes
    ensures multiset(changes[..]) == old(multiset(changes[..])) && Descending(changes[..])
    ensures old(Descending(changes[..])) ==> changes[..] == old(changes[..])
    ensures r == BackToFront(source, changes[..], |source|)
    ensures DistinctKeys(old(changes[..]), Start) ==>
      (r.Some? <==> Disjoint(source, old(changes[..]))) && (r.Some? ==> r.value == Spliced(source, old(changes[..])))
  {
    if changes.Length == 0 {
      assert changes[..] == [];
      r := Some(source);
      SortedSplice(source, [], []);
      return;
    }
    SortDescending(changes);
    r := SpliceBackward(source, changes);
    if DistinctKeys(old(changes[..]), Start) {
      SortedSplice(source, old(changes[..]), changes[..]);
    }
  }

  // ---- What a splice means ----

  function Removed(changes: seq<Replacement>): int {
    if changes == [] then 0 else changes[0].end - changes[0].start + Removed(changes[1..])
  }

  function Added(changes: seq<Replacement>): int {
    if changes == [] then 0 else |changes[0].value| + Added(changes[1..])
  }

  lemma {:induction false} SpliceLength(source: string, changes: seq<Replacement>, at: int)
    requires 0 <= at <= |source| && InPlace(source, changes, at)
    ensures |SpliceFrom(source, changes, at)| == |source| - at - Removed(changes) + Added(changes)
    decreases |changes|
  {
    InPlaceBound(source, changes, at);
    if changes != [] {
      SpliceLength(source, changes[1..], changes[0].end);
    }
  }

  // Every value stands where its range was, shifted by what the changes before it added and removed.
  lemma {:induction false} ValueInPlace(source: string, changes: seq<Replacement>, at: int, k: nat)
    requires 0 <= at <= |source| && InPlace(source, changes, at) && k < |changes|
    ensures var out, value := SpliceFrom(source, changes, at), changes[k].value;
      var pos := changes[k].start - at - Removed(changes[..k]) + Added(changes[..k]);
      0 <= pos && pos + |value| <= |out| && out[pos..pos + |value|] == value
    decreases k
  {
    InPlaceBound(source, changes, at);
    var c, rest := changes[0], changes[1..];
    var head, tail := source[at..c.start] + c.value, SpliceFrom(source, rest, c.end);
    assert SpliceFrom(source, changes, at) == head + tail;
    if k > 0 {
      InPlaceBound(source, rest, c.end);
      ValueInPlace(source, rest, c.end, k - 1);
      assert changes[..k][0] == c && changes[..k][1..] == rest[..k - 1];
      assert Removed(changes[..k]) == c.end - c.start + Removed(rest[..k - 1]);
      assert Added(changes[..k]) == |c.value| + Added(rest[..k - 1]);
      hide InPlace, SpliceFrom, Removed, Added;
      FurtherOn(head, tail, rest[k - 1].start - c.end - Removed(rest[..k - 1]) + Added(rest[..k - 1]), |changes[k].value|);
    } else {
      assert changes[..0] == [];
      assert (head + tail)[c.start - at..c.start - at + |c.value|] == c.value;
    }
  }

  lemma FurtherOn(head: string, tail: string, pos: nat, n: nat)
    requires pos + n <= |tail|
    ensures (head + tail)[|head| + pos..|head| + pos + n] == tail[pos..pos + n]
  {
  }

  // The replacements that put back the original text of the chosen changes, for a result whose first
  // out characters stand before the text spliced from at on.
  function Inverse(source: string, changes: seq<Replacement>, chosen: Replacement -> bool, at: int, out: int): (r: seq<Replacement>)
    requires 0 <= at <= |source| && InPlace(source, changes, at)
    decreases |changes|
  {
    InPlaceBound(source, changes, at);
    if changes == [] then []
    else
      var c := changes[0];
      var start := out + (c.start - at);
      var rest := Inverse(source, changes[1..], chosen, c.end, start + |c.value|);
      if chosen(c) then [Replacement(start, start + |c.value|, source[c.start..c.end])] + rest else rest
  }

  function Others(changes: seq<Replacement>, chosen: Replacement -> bool): seq<Replacement> {
    if changes == [] then [] else (if chosen(changes[0]) then [] else [changes[0]]) + Others(changes[1..], chosen)
  }

  lemma {:induction false} OthersInPlace(source: string, changes: seq<Replacement>, chosen: Replacement -> bool, at: int)
    requires InPlace(source, changes, at)
    ensures InPlace(source, Others(changes, chosen), at)
    decreases |changes|
  {
    if changes != [] {
      var c, others := changes[0], Others(changes[1..], chosen);
      OthersInPlace(source, changes[1..], chosen, c.end);
      if chosen(c) {
        assert [] + others == others;
        Earlier(source, others, at, c.end);
      } else {
        assert ([c] + others)[1..] == others;
      }
    }
  }

  // The text kept before the first range can be taken apart.
  lemma Earlier(source: string, changes: seq<Replacement>, at: int, e: int)
    requires at <= e && InPlace(source, changes, e)
    ensures InPlace(source, changes, at)
  {
    InPlaceBound(source, changes, e);
  }

  lemma {:induction false} EarlierText(source: string, changes: seq<Replacement>, at: int, e: int)
    requires 0 <= at <= e <= |source| && InPlace(source, changes, e)
    ensures SpliceFrom(source, changes, at) == source[at..e] + SpliceFrom(source, changes, e)
  {
    InPlaceBound(source, changes, e);
    if changes == [] {
      assert source[at..] == source[at..e] + source[e..];
    } else {
      InPlaceBound(source, changes[1..], changes[0].end);
      var c, tail := changes[0], SpliceFrom(source, changes[1..], changes[0].end);
      hide SpliceFrom, InPlace;
      assert source[at..c.start] == source[at..e] + source[e..c.start];
      assert source[at..e] + source[e..c.start] + c.value + tail == source[at..e] + (source[e..c.start] + c.value + tail);
    }
  }

  lemma {:induction false} AllChosen(source: string, changes: seq<Replacement>, chosen: Replacement -> bool)
    requires forall c | c in changes :: chosen(c)
    ensures Others(changes, chosen) == []
  {
    if changes != [] { AllChosen(source, changes[1..], chosen); }
  }

  lemma FirstSpliced(source: string, changes: seq<Replacement>, at: int, before: string)
    requires changes != [] && 0 <= at <= |source| && InPlace(source, changes, at)
    ensures var c := changes[0];
      && at <= c.start <= c.end <= |source| && InPlace(source, changes[1..], c.end)
      && before + SpliceFrom(source, changes, at) == before + source[at..c.start] + c.value + SpliceFrom(source, changes[1..], c.end)
  {
    InPlaceBound(source, changes, at);
  }

  // Splicing the changes back over the result leaves the remaining text of the source.
  predicate Restores(result: string, back: seq<Replacement>, out: int, rest: string) {
    0 <= out <= |result| && InPlace(result, back, out) && SpliceFrom(result, back, out) == rest
  }

  // Any choice of the changes can be undone in the result by itself: what is left is the splice of
  // the others, byte for byte.
  lemma {:induction false} SpliceUndone(source: string, changes: seq<Replacement>, chosen: Replacement -> bool, at: int, before: string)
    requires 0 <= at <= |source| && InPlace(source, changes, at)
    ensures Restores(before + SpliceFrom(source, changes, at), Inverse(source, changes, chosen, at, |before|), |before|,
      SpliceFrom(source, Others(changes, chosen), at))
    decreases |changes|
  {
    hide SpliceFrom, Restores;
    var result := before + SpliceFrom(source, changes, at);
    if changes == [] {
      NothingToUndo(source, chosen, at, before);
    } else {
      var c, rest := changes[0], changes[1..];
      FirstSpliced(source, changes, at, before);
      var before' := before + source[at..c.start] + c.value;
      hide InPlace;
      SpliceUndone(source, rest, chosen, c.end, before');
      OthersInPlace(source, rest, chosen, c.end);
      assert |before'| == |before| + (c.start - at) + |c.value|;
      var back, left := Inverse(source, rest, chosen, c.end, |before'|), Others(rest, chosen);
      InverseFirst(source, changes, chosen, at, |before|);
      hide Inverse, Others;
      if chosen(c) {
        UndoFirst(source, result, before, c, back, left, at);
      } else {
        KeepFirst(source, result, before, c, back, left, at);
      }
    }
  }

  lemma NothingToUndo(source: string, chosen: Replacement -> bool, at: int, before: string)
    requires 0 <= at <= |source|
    ensures Restores(before + SpliceFrom(source, [], at), Inverse(source, [], chosen, at, |before|), |before|,
      SpliceFrom(source, Others([], chosen), at))
  {
    assert (before + source[at..])[|before|..] == source[at..];
  }

  lemma InverseFirst(source: string, changes: seq<Replacement>, chosen: Replacement -> bool, at: int, out: int)
    requires changes != [] && 0 <= at <= |source| && InPlace(source, changes, at)
    requires at <= changes[0].start <= changes[0].end <= |source| && InPlace(source, changes[1..], changes[0].end)
    ensures var c, start := changes[0], out + (changes[0].start - at);
      var back, left := Inverse(source, changes[1..], chosen, c.end, start + |c.value|), Others(changes[1..], chosen);
      && Inverse(source, changes, chosen, at, out) ==
           (if chosen(c) then [Replacement(start, start + |c.value|, source[c.start..c.end])] + back else back)
      && Others(changes, chosen) == if chosen(c) then left else [c] + left
  {
    assert [] + Others(changes[1..], chosen) == Others(changes[1..], chosen);
  }

  // Undoing every change gives the source back.
  lemma SpliceReversible(source: string, changes: seq<Replacement>)
    requires InPlace(source, changes, 0)
    ensures Restores(SpliceFrom(source, changes, 0), Inverse(source, changes, _ => true, 0, 0), 0, source)
  {
    SpliceUndone(source, changes, _ => true, 0, "");
    AllChosen(source, changes, _ => true);
    assert "" + SpliceFrom(source, changes, 0) == SpliceFrom(source, changes, 0);
  }

  lemma UndoFirst(source: string, result: string, before: string, c: Replacement, back: seq<Replacement>, left: seq<Replacement>, at: int)
    requires 0 <= at <= c.start <= c.end <= |source| && InPlace(source, left, c.end)
    requires before + source[at..c.start] + c.value <= result
    requires Restores(result, back, |before| + (c.start - at) + |c.value|, SpliceFrom(source, left, c.end))
    ensures var start := |before| + (c.start - at);
      var first := Replacement(start, start + |c.value|, source[c.start..c.end]);
      Restores(result, [first] + back, |before|, SpliceFrom(source, left, at))
  {
    var gap, start := source[at..c.start], |before| + (c.start - at);
    var first := Replacement(start, start + |c.value|, source[c.start..c.end]);
    var all := [first] + back;
    assert all[0] == first && all[1..] == back;
    EarlierText(source, left, at, c.end);
    assert result[|before|..start] == gap;
    assert SpliceFrom(result, all, |before|) == gap + first.value + SpliceFrom(result, back, first.end);
    hide SpliceFrom, InPlace;
    assert source[at..c.end] == gap + source[c.start..c.end];
  }

  lemma KeepFirst(source: string, result: string, before: string, c: Replacement, back: seq<Replacement>, left: seq<Replacement>, at: int)
    requires 0 <= at <= c.start <= c.end <= |source| && InPlace(source, left, c.end)
    requires before + source[at..c.start] + c.value <= result
    requires Restores(result, back, |before| + (c.start - at) + |c.value|, SpliceFrom(source, left, c.end))
    ensures Restores(result, back, |before|, SpliceFrom(source, [c] + left, at))
  {
    var out := |before| + (c.start - at) + |c.value|;
    Earlier(result, back, |before|, out);
    EarlierText(result, back, |before|, out);
    assert result[|before|..out] == source[at..c.start] + c.value;
    assert ([c] + left)[1..] == left;
  }
}
