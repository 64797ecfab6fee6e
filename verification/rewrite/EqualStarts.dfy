// Replacements that share a start: exactly when the order they are listed in decides the outcome.
module EqualStarts {
  import opened Wrappers
  import opened Sorting
  import opened Splice

  predicate Insertion(r: Replacement) {
    r.end == r.start
  }

  // A range that is cut shares its start with insertions only.
  ghost predicate OneCutEach(given: seq<Replacement>) {
    forall x | x in given && !Insertion(x) ::
      multiset(given)[x] == 1 && forall y | y in given && y != x && y.start == x.start :: Insertion(y)
  }

  // Some order of the list goes through.
  ghost predicate Placeable(source: string, given: seq<Replacement>) {
    Disjoint(source, given) && OneCutEach(given)
  }

  // One of the two must be first, or their texts come out differently either way.
  predicate Clash(x: Replacement, y: Replacement) {
    && x != y && x.start == y.start
    && (!Insertion(x) || !Insertion(y) || x.value + y.value != y.value + x.value)
  }

  ghost predicate NoClash(given: seq<Replacement>) {
    forall x, y | x in given && y in given :: !Clash(x, y)
  }

  // An order the sort by start can leave the list in. A list in such an order is left as it is.
  ghost predicate Arranged(given: seq<Replacement>, sorted: seq<Replacement>) {
    Descending(sorted) && multiset(sorted) == multiset(given)
  }

  ghost predicate Differ(source: string, s: seq<Replacement>, t: seq<Replacement>) {
    BackToFront(source, s, |source|) != BackToFront(source, t, |source|)
  }

  ghost predicate OrderMatters(source: string, given: seq<Replacement>) {
    exists s, t :: Arranged(given, s) && Arranged(given, t) && Differ(source, s, t)
  }

  // ---- What goes through does not depend on the text ----

  predicate Accepted(changes: seq<Replacement>, previous: int) {
    changes != [] ==>
      var c := changes[0];
      0 <= c.start <= c.end <= previous && Accepted(changes[1..], c.start)
  }

  lemma {:induction false} AcceptedIff(source: string, changes: seq<Replacement>, previous: int)
    requires previous <= |source|
    ensures BackToFront(source, changes, previous).Some? <==> Accepted(changes, previous)
    decreases |changes|
  {
    if changes != [] {
      var c := changes[0];
      if 0 <= c.start <= c.end <= previous {
        AcceptedIff(source[..c.start] + c.value + source[c.end..], changes[1..], c.start);
      }
    }
  }

  predicate FitsAfter(changes: seq<Replacement>, previous: int, k: nat)
    requires k < |changes|
  {
    0 <= changes[k].start <= changes[k].end <= if k == 0 then previous else changes[k - 1].start
  }

  lemma AcceptedFirst(changes: seq<Replacement>, previous: int)
    requires changes != []
    ensures Accepted(changes, previous) <==> FitsAfter(changes, previous, 0) && Accepted(changes[1..], changes[0].start)
  {
  }

  lemma {:induction false} AcceptedSteps(changes: seq<Replacement>, previous: int)
    ensures Accepted(changes, previous) <==> forall k | 0 <= k < |changes| :: FitsAfter(changes, previous, k)
    decreases |changes|
  {
    if changes != [] {
      var rest, top := changes[1..], changes[0].start;
      AcceptedFirst(changes, previous);
      AcceptedSteps(rest, top);
      hide Accepted;
      forall k | 0 <= k < |rest| ensures FitsAfter(rest, top, k) <==> FitsAfter(changes, previous, k + 1) {
      }
      if k :| 0 <= k < |changes| && !FitsAfter(changes, previous, k) {
        assert k > 0 ==> !FitsAfter(rest, top, k - 1);
      }
    }
  }

  // Every later range ends before every earlier start.
  lemma {:induction false} AcceptedPairs(changes: seq<Replacement>, previous: int, i: nat, j: nat)
    requires Accepted(changes, previous) && i < j < |changes|
    ensures 0 <= changes[j].start <= changes[j].end <= changes[i].start
    decreases j
  {
    AcceptedSteps(changes, previous);
    assert FitsAfter(changes, previous, j) && FitsAfter(changes, previous, j - 1);
    if i < j - 1 { AcceptedPairs(changes, previous, i, j - 1); }
  }

  lemma AcceptedEach(changes: seq<Replacement>, previous: int, k: nat)
    requires Accepted(changes, previous) && k < |changes|
    ensures 0 <= changes[k].start <= changes[k].end <= previous
  {
    AcceptedSteps(changes, previous);
    assert FitsAfter(changes, previous, 0) && FitsAfter(changes, previous, k);
    if k > 0 { AcceptedPairs(changes, previous, 0, k); }
  }

  // ---- Some order goes through exactly when the list is placeable ----

  lemma OnceInList(s: seq<Replacement>, x: Replacement, i: nat)
    requires i < |s| && s[i] == x && forall j | 0 <= j < |s| && j != i :: s[j] != x
    ensures multiset(s)[x] == 1
  {
    assert s == s[..i] + [x] + s[i + 1..];
    assert x !in s[..i] && x !in s[i + 1..];
  }

  lemma AcceptedIsPlaceable(source: string, sorted: seq<Replacement>)
    requires Accepted(sorted, |source|)
    ensures Placeable(source, sorted)
  {
    forall k | 0 <= k < |sorted| ensures 0 <= sorted[k].start <= sorted[k].end <= |source| {
      AcceptedEach(sorted, |source|, k);
    }
    forall j, k | 0 <= j < |sorted| && 0 <= k < |sorted| && sorted[j].start < sorted[k].start ensures sorted[j].end <= sorted[k].start {
      if k < j { AcceptedPairs(sorted, |source|, k, j); } else { AcceptedPairs(sorted, |source|, j, k); }
    }
    forall x | x in sorted && !Insertion(x)
      ensures multiset(sorted)[x] == 1 && forall y | y in sorted && y != x && y.start == x.start :: Insertion(y)
    {
      var i :| 0 <= i < |sorted| && sorted[i] == x;
      forall j | 0 <= j < |sorted| && j != i ensures sorted[j].start == x.start ==> Insertion(sorted[j]) {
        AcceptedEach(sorted, |source|, i);
        if j < i { AcceptedPairs(sorted, |source|, j, i); } else { AcceptedPairs(sorted, |source|, i, j); }
      }
      OnceInList(sorted, x, i);
    }
  }

  lemma PlaceableBag(source: string, s: seq<Replacement>, t: seq<Replacement>)
    requires multiset(s) == multiset(t) && Placeable(source, s)
    ensures Placeable(source, t)
  {
    DisjointBag(source, s, t);
    SameMembers(s, t);
  }

  // Descending by start, a cut before the insertions at its start.
  predicate CutFirst(x: Replacement, y: Replacement) {
    x.start > y.start || (x.start == y.start && x.end > y.end)
  }

  lemma CutsFirstDescend(sorted: seq<Replacement>)
    requires Sorted(sorted, CutFirst)
    ensures Descending(sorted)
    ensures forall k | 0 < k < |sorted| && sorted[k - 1].start == sorted[k].start :: sorted[k - 1].end >= sorted[k].end
  {
    forall j, k | 0 <= j < k < |sorted| ensures !CutFirst(sorted[k], sorted[j]) {
    }
  }

  lemma NeighboursFit(source: string, sorted: seq<Replacement>, k: nat)
    requires Placeable(source, sorted) && Descending(sorted) && 0 < k < |sorted|
    requires sorted[k - 1].start == sorted[k].start ==> sorted[k - 1].end >= sorted[k].end
    ensures FitsAfter(sorted, |source|, k)
  {
    var x, y := sorted[k - 1], sorted[k];
    assert x in sorted && y in sorted && y.start <= x.start;
    if x.start == y.start && !Insertion(y) {
      TwiceInList(sorted, k - 1, k);
    }
  }

  // An order of a placeable list that goes through.
  lemma Placed(source: string, given: seq<Replacement>) returns (sorted: seq<Replacement>)
    requires Placeable(source, given)
    ensures Arranged(given, sorted) && Accepted(sorted, |source|)
  {
    sorted := Sort(given, CutFirst);
    assert IsOrder(CutFirst);
    SortSorted(given, CutFirst);
    CutsFirstDescend(sorted);
    hide Sorted, IsOrder, CutFirst, Sort, Descending, OneCutEach;
    PlaceableBag(source, given, sorted);
    AcceptedSteps(sorted, |source|);
    forall k | 0 <= k < |sorted| ensures FitsAfter(sorted, |source|, k) {
      if k > 0 { NeighboursFit(source, sorted, k); }
    }
  }

  lemma TwiceInList(s: seq<Replacement>, i: nat, j: nat)
    requires i < j < |s|
    ensures s[i] == s[j] ==> multiset(s)[s[i]] >= 2
  {
    assert s == s[..j] + [s[j]] + s[j + 1..];
    assert s[i] in s[..j];
  }

  // ---- Without a clash all orders agree ----

  // Two insertions at one place, in either order.
  lemma SwapTexts(source: string, x: Replacement, y: Replacement)
    requires Insertion(x) && Insertion(y) && x.start == y.start && 0 <= x.start <= |source|
    ensures WithInsertion(WithInsertion(source, x), y) == source[..x.start] + (y.value + x.value) + source[x.start..]
  {
    var once := WithInsertion(source, x);
    assert once[..x.start] == source[..x.start];
    assert once[x.start..] == x.value + source[x.start..];
  }

  function WithInsertion(source: string, x: Replacement): (r: string)
    requires 0 <= x.start <= |source|
    ensures |r| == |source| + |x.value|
  {
    source[..x.start] + x.value + source[x.start..]
  }

  lemma TwoInsertions(source: string, x: Replacement, y: Replacement, rest: seq<Replacement>, previous: int)
    requires Insertion(x) && Insertion(y) && x.start == y.start && previous <= |source|
    ensures BackToFront(source, [x, y] + rest, previous) ==
      if 0 <= x.start <= previous then BackToFront(source[..x.start] + (y.value + x.value) + source[x.start..], rest, x.start) else None
  {
    var all := [x, y] + rest;
    assert all[0] == x && all[1..][0] == y && all[1..][1..] == rest;
    if 0 <= x.start <= previous {
      SwapTexts(source, x, y);
      assert BackToFront(source, all, previous) == BackToFront(WithInsertion(source, x), all[1..], x.start);
    }
  }

  // An element that clashes with none of those before it can be taken first.
  lemma {:induction false} TakenFirst(source: string, before: seq<Replacement>, x: Replacement, rest: seq<Replacement>, previous: int)
    requires previous <= |source| && forall b | b in before :: b.start == x.start && !Clash(b, x)
    ensures BackToFront(source, before + [x] + rest, previous) == BackToFront(source, [x] + before + rest, previous)
    decreases |before|
  {
    if before == [] {
      assert before + [x] + rest == [x] + before + rest;
    } else {
      var b, later := before[0], before[1..];
      var all := before + [x] + rest;
      assert all[0] == b && all[1..] == later + [x] + rest;
      assert ([b] + ([x] + later + rest))[1..] == [x] + later + rest;
      assert [b] + ([x] + later + rest) == [b, x] + (later + rest) && [x] + before + rest == [x, b] + (later + rest);
      if 0 <= b.start <= b.end <= previous {
        TakenFirst(source[..b.start] + b.value + source[b.end..], later, x, rest, b.start);
      }
      assert BackToFront(source, all, previous) == BackToFront(source, [b, x] + (later + rest), previous);
      if b != x {
        TwoInsertions(source, b, x, later + rest, previous);
        TwoInsertions(source, x, b, later + rest, previous);
      }
    }
  }

  function Without(s: seq<Replacement>, i: nat): seq<Replacement>
    requires i < |s|
  {
    s[..i] + s[i + 1..]
  }

  lemma WithoutBag(s: seq<Replacement>, i: nat)
    requires i < |s|
    ensures multiset(Without(s, i)) == multiset(s) - multiset{s[i]}
  {
    assert s == s[..i] + [s[i]] + s[i + 1..];
  }

  lemma WithoutOne(s: seq<Replacement>, i: nat)
    requires i < |s| && Descending(s)
    ensures Descending(Without(s, i)) && multiset(Without(s, i)) == multiset(s) - multiset{s[i]}
  {
    WithoutBag(s, i);
    var u := Without(s, i);
    forall j, k | 0 <= j < k < |u| ensures u[j].start >= u[k].start {
      assert u[j] == s[if j < i then j else j + 1] && u[k] == s[if k < i then k else k + 1];
    }
  }

  lemma EarlierHarmless(s: seq<Replacement>, t: seq<Replacement>, i: nat)
    requires s != [] && Descending(s) && Arranged(s, t) && NoClash(s) && i < |t| && t[i] == s[0]
    ensures forall b | b in t[..i] :: b.start == s[0].start && !Clash(b, s[0])
  {
    SameMembers(s, t);
    hide Clash;
    forall b | b in t[..i] ensures b.start == s[0].start && !Clash(b, s[0]) {
      assert b in s;
    }
  }

  // The first element of one order in another: nothing before it clashes with it.
  lemma FirstElsewhere(s: seq<Replacement>, t: seq<Replacement>) returns (i: nat)
    requires s != [] && Descending(s) && Arranged(s, t) && NoClash(s)
    ensures i < |t| && t[i] == s[0] && forall b | b in t[..i] :: b.start == s[0].start && !Clash(b, s[0])
    ensures Descending(s[1..]) && Arranged(s[1..], Without(t, i)) && NoClash(s[1..])
  {
    SameMembers(s, t);
    assert s[0] in t;
    i :| 0 <= i < |t| && t[i] == s[0];
    EarlierHarmless(s, t, i);
    WithoutOne(s, 0);
    WithoutOne(t, i);
    hide Descending, Clash;
    assert Without(s, 0) == s[1..];
    assert forall y :: y in s[1..] ==> y in s;
  }

  lemma {:induction false} OrdersAgree(source: string, s: seq<Replacement>, t: seq<Replacement>, previous: int)
    requires previous <= |source| && Descending(s) && Arranged(s, t) && NoClash(s)
    ensures BackToFront(source, s, previous) == BackToFront(source, t, previous)
    decreases |s|
  {
    if s == [] {
      assert |multiset(t)| == 0;
    } else {
      var i := FirstElsewhere(s, t);
      hide Descending, Arranged, NoClash, Clash;
      var x, before, rest := s[0], t[..i], t[i + 1..];
      assert t == before + [x] + rest && s == [x] + s[1..];
      TakenFirst(source, before, x, rest, previous);
      assert [x] + before + rest == [x] + Without(t, i) && ([x] + Without(t, i))[1..] == Without(t, i);
      if 0 <= x.start <= x.end <= previous {
        OrdersAgree(source[..x.start] + x.value + source[x.end..], s[1..], Without(t, i), x.start);
      }
    }
  }

  // ---- With a clash two orders differ ----

  // What stands after all ranges is not looked at.
  lemma {:induction false} TailStays(source: string, tail: string, changes: seq<Replacement>, previous: int)
    requires previous <= |source|
    ensures BackToFront(source + tail, changes, previous) ==
      match BackToFront(source, changes, previous) case None => None case Some(r) => Some(r + tail)
    decreases |changes|
  {
    if changes != [] {
      var c := changes[0];
      if 0 <= c.start <= c.end <= previous {
        var after := source[..c.start] + c.value + source[c.end..];
        assert (source + tail)[..c.start] == source[..c.start] && (source + tail)[c.end..] == source[c.end..] + tail;
        assert source[..c.start] + c.value + (source[c.end..] + tail) == after + tail;
        TailStays(after, tail, changes[1..], c.start);
      }
    }
  }

  // Insertions whose texts do not commute, next to each other.
  lemma InsertionsDiffer(source: string, x: Replacement, y: Replacement, rest: seq<Replacement>, previous: int)
    requires previous <= |source| && Clash(x, y) && Insertion(x) && Insertion(y)
    requires Accepted([x, y] + rest, previous)
    ensures BackToFront(source, [x, y] + rest, previous) != BackToFront(source, [y, x] + rest, previous)
  {
    var at, all := x.start, [x, y] + rest;
    assert all[0] == x && all[1..][0] == y && all[1..][1..] == rest;
    AcceptedFirst(all, previous);
    AcceptedFirst(all[1..], at);
    var xy, yx := x.value + y.value, y.value + x.value;
    hide BackToFront, Accepted;
    TwoInsertions(source, x, y, rest, previous);
    TwoInsertions(source, y, x, rest, previous);
    var r := TextKept(source, at, yx, rest);
    var r' := TextKept(source, at, xy, rest);
    assert r == r';
    assert (r + yx)[|r|..] == yx && (r + xy)[|r|..] == xy;
    assert (r + yx + source[at..])[..|r + yx|] == r + yx && (r + xy + source[at..])[..|r + xy|] == r + xy;
  }

  // Text put in at a place stays there when only ranges before it are replaced.
  lemma TextKept(source: string, at: int, text: string, rest: seq<Replacement>) returns (r: string)
    requires 0 <= at <= |source| && Accepted(rest, at)
    ensures BackToFront(source[..at], rest, at) == Some(r)
    ensures BackToFront(source[..at] + text + source[at..], rest, at) == Some(r + text + source[at..])
  {
    var prefix := source[..at];
    AcceptedIff(prefix, rest, at);
    hide BackToFront, Accepted;
    r := BackToFront(prefix, rest, at).value;
    TailStays(prefix, text + source[at..], rest, at);
    assert prefix + text + source[at..] == prefix + (text + source[at..]);
    assert r + text + source[at..] == r + (text + source[at..]);
  }

  // The same starts at the same places, where a range is replaced by an insertion at most.
  ghost predicate SameStarts(s: seq<Replacement>, t: seq<Replacement>) {
    |t| == |s| && forall k | 0 <= k < |s| :: t[k].start == s[k].start && (t[k] == s[k] || Insertion(t[k]))
  }

  lemma SameStartsFit(s: seq<Replacement>, t: seq<Replacement>, previous: int)
    requires SameStarts(s, t) && Descending(s) && Accepted(s, previous)
    ensures Descending(t) && Accepted(t, previous)
  {
    AcceptedSteps(s, previous);
    AcceptedSteps(t, previous);
    hide Accepted;
    forall k | 0 <= k < |t| ensures FitsAfter(t, previous, k) {
      assert FitsAfter(s, previous, k);
    }
  }

  lemma SwapArranged(s: seq<Replacement>, i: nat, j: nat)
    requires Descending(s) && i < j < |s| && s[i].start == s[j].start
    ensures Arranged(s, s[i := s[j]][j := s[i]])
  {
    var t := s[i := s[j]][j := s[i]];
    assert forall k | 0 <= k < |s| :: t[k].start == s[k].start;
    assert multiset(t) == multiset(s);
  }

  // A cut and an insertion at its start: the cut must come first.
  lemma CutDecides(source: string, sorted: seq<Replacement>, i: nat, j: nat)
    requires Descending(sorted) && Accepted(sorted, |source|) && i < j < |sorted|
    requires sorted[i].start == sorted[j].start && !Insertion(sorted[i])
    ensures var t := sorted[i := sorted[j]][j := sorted[i]]; Arranged(sorted, t) && Differ(source, sorted, t)
  {
    var t := sorted[i := sorted[j]][j := sorted[i]];
    SwapArranged(sorted, i, j);
    hide Arranged, Descending, BackToFront, Accepted;
    AcceptedIff(source, sorted, |source|);
    AcceptedIff(source, t, |source|);
    AcceptedEach(sorted, |source|, i);
    if Accepted(t, |source|) { AcceptedPairs(t, |source|, i, j); }
  }

  // The list with two elements in place of those at i and j, next to each other.
  function Side(s: seq<Replacement>, i: nat, j: nat, x: Replacement, y: Replacement): seq<Replacement>
    requires i < j < |s|
  {
    s[..i] + ([x, y] + (s[i + 1..j] + s[j + 1..]))
  }

  lemma SideBag(s: seq<Replacement>, i: nat, j: nat)
    requires i < j < |s|
    ensures multiset(Side(s, i, j, s[i], s[j])) == multiset(s) == multiset(Side(s, i, j, s[j], s[i]))
  {
    var a, x, m, y, b := s[..i], s[i], s[i + 1..j], s[j], s[j + 1..];
    assert s == a + [x] + m + [y] + b;
    PartsBag(a, x, m, y, b);
  }

  lemma BagOfConcat<T>(s: seq<T>, t: seq<T>)
    ensures multiset(s + t) == multiset(s) + multiset(t)
  {
  }

  lemma PartsBag<T>(a: seq<T>, x: T, m: seq<T>, y: T, b: seq<T>)
    ensures multiset(a + [x] + m + [y] + b) == multiset(a + ([x, y] + (m + b))) == multiset(a + ([y, x] + (m + b)))
  {
    BagOfConcat(a, [x]);
    BagOfConcat(a + [x], m);
    BagOfConcat(a + [x] + m, [y]);
    BagOfConcat(a + [x] + m + [y], b);
    BagOfConcat(m, b);
    BagOfConcat([x, y], m + b);
    BagOfConcat([y, x], m + b);
    BagOfConcat(a, [x, y] + (m + b));
    BagOfConcat(a, [y, x] + (m + b));
    assert multiset([x, y]) == multiset{x} + multiset{y} == multiset([y, x]);
  }

  lemma SideAt(s: seq<Replacement>, i: nat, j: nat, x: Replacement, y: Replacement, k: nat)
    requires i < j < |s| && k < |s|
    ensures |Side(s, i, j, x, y)| == |s|
    ensures Side(s, i, j, x, y)[k] ==
      if k < i then s[k] else if k == i then x else if k == i + 1 then y else if k <= j then s[k - 1] else s[k]
  {
    var m, b := s[i + 1..j], s[j + 1..];
    var tail := m + b;
    assert i + 1 < k <= j ==> tail[k - i - 2] == m[k - i - 2] == s[k - 1];
    assert j < k ==> tail[k - i - 2] == b[k - j - 1] == s[k];
  }

  lemma SideStarts(s: seq<Replacement>, i: nat, j: nat, x: Replacement, y: Replacement)
    requires i < j < |s| && Descending(s) && s[i].start == s[j].start == x.start == y.start
    requires Insertion(x) && Insertion(y) && forall k | i <= k <= j :: Insertion(s[k])
    ensures SameStarts(s, Side(s, i, j, x, y))
  {
    var t := Side(s, i, j, x, y);
    assert |t| == |s| by { SideAt(s, i, j, x, y, 0); }
    assert forall k | i <= k <= j :: s[k].start == x.start;
    forall k | 0 <= k < |s| ensures t[k].start == s[k].start && (t[k] == s[k] || Insertion(t[k])) {
      SideAt(s, i, j, x, y, k);
      hide Side;
    }
  }

  lemma {:induction false} AcceptedPrefix(a: seq<Replacement>, s: seq<Replacement>, previous: int)
    ensures Accepted(a + s, previous) <==> Accepted(a, previous) && Accepted(s, LastStart(a, previous))
    decreases |a|
  {
    if a == [] {
      assert a + s == s;
    } else {
      assert (a + s)[0] == a[0] && (a + s)[1..] == a[1..] + s;
      AcceptedPrefix(a[1..], s, a[0].start);
    }
  }

  lemma {:induction false} AfterPrefix(source: string, a: seq<Replacement>, s: seq<Replacement>, previous: int)
    requires previous <= |source| && Accepted(a, previous)
    ensures var mid := BackToFront(source, a, previous);
      mid.Some? && LastStart(a, previous) <= |mid.value|
      && BackToFront(source, a + s, previous) == BackToFront(mid.value, s, LastStart(a, previous))
    decreases |a|
  {
    if a == [] {
      assert a + s == s;
    } else {
      var c := a[0];
      assert (a + s)[0] == c && (a + s)[1..] == a[1..] + s;
      AfterPrefix(source[..c.start] + c.value + source[c.end..], a[1..], s, c.start);
    }
  }

  lemma InsertionsDecide(source: string, s: seq<Replacement>, i: nat, j: nat)
    requires i < j < |s| && Descending(s) && Accepted(s, |source|) && Clash(s[i], s[j])
    requires forall k | i <= k <= j :: Insertion(s[k])
    ensures var t, u := Side(s, i, j, s[i], s[j]), Side(s, i, j, s[j], s[i]); Arranged(s, t) && Arranged(s, u) && Differ(source, t, u)
  {
    var x, y, a, rest := s[i], s[j], s[..i], s[i + 1..j] + s[j + 1..];
    SideBag(s, i, j);
    SideStarts(s, i, j, x, y);
    SideStarts(s, i, j, y, x);
    SameStartsFit(s, Side(s, i, j, x, y), |source|);
    SameStartsFit(s, Side(s, i, j, y, x), |source|);
    hide Descending, BackToFront, Accepted, SameStarts, Clash;
    AcceptedPrefix(a, [x, y] + rest, |source|);
    AfterPrefix(source, a, [x, y] + rest, |source|);
    AfterPrefix(source, a, [y, x] + rest, |source|);
    InsertionsDiffer(BackToFront(source, a, |source|).value, x, y, rest, LastStart(a, |source|));
  }

  // ---- The condition ----

  // Two different replacements share a start, one of them an insertion, and clash; all else fits.
  ghost predicate Sensitive(source: string, given: seq<Replacement>) {
    Placeable(source, given) && !NoClash(given)
  }

  lemma ClashDecides(source: string, s: seq<Replacement>, i: nat, j: nat)
    requires i < j < |s| && Descending(s) && Accepted(s, |source|) && Clash(s[i], s[j])
    ensures OrderMatters(source, s)
  {
    forall k | i < k <= j ensures s[k].start == s[i].start && Insertion(s[k]) {
      AcceptedPairs(s, |source|, i, k);
    }
    if Insertion(s[i]) {
      InsertionsDecide(source, s, i, j);
    } else {
      CutDecides(source, s, i, j);
    }
    hide Arranged, Differ;
  }

  // Two orders the sort can leave the list in give different results exactly when some order goes
  // through and two different replacements at one place clash: one of them cuts, or both insert texts
  // that do not commute.
  lemma OrderMattersIff(source: string, given: seq<Replacement>)
    ensures OrderMatters(source, given) <==> Sensitive(source, given)
  {
    if Sensitive(source, given) {
      SensitiveMatters(source, given);
    } else if s, t :| Arranged(given, s) && Arranged(given, t) && Differ(source, s, t) {
      hide Descending, NoClash, BackToFront, Accepted, Placeable;
      AcceptedIff(source, s, |source|);
      AcceptedIff(source, t, |source|);
      if Accepted(s, |source|) { AcceptedIsPlaceable(source, s); PlaceableBag(source, s, given); }
      if Accepted(t, |source|) { AcceptedIsPlaceable(source, t); PlaceableBag(source, t, given); }
      NoClashBag(given, s);
      OrdersAgree(source, s, t, |source|);
    }
  }

  lemma NoClashBag(s: seq<Replacement>, t: seq<Replacement>)
    requires multiset(s) == multiset(t) && NoClash(s)
    ensures NoClash(t)
  {
    SameMembers(s, t);
    hide Clash;
  }

  lemma SensitiveMatters(source: string, given: seq<Replacement>)
    requires Sensitive(source, given)
    ensures OrderMatters(source, given)
  {
    var s := Placed(source, given);
    SameMembers(s, given);
    hide Placeable, BackToFront, Accepted;
    var x, y :| x in given && y in given && Clash(x, y);
    assert x in s && y in s;
    var i :| 0 <= i < |s| && s[i] == x;
    var j :| 0 <= j < |s| && s[j] == y;
    ClashDecides(source, s, if i < j then i else j, if i < j then j else i);
    var t, u :| Arranged(s, t) && Arranged(s, u) && Differ(source, t, u);
    assert Arranged(given, t) && Arranged(given, u);
  }

  method ReplaceBoth(source: string, x: Replacement, y: Replacement) returns (r: Option<string>)
    requires x.start >= y.start
    ensures r == BackToFront(source, [x, y], |source|)
  {
    var changes := new Replacement[2](k => if k == 0 then x else y);
    assert changes[..] == [x, y];
    r := Replace(source, changes);
  }

  // The method on both orders of a deletion and an insertion at one place.
  method DeletionAndInsertion() returns (before: Option<string>, after: Option<string>)
    ensures before == Some("ax") && after == None
  {
    var deletion, insertion := Replacement(1, 2, ""), Replacement(1, 1, "x");
    before := ReplaceBoth("ab", deletion, insertion);
    after := ReplaceBoth("ab", insertion, deletion);
    EqualStartsDependOnOrder();
  }

  lemma EqualStartsDependOnOrder()
    ensures var deletion, insertion := Replacement(1, 2, ""), Replacement(1, 1, "x");
      && BackToFront("ab", [deletion, insertion], 2) == Some("ax")
      && BackToFront("ab", [insertion, deletion], 2) == None
  {
    var deletion, insertion := Replacement(1, 2, ""), Replacement(1, 1, "x");
    assert [deletion, insertion][1..] == [insertion] && [insertion][1..] == [] && [insertion, deletion][1..] == [deletion];
    assert "ab"[..1] + "" + "ab"[2..] == "a";
    assert "a"[..1] + "x" + "a"[1..] == "ax";
    assert BackToFront("a", [insertion], 1) == BackToFront("ax", [], 1);
    assert BackToFront("ab", [deletion, insertion], 2) == BackToFront("a", [insertion], 1);
    var inserted := "ab"[..1] + "x" + "ab"[1..];
    assert BackToFront("ab", [insertion, deletion], 2) == BackToFront(inserted, [deletion], 1);
  }
}
