// Stable anchors for large diffs: lines that occur exactly once on each side, thinned out to a
// longest chain that runs forward in both files.
module Anchors {
  import opened Sorting

  // A line of one file matched with a line of the other.
  datatype Pair = Pair(ai: nat, bi: nat)

  ghost predicate UniqueAt(a: seq<string>, i: nat) {
    i < |a| && forall k | 0 <= k < |a| && a[k] == a[i] :: k == i
  }

  ghost predicate IsAnchor(a: seq<string>, b: seq<string>, p: Pair) {
    UniqueAt(a, p.ai) && UniqueAt(b, p.bi) && a[p.ai] == b[p.bi]
  }

  ghost predicate Increasing(c: seq<Pair>) {
    forall i, j | 0 <= i < j < |c| :: c[i].ai < c[j].ai && c[i].bi < c[j].bi
  }

  ghost predicate IsAnchorChain(a: seq<string>, b: seq<string>, c: seq<Pair>) {
    Increasing(c) && forall k | 0 <= k < |c| :: IsAnchor(a, b, c[k])
  }

  // ---- Positions of lines, -1 once a line repeats ----

  ghost predicate Positions(m: map<string, int>, a: seq<string>, n: nat)
    requires n <= |a|
  {
    && (forall k | 0 <= k < n :: a[k] in m && (m[a[k]] == k || m[a[k]] == -1))
    && (forall k | 0 <= k < n :: m[a[k]] == k <==> UniqueAt(a[..n], k))
    && (forall line | line in m :: exists k :: 0 <= k < n && a[k] == line)
  }

  method LinePositions(a: seq<string>) returns (m: map<string, int>)
    ensures Positions(m, a, |a|)
  {
    m := map[];
    for i := 0 to |a|
      invariant Positions(m, a, i)
    {
      var line := a[i];
      PositionsStep(m, a, i);
      hide Positions;
      m := m[line := if line in m then -1 else i];
    }
  }

  lemma PositionsStep(m: map<string, int>, a: seq<string>, i: nat)
    requires i < |a| && Positions(m, a, i)
    ensures Positions(m[a[i] := if a[i] in m then -1 else i], a, i + 1)
  {
    var line := a[i];
    var m' := m[line := if line in m then -1 else i];
    forall k | 0 <= k < i + 1 ensures m'[a[k]] == k <==> UniqueAt(a[..i + 1], k) {
      UniqueStep(a, i, k);
      if k < i && a[k] != line { assert m[a[k]] == k <==> UniqueAt(a[..i], k); }
    }
    hide UniqueAt;
  }

  // A line is unique in one line more exactly when it was unique and the new line differs, or it is
  // the new line and was not there.
  lemma UniqueStep(a: seq<string>, i: nat, k: nat)
    requires k <= i < |a|
    ensures k < i ==> (UniqueAt(a[..i + 1], k) <==> UniqueAt(a[..i], k) && a[k] != a[i])
    ensures k == i ==> (UniqueAt(a[..i + 1], k) <==> forall j | 0 <= j < i :: a[j] != a[i])
  {
    var shorter, longer := a[..i], a[..i + 1];
    assert forall j | 0 <= j < i :: longer[j] == shorter[j] == a[j];
    assert longer[i] == a[i];
  }

  lemma PositionsAreUnique(m: map<string, int>, a: seq<string>, line: string)
    requires Positions(m, a, |a|)
    ensures line in m && m[line] >= 0 ==> UniqueAt(a, m[line]) && a[m[line]] == line
    ensures forall i: nat | UniqueAt(a, i) && a[i] == line :: line in m && m[line] == i
  {
    assert a[..|a|] == a;
    assert line in m ==> exists k :: 0 <= k < |a| && a[k] == line;
  }

  // ---- The candidate pairs ----

  ghost predicate AllAnchors(a: seq<string>, b: seq<string>, pairs: seq<Pair>) {
    && (forall k | 0 <= k < |pairs| :: IsAnchor(a, b, pairs[k]))
    && (forall p: Pair | IsAnchor(a, b, p) :: p in pairs)
  }

  function First(p: Pair): nat {
    p.ai
  }

  lemma AnchorsOfLine(a: seq<string>, b: seq<string>, inA: map<string, int>, inB: map<string, int>, line: string)
    requires Positions(inA, a, |a|) && Positions(inB, b, |b|)
    ensures forall p: Pair | IsAnchor(a, b, p) && a[p.ai] == line ::
      line in inA && inA[line] == p.ai && line in inB && inB[line] == p.bi
    ensures line in inA && inA[line] >= 0 && line in inB && inB[line] >= 0 ==>
      IsAnchor(a, b, Pair(inA[line], inB[line])) && a[inA[line]] == line
  {
    PositionsAreUnique(inA, a, line);
    PositionsAreUnique(inB, b, line);
  }

  // A map has no order of its own: the lines are visited in whatever order it hands them out.
  method CandidatePairs(a: seq<string>, b: seq<string>) returns (pairs: seq<Pair>)
    ensures AllAnchors(a, b, pairs) && DistinctKeys(pairs, First)
  {
    var inA := LinePositions(a);
    var inB := LinePositions(b);
    pairs := [];
    var left := inA.Keys;
    forall p: Pair | IsAnchor(a, b, p) ensures a[p.ai] in left {
      AnchorsOfLine(a, b, inA, inB, a[p.ai]);
    }
    while left != {}
      invariant left <= inA.Keys
      invariant forall k | 0 <= k < |pairs| :: IsAnchor(a, b, pairs[k]) && a[pairs[k].ai] !in left
      invariant forall p: Pair | IsAnchor(a, b, p) :: a[p.ai] in left || p in pairs
      invariant DistinctKeys(pairs, First)
      decreases |left|
    {
      var line :| line in left;
      AnchorsOfLine(a, b, inA, inB, line);
      if inA[line] >= 0 && line in inB && inB[line] >= 0 {
        pairs := pairs + [Pair(inA[line], inB[line])];
      }
      left := left - {line};
    }
  }

  predicate FirstLess(p: Pair, q: Pair) {
    p.ai < q.ai
  }

  ghost predicate FirstsIncrease(pairs: seq<Pair>) {
    forall i, j | 0 <= i < j < |pairs| :: pairs[i].ai < pairs[j].ai
  }

  lemma SortPairs(pairs: seq<Pair>)
    requires DistinctKeys(pairs, First)
    ensures FirstsIncrease(Sort(pairs, FirstLess))
    ensures forall p :: p in Sort(pairs, FirstLess) <==> p in pairs
  {
    var sorted := Sort(pairs, FirstLess);
    SortSorted(pairs, FirstLess);
    SameMembers(sorted, pairs);
    DistinctUnderPermutation(pairs, sorted, First);
    forall i, j | 0 <= i < j < |sorted| ensures sorted[i].ai < sorted[j].ai {
      assert First(sorted[i]) != First(sorted[j]);
    }
  }

  // ---- Longest increasing chain by patience sorting ----

  // A chain of positions in the list of pairs, all below n.
  ghost predicate IsIndexChain(pairs: seq<Pair>, c: seq<nat>, n: nat) {
    && (forall k | 0 <= k < |c| :: c[k] < n && c[k] < |pairs|)
    && (c != [] ==> c[|c| - 1] < n)
    && (forall j, k | 0 <= j < k < |c| :: c[j] < c[k] && pairs[c[j]].bi < pairs[c[k]].bi)
  }

  // previous[k] leads to a chain of rank[k] predecessors of k.
  ghost predicate Links(pairs: seq<Pair>, previous: seq<int>, rank: seq<nat>, n: nat) {
    && n <= |pairs| && |previous| == |pairs| && |rank| == n
    && (forall k | 0 <= k < n && rank[k] == 0 :: previous[k] == -1)
    && (forall k | 0 <= k < n && rank[k] > 0 ::
          0 <= previous[k] < k && rank[previous[k]] == rank[k] - 1 && pairs[previous[k]].bi < pairs[k].bi)
  }

  // tails[t] ends a chain of t + 1 positions, and the ends grow with t.
  ghost predicate Tails(pairs: seq<Pair>, tails: seq<nat>, rank: seq<nat>, n: nat) {
    && n <= |pairs| && |rank| == n
    && (forall t | 0 <= t < |tails| :: tails[t] < n && rank[tails[t]] == t)
    && (forall t, u | 0 <= t < u < |tails| :: pairs[tails[t]].bi < pairs[tails[u]].bi)
  }

  // No chain below n is longer than tails, and none of its length ends lower.
  ghost predicate Best(pairs: seq<Pair>, tails: seq<nat>, n: nat)
    requires forall t | 0 <= t < |tails| :: tails[t] < |pairs|
  {
    forall c: seq<nat> {:trigger IsIndexChain(pairs, c, n)} | IsIndexChain(pairs, c, n) && c != [] ::
      |c| <= |tails| && pairs[tails[|c| - 1]].bi <= pairs[c[|c| - 1]].bi
  }

  // The binary search of the standard library, for the first tail not below the new pair.
  method FirstTailNotBelow(pairs: seq<Pair>, tails: seq<nat>, second: nat) returns (pos: nat)
    requires forall t | 0 <= t < |tails| :: tails[t] < |pairs|
    requires forall t, u | 0 <= t < u < |tails| :: pairs[tails[t]].bi < pairs[tails[u]].bi
    ensures pos <= |tails|
    ensures forall t | 0 <= t < pos :: pairs[tails[t]].bi < second
    ensures forall t | pos <= t < |tails| :: pairs[tails[t]].bi >= second
  {
    pos := 0;
    var hi := |tails|;
    while pos < hi
      invariant pos <= hi <= |tails|
      invariant forall t | 0 <= t < pos :: pairs[tails[t]].bi < second
      invariant forall t | hi <= t < |tails| :: pairs[tails[t]].bi >= second
    {
      var mid := (pos + hi) / 2;
      if pairs[tails[mid]].bi >= second {
        hi := mid;
      } else {
        pos := mid + 1;
      }
    }
  }

  // One chain below i + 1 against the updated tails.
  lemma BestChain(pairs: seq<Pair>, tails: seq<nat>, i: nat, pos: nat, tails': seq<nat>, c: seq<nat>)
    requires i < |pairs| && pos <= |tails|
    requires forall t | 0 <= t < |tails| :: tails[t] < |pairs|
    requires Best(pairs, tails, i)
    requires forall t | pos <= t < |tails| :: pairs[tails[t]].bi >= pairs[i].bi
    requires forall t | 0 <= t < pos :: pairs[tails[t]].bi < pairs[i].bi
    requires tails' == if pos == |tails| then tails + [i] else tails[pos := i]
    requires IsIndexChain(pairs, c, i + 1) && c != []
    ensures |c| <= |tails'| && pairs[tails'[|c| - 1]].bi <= pairs[c[|c| - 1]].bi
  {
    var n := |c|;
    if c[n - 1] < i {
      assert IsIndexChain(pairs, c, i);
      assert n <= |tails| && pairs[tails[n - 1]].bi <= pairs[c[n - 1]].bi;
    } else if n >= 2 {
      var front := c[..n - 1];
      assert IsIndexChain(pairs, front, i);
      assert front != [];
      assert front[n - 2] == c[n - 2];
      assert n - 1 <= |tails| && pairs[tails[n - 2]].bi <= pairs[c[n - 2]].bi < pairs[i].bi;
    }
  }

  lemma BestStep(pairs: seq<Pair>, tails: seq<nat>, i: nat, pos: nat, tails': seq<nat>)
    requires i < |pairs| && pos <= |tails|
    requires forall t | 0 <= t < |tails| :: tails[t] < |pairs|
    requires Best(pairs, tails, i)
    requires forall t | pos <= t < |tails| :: pairs[tails[t]].bi >= pairs[i].bi
    requires forall t | 0 <= t < pos :: pairs[tails[t]].bi < pairs[i].bi
    requires tails' == if pos == |tails| then tails + [i] else tails[pos := i]
    ensures forall t | 0 <= t < |tails'| :: tails'[t] < |pairs|
    ensures Best(pairs, tails', i + 1)
  {
    forall c: seq<nat> | IsIndexChain(pairs, c, i + 1) && c != []
      ensures |c| <= |tails'| && pairs[tails'[|c| - 1]].bi <= pairs[c[|c| - 1]].bi
    {
      BestChain(pairs, tails, i, pos, tails', c);
    }
  }

  lemma TailsStep(pairs: seq<Pair>, tails: seq<nat>, rank: seq<nat>, i: nat, pos: nat, tails': seq<nat>)
    requires i < |pairs| && pos <= |tails|
    requires Tails(pairs, tails, rank, i)
    requires forall t | pos <= t < |tails| :: pairs[tails[t]].bi >= pairs[i].bi
    requires forall t | 0 <= t < pos :: pairs[tails[t]].bi < pairs[i].bi
    requires tails' == if pos == |tails| then tails + [i] else tails[pos := i]
    ensures Tails(pairs, tails', rank + [pos], i + 1)
  {
    forall t, u | 0 <= t < u < |tails'| ensures pairs[tails'[t]].bi < pairs[tails'[u]].bi {
      if u == pos {
      } else if t == pos {
        assert pairs[i].bi <= pairs[tails[pos]].bi < pairs[tails[u]].bi;
      }
    }
  }

  lemma LinksStep(pairs: seq<Pair>, previous: seq<int>, tails: seq<nat>, rank: seq<nat>, i: nat, pos: nat)
    requires i < |pairs| && pos <= |tails|
    requires Links(pairs, previous, rank, i) && Tails(pairs, tails, rank, i)
    requires forall t | 0 <= t < pos :: pairs[tails[t]].bi < pairs[i].bi
    ensures Links(pairs, previous[i := if pos > 0 then tails[pos - 1] else -1], rank + [pos], i + 1)
  {
  }

  // One round of the loop: where the pair goes, and the tails it leaves.
  method Place(pairs: seq<Pair>, tails: seq<nat>, previous: array<int>, i: nat, ghost rank: seq<nat>)
    returns (tails': seq<nat>, ghost pos: nat)
    requires i < |pairs|
    requires Links(pairs, previous[..], rank, i) && Tails(pairs, tails, rank, i) && Best(pairs, tails, i)
    modifies previous
    ensures Links(pairs, previous[..], rank + [pos], i + 1)
    ensures Tails(pairs, tails', rank + [pos], i + 1)
    ensures Best(pairs, tails', i + 1)
    ensures tails' != []
  {
    var at := FirstTailNotBelow(pairs, tails, pairs[i].bi);
    pos := at;
    LinksStep(pairs, previous[..], tails, rank, i, pos);
    previous[i] := -1;
    if at > 0 {
      previous[i] := tails[at - 1];
    }
    assert previous[..] == old(previous[..])[i := if pos > 0 then tails[pos - 1] else -1];
    if at == |tails| {
      tails' := tails + [i];
    } else {
      tails' := tails[at := i];
    }
    BestStep(pairs, tails, i, pos, tails');
    TailsStep(pairs, tails, rank, i, pos, tails');
  }

  method LongestChain(pairs: seq<Pair>) returns (anchors: seq<Pair>)
    requires pairs != [] && FirstsIncrease(pairs)
    ensures Increasing(anchors)
    ensures forall k | 0 <= k < |anchors| :: anchors[k] in pairs
    ensures forall c: seq<nat> | IsIndexChain(pairs, c, |pairs|) :: |c| <= |anchors|
    ensures anchors != []
  {
    var tails: seq<nat> := [];
    var previous := new int[|pairs|];
    ghost var rank: seq<nat> := [];
    for i := 0 to |pairs|
      invariant Links(pairs, previous[..], rank, i)
      invariant Tails(pairs, tails, rank, i)
      invariant Best(pairs, tails, i)
      invariant i > 0 ==> tails != []
    {
      ghost var pos;
      tails, pos := Place(pairs, tails, previous, i, rank);
      rank := rank + [pos];
    }
    anchors := WalkBack(pairs, tails, previous[..], rank);
  }

  // The link of a position that is not first leads to a pair before it in both components.
  lemma LinkBack(pairs: seq<Pair>, previous: seq<int>, rank: seq<nat>, cursor: nat)
    requires FirstsIncrease(pairs) && Links(pairs, previous, rank, |pairs|) && cursor < |pairs| && rank[cursor] > 0
    ensures var p := previous[cursor];
      && 0 <= p < |pairs| && rank[p] == rank[cursor] - 1
      && pairs[p].ai < pairs[cursor].ai && pairs[p].bi < pairs[cursor].bi
  {
  }

  // A pair can be put in front of an increasing chain it is below.
  predicate Leads(p: Pair, chain: seq<Pair>) {
    chain != [] ==> p.ai < chain[0].ai && p.bi < chain[0].bi
  }

  lemma LongerChain(p: Pair, chain: seq<Pair>)
    requires Increasing(chain) && Leads(p, chain)
    ensures Increasing([p] + chain)
  {
  }

  method WalkBack(pairs: seq<Pair>, tails: seq<nat>, previous: seq<int>, ghost rank: seq<nat>)
    returns (anchors: seq<Pair>)
    requires FirstsIncrease(pairs) && tails != []
    requires Links(pairs, previous, rank, |pairs|) && Tails(pairs, tails, rank, |pairs|)
    ensures |anchors| == |tails| && Increasing(anchors)
    ensures forall k | 0 <= k < |anchors| :: anchors[k] in pairs
  {
    var chain := new Pair[|tails|];
    var cursor: int := tails[|tails| - 1];
    ghost var done: seq<Pair> := [];
    assert 0 <= cursor < |pairs| == |rank| && rank[cursor] == |tails| - 1 && |previous| == |pairs|;
    hide FirstsIncrease, Links, Tails;
    var i := |tails|;
    while i > 0
      invariant 0 <= i <= |tails| && |done| == |tails| - i && |rank| == |pairs| == |previous|
      invariant i > 0 ==> 0 <= cursor < |pairs| && rank[cursor] == i - 1 && Leads(pairs[cursor], done)
      invariant Increasing(done) && forall p | p in done :: p in pairs
      invariant chain[i..] == done
    {
      LongerChain(pairs[cursor], done);
      if i > 1 { LinkBack(pairs, previous, rank, cursor); }
      hide Increasing;
      i := i - 1;
      SetAt(chain, i, pairs[cursor]);
      done := [pairs[cursor]] + done;
      cursor := previous[cursor];
    }
    anchors := chain[..];
    assert chain[0..] == chain[..];
  }

  method SetAt(chain: array<Pair>, i: nat, p: Pair)
    requires i < chain.Length
    modifies chain
    ensures chain[i..] == [p] + old(chain[i + 1..])
  {
    ghost var rest := chain[i + 1..];
    chain[i] := p;
    assert chain[i + 1..] == rest;
  }

  // Every chain of anchors is a chain of positions in the sorted candidate list.
  lemma ChainHasIndices(a: seq<string>, b: seq<string>, pairs: seq<Pair>, c: seq<Pair>) returns (idx: seq<nat>)
    requires AllAnchors(a, b, pairs) && FirstsIncrease(pairs) && IsAnchorChain(a, b, c)
    ensures |idx| == |c| && IsIndexChain(pairs, idx, |pairs|)
  {
    assert forall k | 0 <= k < |c| :: c[k] in pairs;
    idx := seq(|c|, k requires 0 <= k < |c| => IndexOf(pairs, c[k]));
  }

  ghost function IndexOf(pairs: seq<Pair>, p: Pair): (i: nat)
    requires p in pairs
    ensures i < |pairs| && pairs[i] == p
  {
    var i :| 0 <= i < |pairs| && pairs[i] == p; i
  }

  method UniqueAnchors(a: seq<string>, b: seq<string>) returns (anchors: seq<Pair>)
    ensures IsAnchorChain(a, b, anchors)
    ensures forall c | IsAnchorChain(a, b, c) :: |c| <= |anchors|
  {
    var candidates := CandidatePairs(a, b);
    SortPairs(candidates);
    var pairs := Sort(candidates, FirstLess);
    assert AllAnchors(a, b, pairs) by {
      forall k | 0 <= k < |pairs| ensures IsAnchor(a, b, pairs[k]) { assert pairs[k] in candidates; }
    }
    if pairs == [] {
      anchors := [];
    } else {
      anchors := LongestChain(pairs);
    }
    forall c | IsAnchorChain(a, b, c) ensures |c| <= |anchors| {
      assert c != [] ==> c[0] in pairs;
      var idx := ChainHasIndices(a, b, pairs, c);
    }
  }
}
