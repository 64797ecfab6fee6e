// The line diff: strip what both files share at their ends, solve small cores exactly, and split
// large ones around anchors.
module DiffEngine {
  import opened Script
  import opened LcsTable
  import opened Anchors
  import opened AnchorBound

  function CommonPrefix(a: seq<string>, b: seq<string>): (n: nat)
    ensures n <= |a| && n <= |b|
  {
    if a != [] && b != [] && a[0] == b[0] then 1 + CommonPrefix(a[1..], b[1..]) else 0
  }

  function CommonSuffix(a: seq<string>, b: seq<string>): (n: nat)
    ensures n <= |a| && n <= |b|
  {
    if a != [] && b != [] && a[|a| - 1] == b[|b| - 1] then 1 + CommonSuffix(a[..|a| - 1], b[..|b| - 1]) else 0
  }

  lemma {:induction false} PrefixIsShared(a: seq<string>, b: seq<string>)
    ensures a[..CommonPrefix(a, b)] == b[..CommonPrefix(a, b)]
  {
    if a != [] && b != [] && a[0] == b[0] {
      var m := CommonPrefix(a[1..], b[1..]);
      PrefixIsShared(a[1..], b[1..]);
      assert a[..1 + m] == [a[0]] + a[1..][..m];
      assert b[..1 + m] == [b[0]] + b[1..][..m];
    }
  }

  lemma {:induction false} SuffixIsShared(a: seq<string>, b: seq<string>)
    ensures a[|a| - CommonSuffix(a, b)..] == b[|b| - CommonSuffix(a, b)..]
  {
    if a != [] && b != [] && a[|a| - 1] == b[|b| - 1] {
      var a', b' := a[..|a| - 1], b[..|b| - 1];
      var m := CommonSuffix(a', b');
      SuffixIsShared(a', b');
      assert a[|a| - 1 - m..] == a'[|a'| - m..] + [a[|a| - 1]];
      assert b[|b| - 1 - m..] == b'[|b'| - m..] + [b[|b| - 1]];
    }
  }

  // When the engine answers exactly: once the shared ends are gone, one side is empty or the
  // table for the rest is small enough.
  predicate SolvedExactly(before: seq<string>, after: seq<string>) {
    var p := CommonPrefix(before, after);
    var a, b := before[p..], after[p..];
    var q := CommonSuffix(a, b);
    Exact(a[..|a| - q], b[..|b| - q])
  }

  lemma CoreOfPrefix(a: seq<string>, b: seq<string>)
    ensures var p := CommonPrefix(a, b);
      a == a[..p] + a[p..] && b == a[..p] + b[p..] && LcsLength(a, b) == p + LcsLength(a[p..], b[p..])
  {
    var p := CommonPrefix(a, b);
    PrefixIsShared(a, b);
    assert a == a[..p] + a[p..] && b == b[..p] + b[p..];
    LcsOfCommonPrefix(a[..p], a[p..], b[p..]);
  }

  lemma CoreOfSuffix(a: seq<string>, b: seq<string>)
    ensures var q := CommonSuffix(a, b);
      && a == a[..|a| - q] + a[|a| - q..] && b == b[..|b| - q] + a[|a| - q..]
      && LcsLength(a, b) == LcsLength(a[..|a| - q], b[..|b| - q]) + q
  {
    var q := CommonSuffix(a, b);
    SuffixIsShared(a, b);
    hide CommonSuffix, LcsLength;
    var tail := a[|a| - q..];
    assert a == a[..|a| - q] + tail && b == b[..|b| - q] + tail;
    LcsOfCommonSuffix(a[..|a| - q], b[..|b| - q], tail);
  }

  lemma {:induction false} PrefixBoundsChains(a: seq<string>, b: seq<string>, n: nat)
    requires var p := CommonPrefix(a, b); ChainsAtMost(a[p..], b[p..], n)
    ensures ChainsAtMost(a, b, CommonPrefix(a, b) + n)
  {
    hide ChainsAtMost;
    if a != [] && b != [] && a[0] == b[0] {
      var p := CommonPrefix(a[1..], b[1..]);
      assert a[1 + p..] == a[1..][p..] && b[1 + p..] == b[1..][p..];
      PrefixBoundsChains(a[1..], b[1..], n);
      FirstLineAddsOne(a, b, p + n);
    }
  }

  lemma {:induction false} SuffixBoundsChains(a: seq<string>, b: seq<string>, n: nat)
    requires var q := CommonSuffix(a, b); ChainsAtMost(a[..|a| - q], b[..|b| - q], n)
    ensures ChainsAtMost(a, b, CommonSuffix(a, b) + n)
  {
    hide ChainsAtMost;
    assert a[..|a|] == a && b[..|b|] == b;
    if a != [] && b != [] && a[|a| - 1] == b[|b| - 1] {
      var a', b' := a[..|a| - 1], b[..|b| - 1];
      var q := CommonSuffix(a', b');
      assert a[..|a| - 1 - q] == a'[..|a'| - q] && b[..|b| - 1 - q] == b'[..|b'| - q];
      SuffixBoundsChains(a', b', n);
      LastLineAddsOne(a, b, q + n);
    }
  }

  // ---- How far a script has come through both files ----

  ghost predicate Reached(part: seq<Step>, a: seq<string>, b: seq<string>, i: nat, j: nat) {
    i <= |a| && j <= |b| && Faithful(part, a[..i], b[..j])
  }

  lemma ReachedStart(a: seq<string>, b: seq<string>)
    ensures Reached([], a, b, 0, 0) && Kept([]) == []
  {
  }

  lemma ReachedEnd(part: seq<Step>, a: seq<string>, b: seq<string>)
    requires Reached(part, a, b, |a|, |b|)
    ensures Faithful(part, a, b)
  {
    assert a[..|a|] == a && b[..|b|] == b;
  }

  lemma ReachedKeep(part: seq<Step>, a: seq<string>, b: seq<string>, i: nat, j: nat)
    requires Reached(part, a, b, i, j) && i < |a| && j < |b| && a[i] == b[j]
    ensures Reached(part + [Step(Keep, a[i])], a, b, i + 1, j + 1)
    ensures |Kept(part + [Step(Keep, a[i])])| == |Kept(part)| + 1
  {
    hide OldSide, NewSide, Kept;
    SidesOfConcat(part, [Step(Keep, a[i])]);
    SidesOfSingle(Step(Keep, a[i]));
    assert a[..i + 1] == a[..i] + [a[i]] && b[..j + 1] == b[..j] + [b[j]];
  }

  lemma ReachedDelete(part: seq<Step>, a: seq<string>, b: seq<string>, i: nat, j: nat)
    requires Reached(part, a, b, i, j) && i < |a|
    ensures Reached(part + [Step(Delete, a[i])], a, b, i + 1, j)
    ensures Kept(part + [Step(Delete, a[i])]) == Kept(part)
  {
    hide OldSide, NewSide, Kept;
    SidesOfConcat(part, [Step(Delete, a[i])]);
    SidesOfSingle(Step(Delete, a[i]));
    assert a[..i + 1] == a[..i] + [a[i]];
  }

  lemma ReachedInsert(part: seq<Step>, a: seq<string>, b: seq<string>, i: nat, j: nat)
    requires Reached(part, a, b, i, j) && j < |b|
    ensures Reached(part + [Step(Insert, b[j])], a, b, i, j + 1)
    ensures Kept(part + [Step(Insert, b[j])]) == Kept(part)
  {
    hide OldSide, NewSide, Kept;
    SidesOfConcat(part, [Step(Insert, b[j])]);
    SidesOfSingle(Step(Insert, b[j]));
    assert b[..j + 1] == b[..j] + [b[j]];
  }

  // A script for the stretch between two points carries the whole from one to the other.
  lemma ReachedJump(part: seq<Step>, more: seq<Step>, a: seq<string>, b: seq<string>, i: nat, j: nat, i': nat, j': nat)
    requires Reached(part, a, b, i, j) && i <= i' <= |a| && j <= j' <= |b|
    requires Faithful(more, a[i..i'], b[j..j'])
    ensures Reached(part + more, a, b, i', j')
    ensures |Kept(part + more)| >= |Kept(part)|
  {
    hide OldSide, NewSide, Kept;
    SidesOfConcat(part, more);
    assert a[..i'] == a[..i] + a[i..i'] && b[..j'] == b[..j] + b[j..j'];
  }

  // Reached, with as many lines kept as still allows an optimal script.
  ghost predicate OnTrack(part: seq<Step>, a: seq<string>, b: seq<string>, i: nat, j: nat) {
    Reached(part, a, b, i, j) && |Kept(part)| + LcsLength(a[i..], b[j..]) == LcsLength(a, b)
  }

  lemma OnTrackStart(a: seq<string>, b: seq<string>)
    ensures OnTrack([], a, b, 0, 0)
  {
    assert a[0..] == a && b[0..] == b;
  }

  lemma OnTrackEnd(part: seq<Step>, a: seq<string>, b: seq<string>)
    requires OnTrack(part, a, b, |a|, |b|)
    ensures Faithful(part, a, b) && |Kept(part)| == LcsLength(a, b)
  {
    assert a[..|a|] == a && b[..|b|] == b && a[|a|..] == [];
  }

  lemma EdgeOnTrack(part: seq<Step>, a: seq<string>, b: seq<string>, i: nat, j: nat)
    requires OnTrack(part, a, b, i, j)
    ensures i == |a| && j < |b| ==> OnTrack(part + [Step(Insert, b[j])], a, b, i, j + 1)
    ensures i < |a| && j == |b| ==> OnTrack(part + [Step(Delete, a[i])], a, b, i + 1, j)
  {
    if i == |a| && j < |b| { ReachedInsert(part, a, b, i, j); }
    if i < |a| && j == |b| { ReachedDelete(part, a, b, i, j); }
  }

  lemma StepOnTrack(part: seq<Step>, a: seq<string>, b: seq<string>, i: nat, j: nat)
    requires OnTrack(part, a, b, i, j) && i < |a| && j < |b|
    ensures a[i] == b[j] ==> OnTrack(part + [Step(Keep, a[i])], a, b, i + 1, j + 1)
    ensures a[i] != b[j] && LcsLength(a[i + 1..], b[j..]) >= LcsLength(a[i..], b[j + 1..]) ==>
      OnTrack(part + [Step(Delete, a[i])], a, b, i + 1, j)
    ensures a[i] != b[j] && LcsLength(a[i + 1..], b[j..]) < LcsLength(a[i..], b[j + 1..]) ==>
      OnTrack(part + [Step(Insert, b[j])], a, b, i, j + 1)
  {
    assert a[i..][1..] == a[i + 1..] && b[j..][1..] == b[j + 1..];
    if a[i] == b[j] { ReachedKeep(part, a, b, i, j); }
    ReachedDelete(part, a, b, i, j);
    ReachedInsert(part, a, b, i, j);
  }

  lemma ReplacementScript(a: seq<string>, b: seq<string>)
    ensures Faithful(All(Delete, a) + All(Insert, b), a, b)
    ensures Kept(All(Delete, a) + All(Insert, b)) == []
    ensures a == [] || b == [] ==> LcsLength(a, b) == 0
  {
    hide OldSide, NewSide, Kept;
    SidesOfAll(Delete, a);
    SidesOfAll(Insert, b);
    SidesOfConcat(All(Delete, a), All(Insert, b));
  }

  lemma CommonEnd(part: seq<Step>, core: seq<Step>, common: seq<string>, before: seq<string>, after: seq<string>, p: nat)
    requires Reached(part, before, after, p, p)
    requires OldSide(core) + common == before[p..] && NewSide(core) + common == after[p..]
    ensures Faithful(part + core + All(Keep, common), before, after)
    ensures |Kept(part + core + All(Keep, common))| == |Kept(part)| + |Kept(core)| + |common|
  {
    hide OldSide, NewSide, Kept;
    SidesOfAll(Keep, common);
    SidesOfConcat(part + core, All(Keep, common));
    SidesOfConcat(part, core);
    assert before[..p] + before[p..] == before && after[..p] + after[p..] == after;
    assert before[..p] + (OldSide(core) + common) == before[..p] + OldSide(core) + common;
    assert after[..p] + (NewSide(core) + common) == after[..p] + NewSide(core) + common;
  }

  // What a pass over two files promises of the steps it appends.
  ghost predicate Solves(part: seq<Step>, before: seq<string>, after: seq<string>) {
    && Faithful(part, before, after)
    && (SolvedExactly(before, after) ==> |Kept(part)| == LcsLength(before, after))
    && ChainsAtMost(before, after, |Kept(part)|)
  }

  ghost predicate SolvesCore(part: seq<Step>, a: seq<string>, b: seq<string>) {
    && Faithful(part, a, b)
    && (Exact(a, b) ==> |Kept(part)| == LcsLength(a, b))
    && ChainsAtMost(a, b, |Kept(part)|)
  }

  lemma EndsAroundCore(part: seq<Step>, core: seq<Step>, before: seq<string>, after: seq<string>, p: nat, suffix: nat)
    requires p == CommonPrefix(before, after) && Reached(part, before, after, p, p) && |Kept(part)| == p
    requires var a, b := before[p..], after[p..];
      suffix == CommonSuffix(a, b) && SolvesCore(core, a[..|a| - suffix], b[..|b| - suffix])
    ensures var a := before[p..]; Solves(part + core + All(Keep, a[|a| - suffix..]), before, after)
  {
    hide OldSide, NewSide, Kept, LcsLength, CommonPrefix, CommonSuffix, ChainsAtMost;
    var a, b := before[p..], after[p..];
    CoreOfPrefix(before, after);
    CoreOfSuffix(a, b);
    SuffixBoundsChains(a, b, |Kept(core)|);
    PrefixBoundsChains(before, after, suffix + |Kept(core)|);
    CommonEnd(part, core, a[|a| - suffix..], before, after, p);
  }

  // Small enough, or trivial enough, to be solved exactly.
  predicate Exact(x: seq<string>, y: seq<string>) {
    x == [] || y == [] || |x| <= MAX_LCS_CELLS / |y|
  }

  // Shared ends or not, files whose line counts multiply to at most 200000 are solved exactly.
  lemma SmallIsExact(before: seq<string>, after: seq<string>)
    requires |before| * |after| <= 200000
    ensures SolvedExactly(before, after)
  {
    var p := CommonPrefix(before, after);
    var a, b := before[p..], after[p..];
    var q := CommonSuffix(a, b);
    hide CommonPrefix, CommonSuffix;
    if |b| - q > 0 {
      ProductShrinks(|a| - q, |b| - q, |before|, |after|);
      SmallEnough(|a| - q, |b| - q);
    }
  }

  lemma ProductShrinks(m: nat, n: nat, m': nat, n': nat)
    requires m <= m' && n <= n'
    ensures m * n <= m' * n'
  {
    assert m * n <= m * n' by { assert m * (n' - n) >= 0; }
    assert m * n' <= m' * n' by { assert (m' - m) * n' >= 0; }
  }

  const TABLE_LIMIT: nat := 400002

  class Differ {
    var steps: seq<Step>
    // The largest table allocated so far.
    ghost var peak: nat

    constructor ()
      ensures steps == [] && peak == 0
    {
      steps := [];
      peak := 0;
    }

    method AppendAll(kind: Kind, lines: seq<string>)
      modifies this`steps
      ensures steps == old(steps) + All(kind, lines)
    {
      for i := 0 to |lines|
        invariant steps == old(steps) + All(kind, lines[..i])
      {
        steps := steps + [Step(kind, lines[i])];
        assert All(kind, lines[..i + 1]) == All(kind, lines[..i]) + [Step(kind, lines[i])];
      }
      assert lines[..|lines|] == lines;
    }

    method AppendLcs(a: seq<string>, b: seq<string>) returns (ghost part: seq<Step>)
      requires peak <= TABLE_LIMIT && Cells(a, b) <= TABLE_LIMIT
      modifies this
      ensures steps == old(steps) + part
      ensures Faithful(part, a, b) && |Kept(part)| == LcsLength(a, b)
      ensures peak <= TABLE_LIMIT
    {
      hide OldSide, NewSide, Kept, LcsLength;
      var width := |b| + 1;
      var dp := FillTable(a, b);
      peak := if peak >= dp.Length then peak else dp.Length;
      part := [];
      var i: nat, j: nat := 0, 0;
      OnTrackStart(a, b);
      while i < |a| || j < |b|
        invariant dp.Length == Cells(a, b) && Filled(dp, a, b, 0, 0)
        invariant OnTrack(part, a, b, i, j)
        invariant steps == old(steps) + part
        invariant peak <= TABLE_LIMIT
        decreases |a| - i + |b| - j
      {
        var step;
        step, i, j := NextStep(dp, a, b, i, j, part);
        steps := steps + [step];
        part := part + [step];
      }
      OnTrackEnd(part, a, b);
    }

    // One choice of the walk through the table.
    method NextStep(dp: array<nat>, a: seq<string>, b: seq<string>, i: nat, j: nat, ghost part: seq<Step>)
      returns (step: Step, i': nat, j': nat)
      requires dp.Length == Cells(a, b) && Filled(dp, a, b, 0, 0)
      requires OnTrack(part, a, b, i, j) && (i < |a| || j < |b|)
      ensures OnTrack(part + [step], a, b, i', j')
      ensures |a| - i' + |b| - j' < |a| - i + |b| - j
    {
      hide OldSide, NewSide, Kept, LcsLength;
      var width := |b| + 1;
      if i == |a| {
        EdgeOnTrack(part, a, b, i, j);
        return Step(Insert, b[j]), i, j + 1;
      } else if j == |b| {
        EdgeOnTrack(part, a, b, i, j);
        return Step(Delete, a[i]), i + 1, j;
      }
      StepOnTrack(part, a, b, i, j);
      assert Holds(dp, a, b, i + 1, j) && Holds(dp, a, b, i, j + 1);
      CellInRange(i + 1, j, |a| + 1, width);
      CellInRange(i, j + 1, |a| + 1, width);
      if a[i] == b[j] {
        return Step(Keep, a[i]), i + 1, j + 1;
      } else if dp[Cell(i + 1, j, width)] >= dp[Cell(i, j + 1, width)] {
        return Step(Delete, a[i]), i + 1, j;
      } else {
        return Step(Insert, b[j]), i, j + 1;
      }
    }

    // The core once the shared ends are stripped.
    method ProcessCore(a: seq<string>, b: seq<string>) returns (ghost part: seq<Step>)
      requires peak <= TABLE_LIMIT
      modifies this
      ensures steps == old(steps) + part
      ensures SolvesCore(part, a, b)
      ensures peak <= TABLE_LIMIT
      decreases |a| + |b|, 1
    {
      hide OldSide, NewSide, Kept, LcsLength;
      LcsBoundsChains(a, b);
      if a == [] {
        AppendAll(Insert, b);
        part := All(Delete, a) + All(Insert, b);
        ReplacementScript(a, b);
      } else if b == [] {
        AppendAll(Delete, a);
        part := All(Delete, a) + All(Insert, b);
        ReplacementScript(a, b);
      } else if |a| <= MAX_LCS_CELLS / |b| {
        GuardBoundsTable(a, b);
        part := AppendLcs(a, b);
      } else {
        var anchors := UniqueAnchors(a, b);
        if anchors == [] {
          AppendAll(Delete, a);
          AppendAll(Insert, b);
          part := All(Delete, a) + All(Insert, b);
          ReplacementScript(a, b);
        } else {
          part := AroundAnchors(a, b, anchors);
        }
      }
    }

    method AroundAnchors(a: seq<string>, b: seq<string>, anchors: seq<Pair>) returns (ghost part: seq<Step>)
      requires peak <= TABLE_LIMIT
      requires IsAnchorChain(a, b, anchors) && anchors != []
      modifies this
      ensures steps == old(steps) + part
      ensures Faithful(part, a, b)
      ensures |Kept(part)| >= |anchors|
      ensures peak <= TABLE_LIMIT
      decreases |a| + |b|, 0
    {
      hide ChainsAtMost, SolvedExactly, OldSide, NewSide, Kept, LcsLength;
      var left, right := 0, 0;
      part := [];
      ReachedStart(a, b);
      ghost var more;
      for k := 0 to |anchors|
        invariant k > 0 ==> left == anchors[k - 1].ai + 1 && right == anchors[k - 1].bi + 1
        invariant k == 0 ==> left == 0 && right == 0
        invariant Reached(part, a, b, left, right) && |Kept(part)| >= k
        invariant steps == old(steps) + part
        invariant peak <= TABLE_LIMIT
      {
        var anchor := anchors[k];
        assert IsAnchor(a, b, anchor);
        more := Process(a[left..anchor.ai], b[right..anchor.bi]);
        ReachedJump(part, more, a, b, left, right, anchor.ai, anchor.bi);
        part := part + more;
        steps := steps + [Step(Keep, a[anchor.ai])];
        ReachedKeep(part, a, b, anchor.ai, anchor.bi);
        part := part + [Step(Keep, a[anchor.ai])];
        left, right := anchor.ai + 1, anchor.bi + 1;
      }
      more := Process(a[left..], b[right..]);
      ReachedJump(part, more, a, b, left, right, |a|, |b|);
      part := part + more;
      ReachedEnd(part, a, b);
    }

    method KeepPrefix(before: seq<string>, after: seq<string>)
      returns (a: seq<string>, b: seq<string>, ghost part: seq<Step>)
      modifies this`steps
      ensures steps == old(steps) + part
      ensures var p := CommonPrefix(before, after);
        a == before[p..] && b == after[p..] && Reached(part, before, after, p, p) && |Kept(part)| == p
    {
      hide OldSide, NewSide, Kept, LcsLength;
      a, b := before, after;
      ghost var p := 0;
      part := [];
      ReachedStart(before, after);
      while a != [] && b != [] && a[0] == b[0]
        invariant p <= |before| && p <= |after| && a == before[p..] && b == after[p..]
        invariant CommonPrefix(before, after) == p + CommonPrefix(a, b)
        invariant steps == old(steps) + part
        invariant Reached(part, before, after, p, p) && |Kept(part)| == p
      {
        ReachedKeep(part, before, after, p, p);
        steps := steps + [Step(Keep, a[0])];
        part := part + [Step(Keep, a[0])];
        a, b, p := a[1..], b[1..], p + 1;
      }
    }

    method Process(before: seq<string>, after: seq<string>) returns (ghost part: seq<Step>)
      requires peak <= TABLE_LIMIT
      modifies this
      ensures steps == old(steps) + part
      ensures Solves(part, before, after)
      ensures peak <= TABLE_LIMIT
      decreases |before| + |after|, 2
    {
      hide SolvesCore, Reached, CommonPrefix, CommonSuffix, Solves;
      var a, b;
      a, b, part := KeepPrefix(before, after);
      var suffix := SuffixLength(a, b);
      var common := a[|a| - suffix..];
      ghost var core := ProcessCore(a[..|a| - suffix], b[..|b| - suffix]);
      AppendAll(Keep, common);
      EndsAroundCore(part, core, before, after, CommonPrefix(before, after), suffix);
      part := part + core + All(Keep, common);
    }
  }

  method SuffixLength(a: seq<string>, b: seq<string>) returns (suffix: nat)
    ensures suffix == CommonSuffix(a, b)
  {
    suffix := 0;
    assert a[..|a|] == a && b[..|b|] == b;
    while suffix < |a| && suffix < |b| && a[|a| - 1 - suffix] == b[|b| - 1 - suffix]
      invariant suffix <= |a| && suffix <= |b|
      invariant CommonSuffix(a, b) == suffix + CommonSuffix(a[..|a| - suffix], b[..|b| - suffix])
    {
      assert a[..|a| - suffix][..|a| - suffix - 1] == a[..|a| - (suffix + 1)];
      assert b[..|b| - suffix][..|b| - suffix - 1] == b[..|b| - (suffix + 1)];
      suffix := suffix + 1;
    }
  }

  // Every script turns before into after exactly. When the core is solved exactly, as it is for files
  // whose line counts multiply to at most 200000, no faithful script changes fewer lines; on every
  // input it keeps at least as many lines as any forward chain of lines that occur once on each side.
  method DiffLines(before: seq<string>, after: seq<string>) returns (steps: seq<Step>)
    ensures Faithful(steps, before, after)
    ensures SolvedExactly(before, after) ==> Minimal(steps)
    ensures |before| * |after| <= 200000 ==> Minimal(steps)
    ensures ChainsAtMost(before, after, |Kept(steps)|)
  {
    hide OldSide, NewSide, Kept, LcsLength, SolvedExactly;
    if |before| * |after| <= 200000 { SmallIsExact(before, after); }
    var differ := new Differ();
    ghost var part := differ.Process(before, after);
    steps := differ.steps;
    assert steps == part;
    if SolvedExactly(before, after) {
      KeepingLcsIsMinimal(steps);
    }
  }
}
