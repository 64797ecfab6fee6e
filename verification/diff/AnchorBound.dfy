// How many lines any forward chain of unique shared lines can claim: the yardstick every path of
// the diff is held to, the bounded fallback included.
module AnchorBound {
  import opened Script
  import opened Anchors

  ghost predicate ChainsAtMost(a: seq<string>, b: seq<string>, n: nat) {
    forall c: seq<Pair> | IsAnchorChain(a, b, c) :: |c| <= n
  }

  // Lines picked at strictly increasing positions form a subsequence.
  lemma {:induction false} PickedIsSubsequence(s: seq<string>, a: seq<string>, at: seq<nat>)
    requires |s| == |at|
    requires forall k | 0 <= k < |at| :: at[k] < |a| && a[at[k]] == s[k]
    requires forall j, k | 0 <= j < k < |at| :: at[j] < at[k]
    ensures IsSubsequence(s, a)
    decreases |a|
  {
    if s != [] {
      assert at[0] < |a|;
      var a' := a[1..];
      if at[0] == 0 {
        PickedIsSubsequence(s[1..], a', seq(|at| - 1, k requires 0 <= k < |at| - 1 => (at[k + 1] - 1) as nat));
      } else {
        PickedIsSubsequence(s, a', seq(|at|, k requires 0 <= k < |at| =>
          (assert at[k] >= at[0]; (at[k] - 1) as nat)));
      }
    }
  }

  lemma LcsBoundsChains(a: seq<string>, b: seq<string>)
    ensures ChainsAtMost(a, b, LcsLength(a, b))
  {
    forall c: seq<Pair> | IsAnchorChain(a, b, c) ensures |c| <= LcsLength(a, b) {
      assert forall k | 0 <= k < |c| :: IsAnchor(a, b, c[k]);
      var lines := seq(|c|, k requires 0 <= k < |c| => a[c[k].ai]);
      PickedIsSubsequence(lines, a, seq(|c|, k requires 0 <= k < |c| => c[k].ai));
      PickedIsSubsequence(lines, b, seq(|c|, k requires 0 <= k < |c| => c[k].bi));
      LcsLengthBounds(lines, a, b);
    }
  }

  function Shift(c: seq<Pair>): (d: seq<Pair>)
    requires forall k | 0 <= k < |c| :: c[k].ai > 0 && c[k].bi > 0
    ensures |d| == |c|
  {
    seq(|c|, k requires 0 <= k < |c| => Pair(c[k].ai - 1, c[k].bi - 1))
  }

  lemma ShiftedChain(a: seq<string>, b: seq<string>, c: seq<Pair>)
    requires a != [] && b != [] && IsAnchorChain(a, b, c)
    requires forall k | 0 <= k < |c| :: c[k].ai > 0 && c[k].bi > 0
    ensures IsAnchorChain(a[1..], b[1..], Shift(c))
  {
    forall k | 0 <= k < |c| ensures IsAnchor(a[1..], b[1..], Shift(c)[k]) {
      assert IsAnchor(a, b, c[k]);
    }
  }

  lemma FirstLineAddsOne(a: seq<string>, b: seq<string>, n: nat)
    requires a != [] && b != [] && a[0] == b[0] && ChainsAtMost(a[1..], b[1..], n)
    ensures ChainsAtMost(a, b, n + 1)
  {
    forall c: seq<Pair> | IsAnchorChain(a, b, c) ensures |c| <= n + 1 {
      if c != [] {
        assert IsAnchor(a, b, c[0]);
        if c[0].ai > 0 && c[0].bi > 0 {
          ShiftedChain(a, b, c);
        } else {
          ShiftedChain(a, b, c[1..]);
        }
      }
    }
  }

  lemma FrontChain(a: seq<string>, b: seq<string>, c: seq<Pair>)
    requires a != [] && b != [] && IsAnchorChain(a, b, c)
    requires forall k | 0 <= k < |c| :: c[k].ai < |a| - 1 && c[k].bi < |b| - 1
    ensures IsAnchorChain(a[..|a| - 1], b[..|b| - 1], c)
  {
    forall k | 0 <= k < |c| ensures IsAnchor(a[..|a| - 1], b[..|b| - 1], c[k]) {
      assert IsAnchor(a, b, c[k]);
    }
  }

  lemma LastLineAddsOne(a: seq<string>, b: seq<string>, n: nat)
    requires a != [] && b != [] && a[|a| - 1] == b[|b| - 1] && ChainsAtMost(a[..|a| - 1], b[..|b| - 1], n)
    ensures ChainsAtMost(a, b, n + 1)
  {
    forall c: seq<Pair> | IsAnchorChain(a, b, c) ensures |c| <= n + 1 {
      if c != [] {
        var last := c[|c| - 1];
        assert IsAnchor(a, b, last);
        assert forall k | 0 <= k < |c| :: c[k].ai <= last.ai && c[k].bi <= last.bi;
        if last.ai < |a| - 1 && last.bi < |b| - 1 {
          FrontChain(a, b, c);
        } else {
          FrontChain(a, b, c[..|c| - 1]);
        }
      }
    }
  }
}
