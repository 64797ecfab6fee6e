// Grouping a script into hunks, and applying hunks the way a patch tool does.
module Hunks {
  import opened Wrappers
  import opened Script

  const CONTEXT: nat := 3

  datatype Hunk = Hunk(oldStart: nat, oldCount: nat, newStart: nat, newCount: nat, body: seq<Step>)

  predicate Changed(step: Step) {
    !step.kind.Keep?
  }

  function Min(a: int, b: int): int {
    if a <= b then a else b
  }

  function Max(a: int, b: int): int {
    if a >= b then a else b
  }

  // The steps a hunk shows, and the first and last change among them.
  datatype Range = Range(start: nat, first: nat, last: nat, end: nat)

  ghost predicate IsRange(steps: seq<Step>, r: Range) {
    && r.first <= r.last < |steps| && Changed(steps[r.first]) && Changed(steps[r.last])
    && r.start == (if r.first < 3 then 0 else r.first - 3) && r.end == (if r.last + 4 > |steps| then |steps| else r.last + 4)
    && (forall i | r.start <= i < r.first :: !Changed(steps[i]))
    && (forall i | r.last < i < r.end :: !Changed(steps[i]))
    && (forall i | r.first <= i && i + 7 <= r.last :: !Quiet(steps, i))
  }

  // Seven unchanged steps split a hunk.
  ghost predicate Quiet(steps: seq<Step>, i: nat) {
    i + 7 <= |steps| && forall j | i <= j < i + 7 :: !Changed(steps[j])
  }

  // Every range is a change group with three lines of context, never wide enough to split; a step is
  // always left unshown between two ranges; and what no range covers is unchanged.
  ghost predicate Grouped(steps: seq<Step>, ranges: seq<Range>) {
    && (forall k | 0 <= k < |ranges| :: IsRange(steps, ranges[k]))
    && (forall j, k | 0 <= j < k < |ranges| :: ranges[j].end < ranges[k].start)
    && (forall i | 0 <= i < |steps| && Changed(steps[i]) :: ShownBySome(ranges, i))
  }

  ghost predicate ShownBySome(ranges: seq<Range>, i: nat) {
    exists k :: 0 <= k < |ranges| && Covers(ranges[k], i)
  }

  predicate InBounds(steps: seq<Step>, ranges: seq<Range>) {
    forall k | 0 <= k < |ranges| :: ranges[k].start <= ranges[k].end <= |steps|
  }

  predicate Covers(r: Range, i: nat) {
    r.start <= i < r.end
  }

  // A changed step is shown by one hunk and no other.
  lemma ShownOnce(steps: seq<Step>, ranges: seq<Range>, i: nat)
    requires Grouped(steps, ranges) && i < |steps| && Changed(steps[i])
    ensures exists k :: 0 <= k < |ranges| && Covers(ranges[k], i) &&
                        forall j | 0 <= j < |ranges| && Covers(ranges[j], i) :: j == k
  {
    hide IsRange;
    var k :| 0 <= k < |ranges| && Covers(ranges[k], i);
    forall j | 0 <= j < |ranges| && Covers(ranges[j], i) ensures j == k {
    }
  }

  // The header position of a side: lines before the hunk, counted from one unless the side is empty there.
  function StartLine(linesBefore: nat, count: nat): nat {
    if count != 0 then linesBefore + 1 else linesBefore
  }

  function HunkOf(steps: seq<Step>, r: Range): Hunk
    requires r.start <= r.end <= |steps|
  {
    var body := steps[r.start..r.end];
    var oldCount, newCount := |OldSide(body)|, |NewSide(body)|;
    Hunk(StartLine(|OldSide(steps[..r.start])|, oldCount), oldCount,
         StartLine(|NewSide(steps[..r.start])|, newCount), newCount, body)
  }

  function HunksOf(steps: seq<Step>, ranges: seq<Range>): (hunks: seq<Hunk>)
    requires InBounds(steps, ranges)
    ensures |hunks| == |ranges|
  {
    seq(|ranges|, k requires 0 <= k < |ranges| => HunkOf(steps, ranges[k]))
  }

  // A hunk counts no lines on a side only when that whole side of the diff is empty, and then
  // its header says line 0.
  lemma ZeroCountMeansEmptySide(steps: seq<Step>, r: Range)
    requires IsRange(steps, r)
    ensures HunkOf(steps, r).oldCount == 0 <==> OldSide(steps) == []
    ensures HunkOf(steps, r).newCount == 0 <==> NewSide(steps) == []
    ensures HunkOf(steps, r).oldCount == 0 ==> HunkOf(steps, r).oldStart == 0
    ensures HunkOf(steps, r).newCount == 0 ==> HunkOf(steps, r).newStart == 0
  {
    SidesAround(steps, r);
    BodyShows(steps, r);
    NothingBefore(steps, r);
    hide OldSide, NewSide, IsRange;
  }

  lemma {:induction false} SidesAround(steps: seq<Step>, r: Range)
    requires r.start <= r.end <= |steps|
    ensures OldSide(steps) == OldSide(steps[..r.start]) + OldSide(steps[r.start..r.end]) + OldSide(steps[r.end..])
    ensures NewSide(steps) == NewSide(steps[..r.start]) + NewSide(steps[r.start..r.end]) + NewSide(steps[r.end..])
  {
    hide OldSide, NewSide;
    var before, body, rest := steps[..r.start], steps[r.start..r.end], steps[r.end..];
    assert steps == before + body + rest;
    SidesOfConcat(before + body, rest);
    SidesOfConcat(before, body);
  }

  // A hunk that leaves a step out shows a kept line, so it counts lines on both sides.
  lemma BodyShows(steps: seq<Step>, r: Range)
    requires IsRange(steps, r)
    ensures r.start <= r.end <= |steps| && (r.start > 0 || r.end < |steps|) ==>
      OldSide(steps[r.start..r.end]) != [] && NewSide(steps[r.start..r.end]) != []
  {
    hide OldSide, NewSide;
    if r.start > 0 || r.end < |steps| {
      var body := steps[r.start..r.end];
      if r.start > 0 {
        KeepShowsOnBothSides(body, 0) by { assert body[0] == steps[r.start]; }
      } else {
        KeepShowsOnBothSides(body, r.last + 1 - r.start) by { assert body[r.last + 1 - r.start] == steps[r.last + 1]; }
      }
    }
  }

  // A hunk that shows its whole file starts at the beginning.
  lemma NothingBefore(steps: seq<Step>, r: Range)
    requires r.start <= r.end <= |steps|
    ensures r.start == 0 ==> OldSide(steps[..r.start]) == [] && NewSide(steps[..r.start]) == []
    ensures r.end == |steps| ==> OldSide(steps[r.end..]) == [] && NewSide(steps[r.end..]) == []
  {
  }

  lemma KeepShowsOnBothSides(body: seq<Step>, i: nat)
    requires i < |body| && !Changed(body[i])
    ensures OldSide(body) != [] && NewSide(body) != []
  {
    assert body == body[..i] + [body[i]] + body[i + 1..];
    SidesOfConcat(body[..i] + [body[i]], body[i + 1..]);
    SidesOfConcat(body[..i], [body[i]]);
    SidesOfSingle(body[i]);
  }

  // ---- Applying ----

  // Applies hunks to the lines from position at on, out lines having been produced so far. Both
  // header positions, both counts and every context line must fit.
  function ApplyFrom(lines: seq<string>, hunks: seq<Hunk>, at: nat, out: nat): (result: Option<seq<string>>)
    requires at <= |lines|
    decreases |hunks|
  {
    if hunks == [] then Some(lines[at..])
    else
      var h := hunks[0];
      var skip := h.oldStart - (if h.oldCount == 0 then 0 else 1) - at;
      var oldLines, newLines := OldSide(h.body), NewSide(h.body);
      if skip < 0 || at + skip + |oldLines| > |lines| then None
      else if h.oldCount != |oldLines| || h.newCount != |newLines| then None
      else if h.newStart - (if h.newCount == 0 then 0 else 1) != out + skip then None
      else if lines[at + skip..at + skip + |oldLines|] != oldLines then None
      else
        var rest :- ApplyFrom(lines, hunks[1..], at + skip + |oldLines|, out + skip + |newLines|);
        Some(lines[at..at + skip] + newLines + rest)
  }

  function Apply(lines: seq<string>, hunks: seq<Hunk>): Option<seq<string>> {
    ApplyFrom(lines, hunks, 0, 0)
  }

  lemma {:induction false} UnchangedSides(steps: seq<Step>)
    requires forall i | 0 <= i < |steps| :: !Changed(steps[i])
    ensures OldSide(steps) == NewSide(steps)
  {
    if steps != [] {
      UnchangedSides(steps[..|steps| - 1]);
    }
  }

  lemma SplitAt(steps: seq<Step>, i: nat, j: nat)
    requires i <= j <= |steps|
    ensures OldSide(steps[..j]) == OldSide(steps[..i]) + OldSide(steps[i..j])
    ensures NewSide(steps[..j]) == NewSide(steps[..i]) + NewSide(steps[i..j])
    ensures OldSide(steps[i..]) == OldSide(steps[i..j]) + OldSide(steps[j..])
    ensures NewSide(steps[i..]) == NewSide(steps[i..j]) + NewSide(steps[j..])
  {
    assert steps[..j] == steps[..i] + steps[i..j] && steps[i..] == steps[i..j] + steps[j..];
    SidesOfConcat(steps[..i], steps[i..j]);
    SidesOfConcat(steps[i..j], steps[j..]);
  }

  lemma OldSideSlice(steps: seq<Step>, i: nat, j: nat)
    requires i <= j <= |steps|
    ensures var n, m := |OldSide(steps[..i])|, |OldSide(steps[i..j])|;
      n + m <= |OldSide(steps)| && OldSide(steps)[n..n + m] == OldSide(steps[i..j])
  {
    SplitAt(steps, i, j);
    SplitAt(steps, j, |steps|);
    assert steps[..|steps|] == steps;
  }

  lemma NothingBetween(steps: seq<Step>, ranges: seq<Range>, k: nat, i: nat)
    requires Grouped(steps, ranges) && InBounds(steps, ranges) && k <= |ranges| && i < |steps|
    requires k > 0 ==> ranges[k - 1].end <= i
    requires k < |ranges| ==> i < ranges[k].start
    ensures !Changed(steps[i])
  {
    hide IsRange;
    if Changed(steps[i]) {
      var j :| 0 <= j < |ranges| && Covers(ranges[j], i);
      assert false;
    }
  }

  lemma GapBefore(steps: seq<Step>, ranges: seq<Range>, k: nat, e: nat)
    requires Grouped(steps, ranges) && InBounds(steps, ranges) && k <= |ranges| && e <= |steps|
    requires e == if k == 0 then 0 else ranges[k - 1].end
    ensures k < |ranges| ==> IsRange(steps, ranges[k]) && e <= ranges[k].start
    ensures forall i | e <= i < (if k < |ranges| then ranges[k].start else |steps|) :: !Changed(steps[i])
  {
    hide ShownBySome, IsRange;
    assert 0 < k < |ranges| ==> ranges[k - 1].end < ranges[k].start;
    forall i | e <= i < (if k < |ranges| then ranges[k].start else |steps|) ensures !Changed(steps[i]) {
      NothingBetween(steps, ranges, k, i);
    }
  }

  // What one hunk adds in front of the result of the rest.
  lemma ApplyCons(lines: seq<string>, h: Hunk, tail: seq<Hunk>, at: nat, out: nat, gap: nat)
    requires at + gap + |OldSide(h.body)| <= |lines|
    requires h.oldCount == |OldSide(h.body)| && h.newCount == |NewSide(h.body)|
    requires h.oldStart == StartLine(at + gap, h.oldCount) && h.newStart == StartLine(out + gap, h.newCount)
    requires lines[at + gap..at + gap + |OldSide(h.body)|] == OldSide(h.body)
    requires ApplyFrom(lines, tail, at + gap + h.oldCount, out + gap + h.newCount).Some?
    ensures ApplyFrom(lines, [h] + tail, at, out) ==
      Some(lines[at..at + gap] + NewSide(h.body) + ApplyFrom(lines, tail, at + gap + h.oldCount, out + gap + h.newCount).value)
  {
    hide OldSide, NewSide;
    assert ([h] + tail)[1..] == tail;
  }

  // From the end e of what is already applied, the remaining hunks produce the rest of the new file.
  lemma {:induction false} ApplyRanges(steps: seq<Step>, ranges: seq<Range>, k: nat, e: nat)
    requires Grouped(steps, ranges) && InBounds(steps, ranges) && k <= |ranges| && e <= |steps|
    requires e == if k == 0 then 0 else ranges[k - 1].end
    ensures |OldSide(steps[..e])| <= |OldSide(steps)|
    ensures ApplyFrom(OldSide(steps), HunksOf(steps, ranges)[k..], |OldSide(steps[..e])|, |NewSide(steps[..e])|)
      == Some(NewSide(steps[e..]))
    decreases |ranges| - k
  {
    hide OldSide, NewSide, Grouped, IsRange;
    var hunks := HunksOf(steps, ranges);
    GapBefore(steps, ranges, k, e);
    if k == |ranges| {
      ApplyNone(steps, e);
    } else {
      hide ApplyFrom;
      var r := ranges[k];
      ApplyOne(steps, r, e);
      ApplyRanges(steps, ranges, k + 1, r.end);
      assert hunks[k..] == [HunkOf(steps, r)] + hunks[k + 1..];
      hide HunksOf;
      ApplyNext(steps, r, e, hunks[k + 1..]);
    }
  }

  lemma ApplyNone(steps: seq<Step>, e: nat)
    requires e <= |steps| && forall i | e <= i < |steps| :: !Changed(steps[i])
    ensures |OldSide(steps[..e])| <= |OldSide(steps)|
    ensures ApplyFrom(OldSide(steps), [], |OldSide(steps[..e])|, |NewSide(steps[..e])|) == Some(NewSide(steps[e..]))
  {
    hide OldSide, NewSide;
    assert steps[..|steps|] == steps && steps[e..|steps|] == steps[e..];
    SplitAt(steps, e, |steps|);
    UnchangedSides(steps[e..]);
  }

  lemma ApplyNext(steps: seq<Step>, r: Range, e: nat, tail: seq<Hunk>)
    requires IsRange(steps, r) && e <= r.start && forall i | e <= i < r.start :: !Changed(steps[i])
    requires |OldSide(steps[..r.end])| <= |OldSide(steps)|
    requires ApplyFrom(OldSide(steps), tail, |OldSide(steps[..r.end])|, |NewSide(steps[..r.end])|) == Some(NewSide(steps[r.end..]))
    ensures |OldSide(steps[..e])| <= |OldSide(steps)|
    ensures ApplyFrom(OldSide(steps), [HunkOf(steps, r)] + tail, |OldSide(steps[..e])|, |NewSide(steps[..e])|) == Some(NewSide(steps[e..]))
  {
    hide OldSide, NewSide, ApplyFrom;
    ApplyOne(steps, r, e);
    hide IsRange;
    ApplyCons(OldSide(steps), HunkOf(steps, r), tail, |OldSide(steps[..e])|, |NewSide(steps[..e])|, |OldSide(steps[e..r.start])|);
  }

  // The facts one hunk contributes, given that nothing changes between e and its start.
  lemma ApplyOne(steps: seq<Step>, r: Range, e: nat)
    requires IsRange(steps, r) && e <= r.start
    requires forall i | e <= i < r.start :: !Changed(steps[i])
    ensures var at, gap, body := |OldSide(steps[..e])|, OldSide(steps[e..r.start]), steps[r.start..r.end];
      && at + |gap| + |OldSide(body)| <= |OldSide(steps)|
      && OldSide(steps)[at..at + |gap|] == gap
      && OldSide(steps)[at + |gap|..at + |gap| + |OldSide(body)|] == OldSide(body)
      && |OldSide(steps[..r.start])| == at + |gap|
      && |NewSide(steps[..r.start])| == |NewSide(steps[..e])| + |gap|
      && |OldSide(steps[..r.end])| == at + |gap| + |OldSide(body)|
      && |NewSide(steps[..r.end])| == |NewSide(steps[..e])| + |gap| + |NewSide(body)|
      && NewSide(steps[e..]) == gap + NewSide(body) + NewSide(steps[r.end..])
  {
    hide OldSide, NewSide;
    UnchangedSides(steps[e..r.start]);
    SplitAt(steps, e, r.start);
    SplitAt(steps, r.start, r.end);
    OldSideSlice(steps, e, r.start);
    OldSideSlice(steps, r.start, r.end);
  }

  // The hunks alone carry the whole edit.
  lemma HunksCarryTheEdit(steps: seq<Step>, ranges: seq<Range>)
    requires Grouped(steps, ranges) && InBounds(steps, ranges)
    ensures Apply(OldSide(steps), HunksOf(steps, ranges)) == Some(NewSide(steps))
  {
    hide OldSide, NewSide, Grouped, ApplyFrom;
    ApplyRanges(steps, ranges, 0, 0);
    assert steps[..0] == [];
    SidesOfAll(Keep, []);
    assert All(Keep, []) == [];
    assert steps[0..] == steps && HunksOf(steps, ranges)[0..] == HunksOf(steps, ranges);
  }
}
