// Printing a script as hunks, and the whole diff of one file.
module WriteDiff {
  import opened Wrappers
  import opened Script
  import opened Lines
  import opened Hunks
  import opened PatchText
  import opened DiffEngine
  import opened AnchorBound

  // The positions of the changed steps, in order, all of them.
  ghost predicate ChangedAt(steps: seq<Step>, changed: seq<nat>) {
    && (forall m | 0 <= m < |changed| :: changed[m] < |steps| && Changed(steps[changed[m]]))
    && (forall m, n | 0 <= m < n < |changed| :: changed[m] < changed[n])
    && (forall i | 0 <= i < |steps| && Changed(steps[i]) :: i in changed)
  }

  method ChangedPositions(steps: seq<Step>) returns (changed: seq<nat>)
    ensures ChangedAt(steps, changed)
  {
    changed := [];
    for i := 0 to |steps|
      invariant forall m | 0 <= m < |changed| :: changed[m] < i && Changed(steps[changed[m]])
      invariant forall m, n | 0 <= m < n < |changed| :: changed[m] < changed[n]
      invariant forall j | 0 <= j < i && Changed(steps[j]) :: j in changed
    {
      if Changed(steps[i]) {
        changed := changed + [i];
      }
    }
  }

  // Running line counts of both sides.
  ghost predicate Counts(steps: seq<Step>, olds: seq<nat>, news: seq<nat>) {
    && |olds| == |news| == |steps| + 1
    && (forall i | 0 <= i <= |steps| :: olds[i] == |OldSide(steps[..i])| && news[i] == |NewSide(steps[..i])|)
  }

  method LineCounts(steps: seq<Step>) returns (olds: array<nat>, news: array<nat>)
    ensures Counts(steps, olds[..], news[..])
  {
    olds := new nat[|steps| + 1];
    news := new nat[|steps| + 1];
    olds[0], news[0] := 0, 0;
    assert OldSide(steps[..0]) == [] && NewSide(steps[..0]) == [];
    hide OldSide, NewSide;
    for i := 0 to |steps|
      invariant olds != news
      invariant forall k | 0 <= k <= i :: olds[k] == |OldSide(steps[..k])|
      invariant forall k | 0 <= k <= i :: news[k] == |NewSide(steps[..k])|
    {
      CountStep(steps, i);
      olds[i + 1] := if steps[i].kind.Insert? then olds[i] else olds[i] + 1;
      news[i + 1] := if steps[i].kind.Delete? then news[i] else news[i] + 1;
    }
  }

  lemma CountStep(steps: seq<Step>, i: nat)
    requires i < |steps|
    ensures |OldSide(steps[..i + 1])| == |OldSide(steps[..i])| + (if steps[i].kind.Insert? then 0 else 1)
    ensures |NewSide(steps[..i + 1])| == |NewSide(steps[..i])| + (if steps[i].kind.Delete? then 0 else 1)
  {
    assert steps[..i + 1][..i] == steps[..i];
  }

  lemma CountsGiveHunk(steps: seq<Step>, olds: seq<nat>, news: seq<nat>, r: Range)
    requires Counts(steps, olds, news) && r.start <= r.end <= |steps|
    ensures var h := HunkOf(steps, r);
      && olds[r.end] == olds[r.start] + h.oldCount && news[r.end] == news[r.start] + h.newCount
      && h.oldStart == StartLine(olds[r.start], h.oldCount) && h.newStart == StartLine(news[r.start], h.newCount)
  {
    hide OldSide, NewSide;
    SplitAt(steps, r.start, r.end);
  }

  // Two changed steps this close share a hunk.
  predicate Near(last: nat, next: nat) {
    next - last <= 2 * CONTEXT + 1
  }

  // A run changed[from..to]: neighbours near each other, cut off on both sides.
  ghost predicate IsGroup(changed: seq<nat>, from: nat, to: nat) {
    && from < to <= |changed|
    && (forall m | from < m < to :: Near(changed[m - 1], changed[m]))
    && (from > 0 ==> !Near(changed[from - 1], changed[from]))
    && (to < |changed| ==> !Near(changed[to - 1], changed[to]))
  }

  function GroupRange(steps: seq<Step>, first: nat, last: nat): Range
    requires last < |steps|
  {
    Range(Max(0, first - CONTEXT), first, last, Min(|steps|, last + CONTEXT + 1))
  }

  lemma GroupIsRange(steps: seq<Step>, changed: seq<nat>, from: nat, to: nat)
    requires ChangedAt(steps, changed) && IsGroup(changed, from, to)
    ensures IsRange(steps, GroupRange(steps, changed[from], changed[to - 1]))
  {
    var first, last := changed[from], changed[to - 1];
    var r := GroupRange(steps, first, last);
    forall i | r.start <= i < r.first || r.last < i < r.end ensures !Changed(steps[i]) {
      assert forall m | 0 <= m < |changed| :: changed[m] != i;
    }
    forall i | r.first <= i && i + 7 <= r.last ensures !Quiet(steps, i) {
      var m := NextChange(changed, from, to, i);
      assert Changed(steps[changed[m]]);
    }
  }

  // Inside a group some change follows within every window.
  lemma NextChange(changed: seq<nat>, from: nat, to: nat, i: nat) returns (m: nat)
    requires forall m, n | 0 <= m < n < |changed| :: changed[m] < changed[n]
    requires IsGroup(changed, from, to) && changed[from] <= i < changed[to - 1]
    ensures from <= m < to && i <= changed[m] < i + 2 * CONTEXT + 1
  {
    m := from;
    while changed[m] < i
      invariant from <= m < to
      invariant changed[m] < i + 2 * CONTEXT + 1
      decreases |changed| - m
    {
      assert m < to - 1;
      assert Near(changed[m + 1 - 1], changed[m + 1]);
      m := m + 1;
    }
  }

  ghost predicate RangesOk(steps: seq<Step>, ranges: seq<Range>) {
    && (forall k | 0 <= k < |ranges| :: IsRange(steps, ranges[k]))
    && (forall j, k | 0 <= j < k < |ranges| :: ranges[j].end < ranges[k].start)
  }

  // The ranges so far end at the change before index, and the next change starts a new group.
  ghost predicate EndsBefore(changed: seq<nat>, ranges: seq<Range>, index: nat) {
    && index <= |changed|
    && (ranges == [] <==> index == 0)
    && (0 < index < |changed| ==> !Near(changed[index - 1], changed[index]))
    && (index > 0 ==> ranges[|ranges| - 1].end <= changed[index - 1] + CONTEXT + 1)
  }

  ghost predicate AllShown(changed: seq<nat>, ranges: seq<Range>, index: nat)
    requires index <= |changed|
  {
    forall m | 0 <= m < index :: ShownBySome(ranges, changed[m])
  }

  ghost predicate GroupedSoFar(steps: seq<Step>, changed: seq<nat>, ranges: seq<Range>, index: nat) {
    && EndsBefore(changed, ranges, index) && InBounds(steps, ranges)
    && RangesOk(steps, ranges) && AllShown(changed, ranges, index)
  }

  lemma AddRange(steps: seq<Step>, ranges: seq<Range>, r: Range)
    requires RangesOk(steps, ranges) && IsRange(steps, r)
    requires ranges != [] ==> ranges[|ranges| - 1].start <= ranges[|ranges| - 1].end < r.start
    ensures RangesOk(steps, ranges + [r])
  {
    hide IsRange;
    forall k | 0 <= k < |ranges| ensures ranges[k].end < r.start {
      assert k < |ranges| - 1 ==> ranges[k].end < ranges[|ranges| - 1].start;
    }
  }

  lemma AddShown(changed: seq<nat>, ranges: seq<Range>, r: Range, from: nat, to: nat)
    requires from <= to <= |changed| && AllShown(changed, ranges, from)
    requires forall m | from <= m < to :: Covers(r, changed[m])
    ensures AllShown(changed, ranges + [r], to)
  {
    forall m | 0 <= m < to ensures ShownBySome(ranges + [r], changed[m]) {
      if m < from {
        var k :| 0 <= k < |ranges| && Covers(ranges[k], changed[m]);
        assert Covers((ranges + [r])[k], changed[m]);
      } else {
        assert Covers((ranges + [r])[|ranges|], changed[m]);
      }
    }
  }

  lemma AddGroup(steps: seq<Step>, changed: seq<nat>, ranges: seq<Range>, from: nat, to: nat)
    requires ChangedAt(steps, changed) && GroupedSoFar(steps, changed, ranges, from) && IsGroup(changed, from, to)
    ensures GroupedSoFar(steps, changed, ranges + [GroupRange(steps, changed[from], changed[to - 1])], to)
  {
    hide IsRange, AllShown, RangesOk, ShownBySome;
    var r := GroupRange(steps, changed[from], changed[to - 1]);
    GroupIsRange(steps, changed, from, to);
    AddRange(steps, ranges, r);
    forall m | from <= m < to ensures Covers(r, changed[m]) {
      assert changed[from] <= changed[m] <= changed[to - 1];
    }
    AddShown(changed, ranges, r, from, to);
  }

  lemma AllGrouped(steps: seq<Step>, changed: seq<nat>, ranges: seq<Range>)
    requires ChangedAt(steps, changed) && GroupedSoFar(steps, changed, ranges, |changed|)
    ensures Grouped(steps, ranges)
  {
    hide IsRange;
    forall i | 0 <= i < |steps| && Changed(steps[i]) ensures ShownBySome(ranges, i) {
      var m :| 0 <= m < |changed| && changed[m] == i;
    }
  }

  lemma {:induction false} RenderAppend(hunks: seq<Hunk>, h: Hunk)
    ensures RenderHunks(hunks + [h]) == RenderHunks(hunks) + RenderHeader(h) + RenderBody(h.body)
  {
    hide RenderHeader, RenderBody;
    if hunks == [] {
      assert [h][1..] == [];
      assert RenderHunks([h]) == RenderHeader(h) + RenderBody(h.body) + "";
    } else {
      RenderAppend(hunks[1..], h);
      assert (hunks + [h])[1..] == hunks[1..] + [h];
    }
  }

  lemma {:induction false} RenderBodyAppend(steps: seq<Step>, step: Step)
    ensures RenderBody(steps + [step]) == RenderBody(steps) + RenderStep(step)
  {
    hide RenderStep;
    if steps == [] {
      assert RenderBody([step]) == RenderStep(step) + "";
    } else {
      RenderBodyAppend(steps[1..], step);
      assert (steps + [step])[1..] == steps[1..] + [step];
    }
  }

  method WriteBody(steps: seq<Step>) returns (text: string)
    ensures text == RenderBody(steps)
  {
    text := "";
    for i := 0 to |steps|
      invariant text == RenderBody(steps[..i])
    {
      var step := steps[i];
      RenderBodyAppend(steps[..i], step);
      assert steps[..i + 1] == steps[..i] + [step];
      ghost var was := text;
      text := text + ([Sign(step.kind)] + step.text);
      if !Terminated(step.text) {
        text := text + ("\n" + NO_NEWLINE);
      }
      assert text == was + RenderStep(step);
    }
    assert steps[..|steps|] == steps;
  }

  // Finds the end of the group that starts at changed[from].
  method GroupEnd(changed: seq<nat>, from: nat) returns (to: nat, last: nat)
    requires forall m, n | 0 <= m < n < |changed| :: changed[m] < changed[n]
    requires from < |changed| && (from > 0 ==> !Near(changed[from - 1], changed[from]))
    ensures IsGroup(changed, from, to) && last == changed[to - 1]
  {
    last := changed[from];
    to := from + 1;
    while to < |changed| && changed[to] - last <= 2 * CONTEXT + 1
      invariant from < to <= |changed| && last == changed[to - 1]
      invariant forall m | from < m < to :: Near(changed[m - 1], changed[m])
    {
      last := changed[to];
      to := to + 1;
    }
  }

  // The hunk of one group, its header computed from the running counts.
  method MakeHunk(steps: seq<Step>, olds: array<nat>, news: array<nat>, first: nat, last: nat) returns (h: Hunk)
    requires Counts(steps, olds[..], news[..]) && first <= last < |steps|
    ensures h == HunkOf(steps, GroupRange(steps, first, last))
  {
    var start, end := Max(0, first - CONTEXT), Min(|steps|, last + CONTEXT + 1);
    CountsGiveHunk(steps, olds[..], news[..], GroupRange(steps, first, last));
    hide OldSide, NewSide;
    var oldCount, newCount := olds[end] - olds[start], news[end] - news[start];
    var oldStart, newStart := olds[start], news[start];
    if oldCount != 0 {
      oldStart := oldStart + 1;
    }
    if newCount != 0 {
      newStart := newStart + 1;
    }
    h := Hunk(oldStart, oldCount, newStart, newCount, steps[start..end]);
  }

  lemma NoGroupsYet(steps: seq<Step>, changed: seq<nat>)
    ensures GroupedSoFar(steps, changed, [], 0)
  {
  }

  lemma HunksOfAppend(steps: seq<Step>, ranges: seq<Range>, r: Range)
    requires InBounds(steps, ranges) && r.start <= r.end <= |steps|
    ensures InBounds(steps, ranges + [r])
    ensures HunksOf(steps, ranges + [r]) == HunksOf(steps, ranges) + [HunkOf(steps, r)]
  {
    hide OldSide, NewSide;
  }

  method WriteHunks(steps: seq<Step>) returns (text: string, ghost ranges: seq<Range>)
    ensures Grouped(steps, ranges) && InBounds(steps, ranges)
    ensures text == RenderHunks(HunksOf(steps, ranges))
    ensures text == "" <==> (forall i | 0 <= i < |steps| :: !Changed(steps[i]))
    ensures IsFile(OldSide(steps)) && IsFile(NewSide(steps)) ==> ApplyPatch(Join(OldSide(steps)), text) == Some(Join(NewSide(steps)))
  {
    hide IsRange, AllShown, RangesOk, OldSide, NewSide, Counts, Grouped, RenderHunks, RenderBody, RenderHeader, HunkOf;
    var changed := ChangedPositions(steps);
    var olds, news := LineCounts(steps);
    text := "";
    ranges := [];
    NoGroupsYet(steps, changed);
    NothingRendered(steps);
    ghost var allOld, allNew := olds[..], news[..];
    var index := 0;
    while index < |changed|
      invariant GroupedSoFar(steps, changed, ranges, index)
      invariant text == RenderHunks(HunksOf(steps, ranges))
      invariant olds[..] == allOld && news[..] == allNew
      decreases |changed| - index
    {
      var to, last := GroupEnd(changed, index);
      assert changed[index] <= changed[to - 1];
      var h := MakeHunk(steps, olds, news, changed[index], last);
      ghost var r := GroupRange(steps, changed[index], last);
      AddGroup(steps, changed, ranges, index, to);
      HunksOfAppend(steps, ranges, r);
      RenderAppend(HunksOf(steps, ranges), h);
      var body := WriteBody(h.body);
      text := text + RenderHeader(h) + body;
      ranges := ranges + [r];
      index := to;
    }
    AllGrouped(steps, changed, ranges);
    assert changed != [] ==> Changed(steps[changed[0]]);
    assert ranges == [] <==> forall i | 0 <= i < |steps| :: !Changed(steps[i]);
    EmptyText(steps, ranges);
    hide GroupedSoFar, InBounds;
    if IsFile(OldSide(steps)) && IsFile(NewSide(steps)) { TextCarriesEdit(steps, ranges); }
  }

  lemma EmptyText(steps: seq<Step>, ranges: seq<Range>)
    requires InBounds(steps, ranges)
    ensures RenderHunks(HunksOf(steps, ranges)) == "" <==> ranges == []
  {
    var hunks := HunksOf(steps, ranges);
    if ranges != [] {
      FirstRendered(hunks);
      HeaderClean(hunks[0], RenderBody(hunks[0].body) + RenderHunks(hunks[1..]));
    }
    hide RenderHeader, RenderBody, HunkOf;
  }

  lemma TextCarriesEdit(steps: seq<Step>, ranges: seq<Range>)
    requires Grouped(steps, ranges) && InBounds(steps, ranges) && IsFile(OldSide(steps)) && IsFile(NewSide(steps))
    ensures ApplyPatch(Join(OldSide(steps)), RenderHunks(HunksOf(steps, ranges))) == Some(Join(NewSide(steps)))
  {
    JoinThenSplit(OldSide(steps));
    JoinThenSplit(NewSide(steps));
    hide OldSide, NewSide, Grouped, SplitLines, Join, RenderHunks, ApplyPatch, HunksOf;
    HunksReachAfter(Join(OldSide(steps)), Join(NewSide(steps)), steps, ranges);
  }

  lemma NothingRendered(steps: seq<Step>)
    ensures RenderHunks(HunksOf(steps, [])) == ""
  {
  }

  // ---- From bytes to bytes ----

  // What a patch tool does with the text of a diff and the file it was made for.
  function ApplyPatch(before: string, patch: string): Option<string> {
    var hunks :- ReadHunks(patch);
    var lines :- Apply(SplitLines(before), hunks);
    Some(Join(lines))
  }

  lemma {:induction false} StepTexts(steps: seq<Step>, k: nat)
    requires k < |steps|
    ensures steps[k].text in OldSide(steps) || steps[k].text in NewSide(steps)
  {
    assert steps == steps[..k] + [steps[k]] + steps[k + 1..];
    SidesOfConcat(steps[..k] + [steps[k]], steps[k + 1..]);
    SidesOfConcat(steps[..k], [steps[k]]);
    SidesOfSingle(steps[k]);
  }

  lemma PrintableHunks(steps: seq<Step>, ranges: seq<Range>)
    requires InBounds(steps, ranges)
    requires IsFile(OldSide(steps)) && IsFile(NewSide(steps))
    ensures forall k | 0 <= k < |ranges| :: Printable(HunksOf(steps, ranges)[k])
  {
    hide OldSide, NewSide;
    forall k | 0 <= k < |steps| ensures IsLine(steps[k].text) {
      StepTexts(steps, k);
    }
  }

  // The text of hunks that lead from one file to another.
  ghost predicate Writes(before: string, after: string, patch: string, hunks: seq<Hunk>) {
    && patch == RenderHunks(hunks) && (forall k | 0 <= k < |hunks| :: Printable(hunks[k]))
    && Apply(SplitLines(before), hunks) == Some(SplitLines(after))
    && (before != after ==> Diffs(before, after, hunks))
  }

  // The hunks show a faithful script by its changes and their context, and for files whose line counts
  // multiply to at most 200000 no faithful script changes fewer lines.
  ghost predicate Diffs(before: string, after: string, hunks: seq<Hunk>) {
    exists steps, ranges :: ShownBy(before, after, steps, ranges) && hunks == HunksOf(steps, ranges)
  }

  ghost predicate ShownBy(before: string, after: string, steps: seq<Step>, ranges: seq<Range>) {
    var lines, lines' := SplitLines(before), SplitLines(after);
    && Faithful(steps, lines, lines') && (|lines| * |lines'| <= 200000 ==> Minimal(steps))
    && Grouped(steps, ranges) && InBounds(steps, ranges)
  }

  lemma HunksWritten(before: string, after: string, steps: seq<Step>, ranges: seq<Range>)
    requires ShownBy(before, after, steps, ranges)
    ensures Writes(before, after, RenderHunks(HunksOf(steps, ranges)), HunksOf(steps, ranges))
  {
    hide OldSide, NewSide, Grouped, SplitLines, RenderHunks, ApplyFrom, Minimal, HunksOf;
    SplitThenJoin(before);
    SplitThenJoin(after);
    PrintableHunks(steps, ranges);
    HunksCarryTheEdit(steps, ranges);
  }

  lemma WrittenApplies(before: string, after: string, patch: string, hunks: seq<Hunk>)
    requires Writes(before, after, patch, hunks)
    ensures ApplyPatch(before, patch) == Some(after)
  {
    hide SplitLines, RenderHunks, ReadHunks, ApplyFrom;
    SplitThenJoin(after);
    HunksOwn(hunks);
  }

  lemma HunksReachAfter(before: string, after: string, steps: seq<Step>, ranges: seq<Range>)
    requires Faithful(steps, SplitLines(before), SplitLines(after))
    requires Grouped(steps, ranges) && InBounds(steps, ranges)
    ensures ApplyPatch(before, RenderHunks(HunksOf(steps, ranges))) == Some(after)
  {
    SplitThenJoin(before);
    SplitThenJoin(after);
    PrintableHunks(steps, ranges);
    HunksCarryTheEdit(steps, ranges);
    HunksOwn(HunksOf(steps, ranges));
    hide OldSide, NewSide, Grouped, SplitLines, RenderHunks, ReadHunks, ApplyFrom, HunksOf;
  }

  // The hunks of one file: reading their text back and applying it to before gives after, byte for
  // byte, and it is empty exactly when nothing changed.
  method DiffFile(before: string, after: string) returns (patch: string, ghost hunks: seq<Hunk>)
    ensures Writes(before, after, patch, hunks)
    ensures ApplyPatch(before, patch) == Some(after)
    ensures patch == "" <==> before == after
  {
    hide OldSide, NewSide, Kept, Grouped, SplitLines, RenderHunks, ReadHunks, ApplyFrom, ApplyPatch, ChainsAtMost, Minimal, Writes;
    if before == after {
      patch, hunks := "", [];
      NoHunks(before);
    } else {
      var steps := DiffLines(SplitLines(before), SplitLines(after));
      ghost var ranges;
      patch, ranges := WriteHunks(steps);
      hunks := HunksOf(steps, ranges);
      HunksWritten(before, after, steps, ranges);
      if patch == "" { NoHunks(before); }
    }
    WrittenApplies(before, after, patch, hunks);
    if patch == "" { NoHunks(before); }
  }

  lemma NoHunks(before: string)
    ensures Writes(before, before, "", []) && ApplyPatch(before, "") == Some(before)
  {
    SplitThenJoin(before);
    assert SplitLines(before)[0..] == SplitLines(before);
  }
}
