// The text of a unified diff, and reading it back.
module PatchText {
  import opened Wrappers
  import opened Script
  import opened Lines
  import opened Hunks

  const NO_NEWLINE: string := "\\ No newline at end of file\n"

  function Sign(kind: Kind): char {
    match kind case Keep => ' ' case Delete => '-' case Insert => '+'
  }

  function RenderStep(step: Step): string {
    [Sign(step.kind)] + step.text + (if Terminated(step.text) then "" else "\n" + NO_NEWLINE)
  }

  function RenderBody(steps: seq<Step>): string {
    if steps == [] then "" else RenderStep(steps[0]) + RenderBody(steps[1..])
  }

  function RenderHeader(h: Hunk): string {
    "@@ -" + (Decimal(h.oldStart) + ("," + (Decimal(h.oldCount) + (" +" +
      (Decimal(h.newStart) + ("," + (Decimal(h.newCount) + " @@\n")))))))
  }

  function RenderHunks(hunks: seq<Hunk>): string {
    if hunks == [] then "" else RenderHeader(hunks[0]) + RenderBody(hunks[0].body) + RenderHunks(hunks[1..])
  }

  // What a hunk looks like: its header, and behind a space, a minus or a plus the lines both sides
  // share, those only the old side has, and those only the new side has; a line without a line break
  // is followed by the marker that says so.
  lemma HunkText(at: nat, to: nat, kept: string, gone: string, added: string)
    requires '\n' !in added
    ensures RenderHunks([Hunk(at, 2, to, 2, [Step(Keep, kept + "\n"), Step(Delete, gone + "\n"), Step(Insert, added)])]) ==
      "@@ -" + Decimal(at) + ",2 +" + Decimal(to) + ",2 @@\n" +
      (" " + kept + "\n") + ("-" + gone + "\n") + ("+" + added + "\n\\ No newline at end of file\n")
  {
    var x, y, z := Step(Keep, kept + "\n"), Step(Delete, gone + "\n"), Step(Insert, added);
    var h := Hunk(at, 2, to, 2, [x, y, z]);
    StepTexts(kept, gone, added);
    HeaderText(h);
    hide RenderHeader, RenderStep, Decimal;
    assert [x, y, z][1..] == [y, z] && [y, z][1..] == [z] && [z][1..] == [] && [h][1..] == [];
    assert RenderBody([z]) == RenderStep(z) + RenderBody([]);
    assert RenderBody([y, z]) == RenderStep(y) + RenderBody([z]);
    assert RenderBody([x, y, z]) == RenderStep(x) + (RenderStep(y) + RenderStep(z));
    hide RenderBody;
    assert RenderHunks([h]) == RenderHeader(h) + RenderBody([x, y, z]) + "";
  }

  lemma StepTexts(kept: string, gone: string, added: string)
    requires '\n' !in added
    ensures RenderStep(Step(Keep, kept + "\n")) == " " + kept + "\n"
    ensures RenderStep(Step(Delete, gone + "\n")) == "-" + gone + "\n"
    ensures RenderStep(Step(Insert, added)) == "+" + added + "\n\\ No newline at end of file\n"
  {
    assert "\n" + NO_NEWLINE == "\n\\ No newline at end of file\n";
  }

  lemma HeaderText(h: Hunk)
    requires h.oldCount == 2 && h.newCount == 2
    ensures RenderHeader(h) == "@@ -" + Decimal(h.oldStart) + ",2 +" + Decimal(h.newStart) + ",2 @@\n"
  {
    assert Decimal(2) == "2";
    hide Decimal;
    var x, y := Decimal(h.oldStart), Decimal(h.newStart);
    assert "," + ("2" + (" +" + (y + ("," + ("2" + " @@\n"))))) == ",2 +" + y + ",2 @@\n";
  }

  // ---- Reading ----

  function Expect(text: string, literal: string): (rest: Option<string>)
    ensures rest.Some? ==> |rest.value| == |text| - |literal|
  {
    if |literal| <= |text| && text[..|literal|] == literal then Some(text[|literal|..]) else None
  }

  function ReadNumber(text: string): (result: Option<(nat, string)>)
    ensures result.Some? ==> |result.value.1| <= |text|
  {
    if text != [] && IsDigit(text[0]) then Some(ReadDigits(text, 0)) else None
  }

  datatype Header = Header(oldStart: nat, oldCount: nat, newStart: nat, newCount: nat)

  function ReadHeader(text: string): (result: Option<(Header, string)>)
    ensures result.Some? ==> |result.value.1| < |text|
  {
    var t0 :- Expect(text, "@@ -");
    var (oldStart, t1) :- ReadNumber(t0);
    var t2 :- Expect(t1, ",");
    var (oldCount, t3) :- ReadNumber(t2);
    var t4 :- Expect(t3, " +");
    var (newStart, t5) :- ReadNumber(t4);
    var t6 :- Expect(t5, ",");
    var (newCount, t7) :- ReadNumber(t6);
    var t8 :- Expect(t7, " @@\n");
    Some((Header(oldStart, oldCount, newStart, newCount), t8))
  }

  function KindOf(sign: char): Option<Kind> {
    if sign == ' ' then Some(Keep)
    else if sign == '-' then Some(Delete)
    else if sign == '+' then Some(Insert)
    else None
  }

  // One body line: its sign, its text up to the newline, and no newline if the marker follows.
  function ReadStep(text: string): (result: Option<(Step, string)>)
    ensures result.Some? ==> |result.value.1| < |text|
  {
    if text == [] then None
    else
      var kind :- KindOf(text[0]);
      var tail := text[1..];
      var n := LineEnd(tail);
      if !Terminated(tail[..n]) then None
      else
        match Expect(tail[n..], NO_NEWLINE)
        case Some(rest) => Some((Step(kind, tail[..n - 1]), rest))
        case None => Some((Step(kind, tail[..n]), tail[n..]))
  }

  // Reads body lines until both sides of the hunk have all the lines its header announced.
  function ReadBody(text: string, oldLeft: nat, newLeft: nat): (result: Option<(seq<Step>, string)>)
    ensures result.Some? ==> |result.value.1| <= |text|
    decreases |text|
  {
    if oldLeft == 0 && newLeft == 0 then Some(([], text))
    else
      var (step, rest) :- ReadStep(text);
      var o := if step.kind.Insert? then 0 else 1;
      var n := if step.kind.Delete? then 0 else 1;
      if o > oldLeft || n > newLeft then None
      else
        var (steps, after) :- ReadBody(rest, oldLeft - o, newLeft - n);
        Some(([step] + steps, after))
  }

  function ReadHunks(text: string): (result: Option<seq<Hunk>>)
    decreases |text|
  {
    if text == [] then Some([])
    else
      var (h, t) :- ReadHeader(text);
      var (body, rest) :- ReadBody(t, h.oldCount, h.newCount);
      var hunks :- ReadHunks(rest);
      Some([Hunk(h.oldStart, h.oldCount, h.newStart, h.newCount, body)] + hunks)
  }

  // ---- Reading undoes rendering ----

  lemma ExpectOwn(literal: string, rest: string)
    ensures Expect(literal + rest, literal) == Some(rest)
  {
  }

  lemma NumberOwn(n: nat, rest: string)
    requires rest != [] && !IsDigit(rest[0])
    ensures ReadNumber(Decimal(n) + rest) == Some((n, rest))
  {
    ReadDecimal(n, rest);
  }

  lemma HeaderOwn(h: Hunk, rest: string)
    ensures ReadHeader(RenderHeader(h) + rest) == Some((Header(h.oldStart, h.oldCount, h.newStart, h.newCount), rest))
  {
    hide Decimal, Expect, ReadNumber;
    var t8 := " @@\n" + rest;
    var t7 := Decimal(h.newCount) + t8;
    var t6 := "," + t7;
    var t5 := Decimal(h.newStart) + t6;
    var t4 := " +" + t5;
    var t3 := Decimal(h.oldCount) + t4;
    var t2 := "," + t3;
    var t1 := Decimal(h.oldStart) + t2;
    assert RenderHeader(h) + rest == "@@ -" + t1;
    ExpectOwn("@@ -", t1);
    NumberOwn(h.oldStart, t2);
    ExpectOwn(",", t3);
    NumberOwn(h.oldCount, t4);
    ExpectOwn(" +", t5);
    NumberOwn(h.newStart, t6);
    ExpectOwn(",", t7);
    NumberOwn(h.newCount, t8);
    ExpectOwn(" @@\n", rest);
  }

  // What may follow a body line: never the start of the marker.
  predicate NotMarker(rest: string) {
    rest == [] || rest[0] != '\\'
  }

  // Reading one body line, once it is known where its text ends and what follows.
  lemma ReadLine(kind: Kind, line: string, tail: string)
    requires IsLine(line) && Terminated(line)
    ensures ReadStep([Sign(kind)] + (line + tail)) ==
      match Expect(tail, NO_NEWLINE)
      case Some(rest) => Some((Step(kind, line[..|line| - 1]), rest))
      case None => Some((Step(kind, line), tail))
  {
    hide LineEnd, Expect;
    LineEndOfLine(line, tail);
    var all := line + tail;
    assert ([Sign(kind)] + all)[1..] == all;
    assert all[..|line|] == line && all[|line|..] == tail && all[..|line| - 1] == line[..|line| - 1];
  }

  lemma StepOwn(step: Step, rest: string)
    requires IsLine(step.text) && NotMarker(rest)
    ensures ReadStep(RenderStep(step) + rest) == Some((step, rest))
  {
    hide ReadStep, LineEnd;
    var text := step.text;
    if Terminated(text) {
      assert RenderStep(step) + rest == [Sign(step.kind)] + (text + rest);
      ReadLine(step.kind, text, rest);
      assert |NO_NEWLINE| <= |rest| ==> rest[..|NO_NEWLINE|][0] == rest[0];
    } else {
      var line := text + "\n";
      assert RenderStep(step) + rest == [Sign(step.kind)] + (line + (NO_NEWLINE + rest));
      ReadLine(step.kind, line, NO_NEWLINE + rest);
      ExpectOwn(NO_NEWLINE, rest);
      assert line[..|line| - 1] == text;
    }
  }

  predicate AllLines(steps: seq<Step>) {
    forall k | 0 <= k < |steps| :: IsLine(steps[k].text)
  }

  lemma RenderedStartsClean(steps: seq<Step>, rest: string)
    requires NotMarker(rest)
    ensures NotMarker(RenderBody(steps) + rest)
  {
  }

  lemma CountsFromFront(steps: seq<Step>)
    requires steps != []
    ensures |OldSide(steps)| == (if steps[0].kind.Insert? then 0 else 1) + |OldSide(steps[1..])|
    ensures |NewSide(steps)| == (if steps[0].kind.Delete? then 0 else 1) + |NewSide(steps[1..])|
  {
    assert steps == [steps[0]] + steps[1..];
    SidesOfConcat([steps[0]], steps[1..]);
    SidesOfSingle(steps[0]);
  }

  lemma {:induction false} BodyOwn(steps: seq<Step>, rest: string)
    requires AllLines(steps) && NotMarker(rest)
    ensures ReadBody(RenderBody(steps) + rest, |OldSide(steps)|, |NewSide(steps)|) == Some((steps, rest))
    decreases |steps|
  {
    hide OldSide, NewSide, ReadStep, RenderStep;
    if steps == [] {
      SidesOfAll(Keep, []);
      assert All(Keep, []) == [];
      assert RenderBody(steps) + rest == rest;
    } else {
      CountsFromFront(steps);
      var tail := RenderBody(steps[1..]) + rest;
      assert RenderBody(steps) + rest == RenderStep(steps[0]) + tail;
      RenderedStartsClean(steps[1..], rest);
      StepOwn(steps[0], tail);
      BodyOwn(steps[1..], rest);
      assert [steps[0]] + steps[1..] == steps;
    }
  }

  predicate Printable(h: Hunk) {
    AllLines(h.body) && h.oldCount == |OldSide(h.body)| && h.newCount == |NewSide(h.body)|
  }

  // Reading one hunk off the front of a text.
  lemma FirstHunkOwn(h: Hunk, rest: string, more: seq<Hunk>)
    requires Printable(h) && NotMarker(rest) && ReadHunks(rest) == Some(more)
    ensures ReadHunks(RenderHeader(h) + (RenderBody(h.body) + rest)) == Some([h] + more)
  {
    HeaderClean(h, RenderBody(h.body) + rest);
    HeaderOwn(h, RenderBody(h.body) + rest);
    BodyOwn(h.body, rest);
    hide ReadHeader, ReadBody, RenderHeader, RenderBody, AllLines, OldSide, NewSide;
  }

  lemma FirstRendered(hunks: seq<Hunk>)
    requires hunks != []
    ensures RenderHunks(hunks) == RenderHeader(hunks[0]) + (RenderBody(hunks[0].body) + RenderHunks(hunks[1..]))
  {
    hide RenderHeader, RenderBody;
    var x, y, z := RenderHeader(hunks[0]), RenderBody(hunks[0].body), RenderHunks(hunks[1..]);
    assert x + y + z == x + (y + z);
  }

  lemma HeaderClean(h: Hunk, rest: string)
    ensures var text := RenderHeader(h) + rest; text != [] && text[0] == '@'
  {
    hide Decimal;
    assert RenderHeader(h)[0] == '@';
  }

  lemma {:induction false} HunksOwn(hunks: seq<Hunk>)
    requires forall k | 0 <= k < |hunks| :: Printable(hunks[k])
    ensures ReadHunks(RenderHunks(hunks)) == Some(hunks)
    ensures NotMarker(RenderHunks(hunks))
    decreases |hunks|
  {
    hide OldSide, NewSide, ReadHeader, ReadBody, RenderBody, AllLines, Printable;
    if hunks != [] {
      var h, rest := hunks[0], RenderHunks(hunks[1..]);
      assert Printable(h);
      HunksOwn(hunks[1..]);
      FirstRendered(hunks);
      hide RenderHunks, RenderHeader, ReadHunks;
      FirstHunkOwn(h, rest, hunks[1..]);
      HeaderClean(h, RenderBody(h.body) + rest);
      assert [h] + hunks[1..] == hunks;
    }
  }
}
