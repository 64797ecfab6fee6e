// Edit scripts between two files of lines, and what it means for one to be minimal.
module Script {

  datatype Kind = Keep | Delete | Insert

  // One printed line of a diff: ' ', '-' or '+' and the text of the line.
  datatype Step = Step(kind: Kind, text: string)

  // The file a script starts from: every step that is not an insertion.
  function OldSide(steps: seq<Step>): (lines: seq<string>) {
    if steps == [] then []
    else
      var last := steps[|steps| - 1];
      OldSide(steps[..|steps| - 1]) + (if last.kind.Insert? then [] else [last.text])
  }

  // The file a script ends at: every step that is not a deletion.
  function NewSide(steps: seq<Step>): (lines: seq<string>) {
    if steps == [] then []
    else
      var last := steps[|steps| - 1];
      NewSide(steps[..|steps| - 1]) + (if last.kind.Delete? then [] else [last.text])
  }

  // The lines a script leaves alone.
  function Kept(steps: seq<Step>): (lines: seq<string>) {
    if steps == [] then []
    else
      var last := steps[|steps| - 1];
      Kept(steps[..|steps| - 1]) + (if last.kind.Keep? then [last.text] else [])
  }

  predicate Faithful(steps: seq<Step>, before: seq<string>, after: seq<string>) {
    OldSide(steps) == before && NewSide(steps) == after
  }

  lemma SidesOfLast(front: seq<Step>, last: Step)
    ensures OldSide(front + [last]) == OldSide(front) + if last.kind.Insert? then [] else [last.text]
    ensures NewSide(front + [last]) == NewSide(front) + if last.kind.Delete? then [] else [last.text]
    ensures Kept(front + [last]) == Kept(front) + if last.kind.Keep? then [last.text] else []
  {
    assert (front + [last])[..|front|] == front;
  }

  lemma {:induction false} SidesOfConcat(s: seq<Step>, t: seq<Step>)
    ensures OldSide(s + t) == OldSide(s) + OldSide(t)
    ensures NewSide(s + t) == NewSide(s) + NewSide(t)
    ensures Kept(s + t) == Kept(s) + Kept(t)
  {
    if t == [] {
      assert s + t == s;
    } else {
      var front, last := t[..|t| - 1], t[|t| - 1];
      assert t == front + [last] && s + t == (s + front) + [last];
      hide OldSide, NewSide, Kept;
      SidesOfConcat(s, front);
      SidesOfLast(s + front, last);
      SidesOfLast(front, last);
    }
  }

  lemma SidesOfSingle(step: Step)
    ensures OldSide([step]) == if step.kind.Insert? then [] else [step.text]
    ensures NewSide([step]) == if step.kind.Delete? then [] else [step.text]
    ensures Kept([step]) == if step.kind.Keep? then [step.text] else []
  {
    assert [step][..0] == [];
  }

  // Every line of one side, as steps of one kind.
  function All(kind: Kind, lines: seq<string>): (steps: seq<Step>)
    ensures |steps| == |lines|
  {
    seq(|lines|, i requires 0 <= i < |lines| => Step(kind, lines[i]))
  }

  lemma {:induction false} SidesOfAll(kind: Kind, lines: seq<string>)
    ensures OldSide(All(kind, lines)) == if kind.Insert? then [] else lines
    ensures NewSide(All(kind, lines)) == if kind.Delete? then [] else lines
    ensures Kept(All(kind, lines)) == if kind.Keep? then lines else []
  {
    if lines != [] {
      var front, last := lines[..|lines| - 1], lines[|lines| - 1];
      assert lines == front + [last] && front + [] == front;
      assert All(kind, lines) == All(kind, front) + [Step(kind, last)];
      SidesOfAll(kind, front);
      SidesOfConcat(All(kind, front), [Step(kind, last)]);
      SidesOfSingle(Step(kind, last));
      hide OldSide, NewSide, Kept, All;
    }
  }

  // ---- Longest common subsequences ----

  predicate IsSubsequence(s: seq<string>, a: seq<string>) {
    if s == [] then true
    else if a == [] then false
    else (s[0] == a[0] && IsSubsequence(s[1..], a[1..])) || IsSubsequence(s, a[1..])
  }

  ghost predicate IsCommon(s: seq<string>, a: seq<string>, b: seq<string>) {
    IsSubsequence(s, a) && IsSubsequence(s, b)
  }

  // The recurrence the table of the diff is filled by.
  function LcsLength(a: seq<string>, b: seq<string>): (n: nat)
    decreases |a| + |b|
  {
    if a == [] || b == [] then 0
    else if a[0] == b[0] then 1 + LcsLength(a[1..], b[1..])
    else if LcsLength(a[1..], b) >= LcsLength(a, b[1..]) then LcsLength(a[1..], b)
    else LcsLength(a, b[1..])
  }

  lemma {:induction false} SubsequenceTail(s: seq<string>, a: seq<string>)
    requires s != [] && IsSubsequence(s, a)
    ensures IsSubsequence(s[1..], a)
    ensures a != [] ==> IsSubsequence(s[1..], a[1..])
    decreases |a|
  {
    if s[0] == a[0] && IsSubsequence(s[1..], a[1..]) {
    } else {
      SubsequenceTail(s, a[1..]);
    }
  }

  // LcsLength is an upper bound on every common subsequence, so the recurrence computes the
  // length of a longest one (KeptIsCommon supplies the one that attains it).
  lemma {:induction false} LcsLengthBounds(s: seq<string>, a: seq<string>, b: seq<string>)
    requires IsCommon(s, a, b)
    ensures |s| <= LcsLength(a, b)
    decreases |a| + |b|
  {
    if s == [] {
    } else if a[0] == b[0] {
      SubsequenceTail(s, a);
      SubsequenceTail(s, b);
      LcsLengthBounds(s[1..], a[1..], b[1..]);
    } else if s[0] == a[0] {
      LcsLengthBounds(s, a, b[1..]);
    } else {
      LcsLengthBounds(s, a[1..], b);
    }
  }

  lemma {:induction false} LcsOfCommonPrefix(p: seq<string>, a: seq<string>, b: seq<string>)
    ensures LcsLength(p + a, p + b) == |p| + LcsLength(a, b)
  {
    if p == [] {
      assert p + a == a && p + b == b;
    } else {
      assert (p + a)[1..] == p[1..] + a && (p + b)[1..] == p[1..] + b;
      LcsOfCommonPrefix(p[1..], a, b);
    }
  }

  lemma {:induction false} LcsOfCommonLast(a: seq<string>, b: seq<string>, x: string)
    ensures LcsLength(a + [x], b + [x]) == LcsLength(a, b) + 1
    decreases |a| + |b|
  {
    assert a != [] ==> (a + [x])[1..] == a[1..] + [x];
    assert b != [] ==> (b + [x])[1..] == b[1..] + [x];
    if a == [] {
      assert (a + [x])[1..] == [];
      if b != [] && b[0] != x {
        LcsOfCommonLast(a, b[1..], x);
      }
    } else if b == [] {
      assert (b + [x])[1..] == [];
      if a[0] != x {
        LcsOfCommonLast(a[1..], b, x);
      }
    } else if a[0] == b[0] {
      LcsOfCommonLast(a[1..], b[1..], x);
    } else {
      LcsOfCommonLast(a[1..], b, x);
      LcsOfCommonLast(a, b[1..], x);
    }
  }

  lemma {:induction false} LcsOfCommonSuffix(a: seq<string>, b: seq<string>, t: seq<string>)
    ensures LcsLength(a + t, b + t) == LcsLength(a, b) + |t|
  {
    if t == [] {
      assert a + t == a && b + t == b;
    } else {
      var front, x := t[..|t| - 1], t[|t| - 1];
      assert a + t == (a + front) + [x] && b + t == (b + front) + [x];
      LcsOfCommonSuffix(a, b, front);
      LcsOfCommonLast(a + front, b + front, x);
    }
  }

  // ---- Scripts and common subsequences ----

  lemma {:induction false} SubsequenceAppend(s: seq<string>, a: seq<string>, x: string)
    requires IsSubsequence(s, a)
    ensures IsSubsequence(s, a + [x])
    ensures IsSubsequence(s + [x], a + [x])
    decreases |a|
  {
    if s == [] {
      assert s + [x] == [x];
      assert a != [] ==> (a + [x])[1..] == a[1..] + [x];
      if a == [] { assert a + [x] == [x]; } else { SubsequenceAppend(s, a[1..], x); }
    } else {
      assert (a + [x])[1..] == a[1..] + [x] && (s + [x])[1..] == s[1..] + [x];
      if s[0] == a[0] && IsSubsequence(s[1..], a[1..]) {
        SubsequenceAppend(s[1..], a[1..], x);
      } else {
        SubsequenceAppend(s, a[1..], x);
      }
    }
  }

  lemma {:induction false} KeptIsCommon(steps: seq<Step>)
    ensures IsCommon(Kept(steps), OldSide(steps), NewSide(steps))
  {
    if steps != [] {
      var front, last := steps[..|steps| - 1], steps[|steps| - 1];
      KeptIsCommon(front);
      assert Kept(front) + [] == Kept(front) && OldSide(front) + [] == OldSide(front) && NewSide(front) + [] == NewSide(front);
      SubsequenceAppend(Kept(front), OldSide(front), last.text);
      SubsequenceAppend(Kept(front), NewSide(front), last.text);
    }
  }

  // How many lines a script removes or adds.
  function Changes(steps: seq<Step>): (n: nat) {
    if steps == [] then 0
    else Changes(steps[..|steps| - 1]) + (if steps[|steps| - 1].kind.Keep? then 0 else 1)
  }

  lemma {:induction false} ChangesBalance(steps: seq<Step>)
    ensures |OldSide(steps)| + |NewSide(steps)| == Changes(steps) + 2 * |Kept(steps)|
  {
    if steps != [] {
      ChangesBalance(steps[..|steps| - 1]);
    }
  }

  // No faithful script between the same two files removes and adds fewer lines.
  ghost predicate Minimal(steps: seq<Step>) {
    forall other :: Faithful(other, OldSide(steps), NewSide(steps)) ==> Changes(steps) <= Changes(other)
  }

  // A script that keeps LcsLength lines is minimal.
  lemma KeepingLcsIsMinimal(steps: seq<Step>)
    requires |Kept(steps)| == LcsLength(OldSide(steps), NewSide(steps))
    ensures Minimal(steps)
  {
    ChangesBalance(steps);
    forall other | Faithful(other, OldSide(steps), NewSide(steps))
      ensures Changes(steps) <= Changes(other)
    {
      ChangesBalance(other);
      KeptIsCommon(other);
      LcsLengthBounds(Kept(other), OldSide(steps), NewSide(steps));
    }
  }
}
