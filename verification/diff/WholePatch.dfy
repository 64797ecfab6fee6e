// The patch of a whole plan: one section a file, in path order, and what applying its text does to a tree.
module WholePatch {
  import opened Maps
  import opened Wrappers
  import opened Sorting
  import opened Script
  import opened Lines
  import opened Hunks
  import opened PatchText
  import opened WriteDiff

  datatype FileChange = FileChange(path: string, before: string, after: string, existed: bool)

  type Tree = map<string, string>

  const NOWHERE: string := "/dev/null"

  function PathOf(c: FileChange): string {
    c.path
  }

  function OldName(path: string, existed: bool): string {
    if existed then "a/" + path else NOWHERE
  }

  function FileHeader(path: string, existed: bool): string {
    "--- " + ((OldName(path, existed) + "\n") + ("+++ b/" + (path + "\n")))
  }

  // The two lines above the hunks of a file, and that a file which is created comes from nowhere.
  lemma HeaderText(path: string)
    ensures FileHeader(path, true) == "--- a/" + path + "\n+++ b/" + path + "\n"
    ensures FileHeader(path, false) == "--- /dev/null\n+++ b/" + path + "\n"
  {
    assert "\n" + "+++ b/" == "\n+++ b/";
    assert "a/" + path + "\n" + ("+++ b/" + (path + "\n")) == "a/" + path + ("\n" + "+++ b/") + path + "\n";
    assert NOWHERE + "\n" + ("+++ b/" + (path + "\n")) == NOWHERE + ("\n" + "+++ b/") + path + "\n";
  }

  // ---- Reading a whole patch ----

  datatype Section = Section(path: string, existed: bool, hunks: seq<Hunk>)

  function ReadName(text: string): (result: Option<(string, string)>)
    ensures result.Some? ==> |result.value.1| < |text|
  {
    var n := LineEnd(text);
    if !Terminated(text[..n]) then None else Some((text[..n - 1], text[n..]))
  }

  function ReadFileHeader(text: string): (result: Option<(string, bool, string)>)
    ensures result.Some? ==> |result.value.2| < |text|
  {
    var t0 :- Expect(text, "--- ");
    var (old', t1) :- ReadName(t0);
    var t2 :- Expect(t1, "+++ b/");
    var (path, t3) :- ReadName(t2);
    if old' == NOWHERE then Some((path, false, t3))
    else if old' == "a/" + path then Some((path, true, t3)) else None
  }

  // Hunks as long as there are any.
  function ReadSomeHunks(text: string): (result: Option<(seq<Hunk>, string)>)
    ensures result.Some? ==> |result.value.1| <= |text|
    decreases |text|
  {
    if text == [] || text[0] != '@' then Some(([], text))
    else
      var (h, t) :- ReadHeader(text);
      var (body, rest) :- ReadBody(t, h.oldCount, h.newCount);
      var (more, after) :- ReadSomeHunks(rest);
      Some(([Hunk(h.oldStart, h.oldCount, h.newStart, h.newCount, body)] + more, after))
  }

  function ReadSections(text: string): Option<seq<Section>>
    decreases |text|
  {
    if text == [] then Some([])
    else
      var (path, existed, t) :- ReadFileHeader(text);
      var (hunks, rest) :- ReadSomeHunks(t);
      var more :- ReadSections(rest);
      Some([Section(path, existed, hunks)] + more)
  }

  // A section must find its file, or find none where it creates one.
  function ApplySection(tree: Tree, s: Section): Option<Tree> {
    if s.existed != (s.path in tree) then None
    else
      var lines :- Apply(SplitLines(if s.existed then tree[s.path] else ""), s.hunks);
      Some(tree[s.path := Join(lines)])
  }

  function ApplySections(tree: Tree, sections: seq<Section>): Option<Tree>
    decreases |sections|
  {
    if sections == [] then Some(tree)
    else
      var next :- ApplySection(tree, sections[0]);
      ApplySections(next, sections[1..])
  }

  function ApplyDiff(tree: Tree, text: string): Option<Tree> {
    var sections :- ReadSections(text);
    ApplySections(tree, sections)
  }

  // ---- Reading undoes writing ----

  function RenderSection(s: Section): string {
    FileHeader(s.path, s.existed) + RenderHunks(s.hunks)
  }

  function RenderSections(sections: seq<Section>): string {
    if sections == [] then "" else RenderSection(sections[0]) + RenderSections(sections[1..])
  }

  ghost predicate Readable(s: Section) {
    '\n' !in s.path && forall k | 0 <= k < |s.hunks| :: Printable(s.hunks[k])
  }

  // What may follow the hunks of a file: another file, or nothing.
  predicate StartsFile(rest: string) {
    rest == [] || rest[0] == '-'
  }

  lemma NameOwn(name: string, rest: string)
    requires '\n' !in name
    ensures ReadName((name + "\n") + rest) == Some((name, rest))
  {
    var line := name + "\n";
    assert IsLine(line) by {
      forall k | 0 <= k < |line| - 1 ensures line[k] != '\n' { assert line[k] == name[k]; }
    }
    LineEndOfLine(line, rest);
    hide LineEnd;
    var text := line + rest;
    assert text[..|line|] == line && text[|line|..] == rest && text[..|line| - 1] == name;
  }

  lemma FileHeaderOwn(path: string, existed: bool, rest: string)
    requires '\n' !in path
    ensures ReadFileHeader(FileHeader(path, existed) + rest) == Some((path, existed, rest))
  {
    hide Expect, ReadName;
    var name := OldName(path, existed);
    var t2 := (path + "\n") + rest;
    var t1 := "+++ b/" + t2;
    var t0 := (name + "\n") + t1;
    assert FileHeader(path, existed) + rest == "--- " + t0;
    assert existed ==> name[0] != NOWHERE[0];
    ExpectOwn("--- ", t0);
    NameOwn(name, t1);
    ExpectOwn("+++ b/", t2);
    NameOwn(path, rest);
  }

  lemma {:induction false} SomeHunksOwn(hunks: seq<Hunk>, rest: string)
    requires (forall k | 0 <= k < |hunks| :: Printable(hunks[k])) && StartsFile(rest)
    ensures ReadSomeHunks(RenderHunks(hunks) + rest) == Some((hunks, rest))
    decreases |hunks|
  {
    hide OldSide, NewSide, ReadHeader, ReadBody, RenderBody, RenderHeader, AllLines;
    if hunks == [] {
      assert RenderHunks(hunks) + rest == rest;
    } else {
      var h, later := hunks[0], RenderHunks(hunks[1..]) + rest;
      SomeHunksOwn(hunks[1..], rest);
      FirstRendered(hunks);
      HunksOwn(hunks[1..]);
      assert NotMarker(later) by { if RenderHunks(hunks[1..]) == [] { assert later == rest; } }
      assert RenderHunks(hunks) + rest == RenderHeader(h) + (RenderBody(h.body) + later);
      hide RenderHunks, NotMarker;
      HeaderClean(h, RenderBody(h.body) + later);
      HeaderOwn(h, RenderBody(h.body) + later);
      BodyOwn(h.body, later);
      assert [h] + hunks[1..] == hunks;
    }
  }

  lemma FirstSectionOwn(s: Section, rest: string, more: seq<Section>)
    requires Readable(s) && StartsFile(rest) && ReadSections(rest) == Some(more)
    ensures ReadSections(RenderSection(s) + rest) == Some([s] + more) && StartsFile(RenderSection(s) + rest)
  {
    hide ReadFileHeader, ReadSomeHunks, RenderHunks, Printable;
    var body := RenderHunks(s.hunks) + rest;
    var text := FileHeader(s.path, s.existed) + body;
    FileHeaderOwn(s.path, s.existed, body);
    SomeHunksOwn(s.hunks, rest);
    assert text[0] == '-' by { assert FileHeader(s.path, s.existed)[0] == '-'; }
    hide FileHeader;
    assert RenderSection(s) + rest == text;
  }

  lemma {:induction false} SectionsOwn(sections: seq<Section>)
    requires forall k | 0 <= k < |sections| :: Readable(sections[k])
    ensures ReadSections(RenderSections(sections)) == Some(sections)
    ensures StartsFile(RenderSections(sections))
    decreases |sections|
  {
    if sections != [] {
      assert Readable(sections[0]);
      hide ReadSections, RenderSection, Readable;
      SectionsOwn(sections[1..]);
      FirstSectionOwn(sections[0], RenderSections(sections[1..]), sections[1..]);
      assert [sections[0]] + sections[1..] == sections;
    }
  }

  lemma {:induction false} RenderOneMore(sections: seq<Section>, s: Section)
    ensures RenderSections(sections + [s]) == RenderSections(sections) + RenderSection(s)
    decreases |sections|
  {
    hide RenderSection;
    if sections == [] {
      assert ([] + [s])[1..] == [];
    } else {
      RenderOneMore(sections[1..], s);
      assert (sections + [s])[1..] == sections[1..] + [s];
    }
  }

  // ---- What the sections of a plan do ----

  // The section of a change: the hunks show a script that leads from its old contents to its new ones.
  ghost predicate SectionOf(c: FileChange, s: Section) {
    && s.path == c.path && s.existed == c.existed && (forall k | 0 <= k < |s.hunks| :: Printable(s.hunks[k]))
    && Apply(SplitLines(c.before), s.hunks) == Some(SplitLines(c.after)) && Diffs(c.before, c.after, s.hunks)
  }

  // One section for each change that changes something, in order.
  ghost predicate Describes(list: seq<FileChange>, sections: seq<Section>)
    decreases |list|
  {
    if list == [] then sections == []
    else if list[0].before == list[0].after then Describes(list[1..], sections)
    else sections != [] && SectionOf(list[0], sections[0]) && Describes(list[1..], sections[1..])
  }

  lemma {:induction false} DescribesOneMore(list: seq<FileChange>, sections: seq<Section>, c: FileChange, more: seq<Section>)
    requires Describes(list, sections)
    requires if c.before == c.after then more == [] else |more| == 1 && SectionOf(c, more[0])
    ensures Describes(list + [c], sections + more)
    decreases |list|
  {
    hide SectionOf;
    if list == [] {
      assert ([] + [c])[1..] == [] && sections + more == more && (more != [] ==> more[1..] == []);
    } else {
      assert (list + [c])[0] == list[0] && (list + [c])[1..] == list[1..] + [c];
      if list[0].before == list[0].after {
        DescribesOneMore(list[1..], sections, c, more);
      } else {
        DescribesOneMore(list[1..], sections[1..], c, more);
        assert (sections + more)[0] == sections[0] && (sections + more)[1..] == sections[1..] + more;
      }
    }
  }

  // The tree the changes were planned from.
  predicate Planned(tree: Tree, c: FileChange) {
    if c.existed then c.path in tree && tree[c.path] == c.before else c.path !in tree && c.before == ""
  }

  ghost predicate AllPlanned(tree: Tree, list: seq<FileChange>) {
    forall c | c in list :: Planned(tree, c)
  }

  predicate Touches(c: FileChange, path: string) {
    c.path == path && c.before != c.after
  }

  // Changed files hold their new contents; every other path is as it was.
  ghost predicate Carried(tree: Tree, list: seq<FileChange>, out: Tree) {
    && (forall c | c in list && c.before != c.after :: c.path in out && out[c.path] == c.after)
    && (forall p | (forall c | c in list :: !Touches(c, p)) :: SameAt(tree, out, p))
  }

  lemma SectionApplies(tree: Tree, c: FileChange, s: Section)
    requires Planned(tree, c) && SectionOf(c, s)
    ensures ApplySection(tree, s) == Some(tree[c.path := c.after])
  {
    hide Apply, Printable;
    SplitThenJoin(c.after);
  }

  lemma {:induction false} SectionsApply(tree: Tree, list: seq<FileChange>, sections: seq<Section>)
    requires Describes(list, sections) && AllPlanned(tree, list) && DistinctKeys(list, PathOf)
    ensures ApplySections(tree, sections).Some? && Carried(tree, list, ApplySections(tree, sections).value)
    decreases |list|
  {
    hide SectionOf, ApplySection;
    if list != [] {
      var c, rest := list[0], list[1..];
      assert forall k | 0 <= k < |rest| :: rest[k] == list[k + 1] && PathOf(rest[k]) == PathOf(list[k + 1]);
      assert forall d :: d in list <==> d == c || d in rest;
      assert c in list;
      FirstApart(list);
      if c.before == c.after {
        SectionsApply(tree, rest, sections);
      } else {
        SectionApplies(tree, c, sections[0]);
        var next := tree[c.path := c.after];
        SectionsApply(next, rest, sections[1..]);
        CarriedFurther(tree, next, c, rest, ApplySections(next, sections[1..]).value);
      }
    }
  }

  lemma FirstApart(list: seq<FileChange>)
    requires list != [] && DistinctKeys(list, PathOf)
    ensures DistinctKeys(list[1..], PathOf) && forall d | d in list[1..] :: d.path != list[0].path
  {
    var rest := list[1..];
    forall i, j | 0 <= i < j < |rest| ensures PathOf(rest[i]) != PathOf(rest[j]) {
      assert PathOf(list[i + 1]) != PathOf(list[j + 1]);
    }
    forall d | d in rest ensures d.path != list[0].path {
      var k :| 0 <= k < |rest| && rest[k] == d;
      assert PathOf(list[0]) != PathOf(list[k + 1]);
    }
  }

  lemma CarriedFurther(tree: Tree, next: Tree, c: FileChange, rest: seq<FileChange>, out: Tree)
    requires c.before != c.after && next == tree[c.path := c.after] && Carried(next, rest, out)
    requires forall d | d in rest :: d.path != c.path
    ensures Carried(tree, [c] + rest, out)
  {
    assert forall d | d in rest :: !Touches(d, c.path);
    assert SameAt(next, out, c.path);
    forall p | forall d | d in [c] + rest :: !Touches(d, p) ensures SameAt(tree, out, p) {
      assert c in [c] + rest && !Touches(c, p);
      assert forall d | d in rest :: d in [c] + rest;
      assert SameAt(next, out, p);
    }
  }

  lemma {:induction false} DescribesReadable(list: seq<FileChange>, sections: seq<Section>)
    requires Describes(list, sections) && forall c | c in list :: '\n' !in c.path
    ensures forall k | 0 <= k < |sections| :: Readable(sections[k])
    ensures sections == [] <==> forall c | c in list :: c.before == c.after
    decreases |list|
  {
    hide Printable;
    if list != [] {
      assert forall c :: c in list <==> c == list[0] || c in list[1..];
      if list[0].before == list[0].after {
        DescribesReadable(list[1..], sections);
      } else {
        DescribesReadable(list[1..], sections[1..]);
        forall k | 0 <= k < |sections| ensures Readable(sections[k]) {
          if k > 0 { assert sections[k] == sections[1..][k - 1]; }
        }
      }
    }
  }

  ghost predicate DistinctPlainPaths(changes: seq<FileChange>) {
    DistinctKeys(changes, PathOf) && forall c | c in changes :: '\n' !in c.path
  }

  // What any text with the sections of a plan does to the tree the plan was made from.
  lemma SectionsReachPlan(changes: seq<FileChange>, sections: seq<Section>, tree: Tree)
    requires Describes(Sort(changes, ByKey(PathOf)), sections)
    requires DistinctPlainPaths(changes) && AllPlanned(tree, changes)
    ensures var out := ApplyDiff(tree, RenderSections(sections)); out.Some? && Carried(tree, changes, out.value)
  {
    var ordered := Sort(changes, ByKey(PathOf));
    SameMembers(changes, ordered);
    DistinctUnderPermutation(changes, ordered, PathOf);
    hide ReadSections, RenderSections, Describes, ApplySections, Readable, Sort, Carried, Planned, DistinctKeys, ByKey;
    DescribesReadable(ordered, sections);
    SectionsOwn(sections);
    SectionsApply(tree, ordered, sections);
    CarriedInAnyOrder(tree, ordered, changes, ApplySections(tree, sections).value);
  }

  lemma CarriedInAnyOrder(tree: Tree, list: seq<FileChange>, other: seq<FileChange>, out: Tree)
    requires Carried(tree, list, out) && forall c :: c in list <==> c in other
    ensures Carried(tree, other, out)
  {
    hide SameAt;
  }

  // ---- The method ----

  // Writes the diff of all changes in path order. Applied to the tree the plan was made from, its text
  // gives the tree the plan leads to, but that a file created empty is not in it.
  method WriteAll(changes: seq<FileChange>) returns (text: string, ghost sections: seq<Section>)
    ensures text == RenderSections(sections) && Describes(Sort(changes, ByKey(PathOf)), sections)
    ensures DistinctPlainPaths(changes) ==> forall tree | AllPlanned(tree, changes) ::
      ApplyDiff(tree, text).Some? && Carried(tree, changes, ApplyDiff(tree, text).value)
  {
    var ordered := Sort(changes, ByKey(PathOf));
    text, sections := "", [];
    hide Describes, SectionOf, Writes, RenderSections, RenderHunks, ByKey, Sort;
    NoSections();
    for i := 0 to |ordered|
      invariant text == RenderSections(sections) && Describes(ordered[..i], sections)
    {
      var c := ordered[i];
      assert ordered[..i + 1] == ordered[..i] + [c];
      ghost var more: seq<Section> := [];
      if c.before != c.after {
        var patch;
        ghost var hunks;
        patch, hunks := DiffFile(c.before, c.after);
        var oldName := if c.existed then "a/" + c.path else NOWHERE;
        ghost var was := text;
        text := text + "--- " + oldName + "\n" + "+++ b/" + c.path + "\n" + patch;
        more := [Section(c.path, c.existed, hunks)];
        WrittenSection(c, patch, hunks);
        RenderOneMore(sections, more[0]);
        TextOfSection(was, c.path, c.existed, patch, text);
        hide RenderSection, FileHeader;
      } else {
        assert sections + more == sections;
      }
      DescribesOneMore(ordered[..i], sections, c, more);
      sections := sections + more;
    }
    assert ordered[..|ordered|] == ordered;
    if DistinctPlainPaths(changes) {
      hide ApplyDiff, AllPlanned, Carried;
      forall tree | AllPlanned(tree, changes)
        ensures ApplyDiff(tree, text).Some? && Carried(tree, changes, ApplyDiff(tree, text).value)
      {
        SectionsReachPlan(changes, sections, tree);
      }
    }
  }

  lemma NoSections()
    ensures RenderSections([]) == "" && Describes([], [])
  {
  }

  lemma WrittenSection(c: FileChange, patch: string, hunks: seq<Hunk>)
    requires Writes(c.before, c.after, patch, hunks) && c.before != c.after
    ensures SectionOf(c, Section(c.path, c.existed, hunks))
    ensures RenderSection(Section(c.path, c.existed, hunks)) == FileHeader(c.path, c.existed) + patch
  {
  }

  lemma TextOfSection(was: string, path: string, existed: bool, patch: string, text: string)
    requires text == was + "--- " + OldName(path, existed) + "\n" + "+++ b/" + path + "\n" + patch
    ensures text == was + (FileHeader(path, existed) + patch)
  {
    var name := OldName(path, existed);
    assert "--- " + ((name + "\n") + ("+++ b/" + (path + "\n"))) == "--- " + name + "\n" + "+++ b/" + path + "\n";
  }
}
