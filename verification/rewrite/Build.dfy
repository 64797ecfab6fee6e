// Folding a list of edits, each on one file, into a plan of whole-file changes.
module Build {
  import opened Wrappers
  import opened Sorting

  // An edit names its file, says whether it may create it, and rewrites its text or fails.
  datatype Edit = Edit(file: string, canCreate: bool, apply: (string, string) -> Option<string>)

  datatype Found = Regular(content: string, mode: nat) | Irregular | Absent | Unreadable

  // The directory the plan is for: which names resolve inside it, what stands there, what parses.
  datatype Root = Root(resolve: string -> Option<string>, lookup: string -> Found, parses: string -> bool)

  datatype Change = Change(path: string, before: string, after: string, mode: nat, present: bool)

  datatype Fault = NilEdit | BadPath | NotRegular | CannotRead | DoesNotExist | EditFailed | InvalidResult

  const NEW_FILE_MODE: nat := 384

  // Nil edits have no file, and neither have names that do not resolve.
  function FileOf(root: Root, edit: Option<Edit>): Option<string> {
    if edit.None? then None else root.resolve(edit.value.file)
  }

  function Opened(root: Root, name: string, canCreate: bool): Result<Change, Fault> {
    match root.lookup(name)
    case Regular(content, mode) => Success(Change(name, content, content, mode, true))
    case Irregular => Failure(NotRegular)
    case Absent => if canCreate then Success(Change(name, "", "", NEW_FILE_MODE, false)) else Failure(DoesNotExist)
    case Unreadable => Failure(CannotRead)
  }

  function Applied(root: Root, change: Change, edit: Edit): Result<Change, Fault> {
    match edit.apply(change.after, change.path)
    case None => Failure(EditFailed)
    case Some(next) => if root.parses(next) then Success(change.(after := next)) else Failure(InvalidResult)
  }

  // One edit on a file staged so far, or not yet opened.
  function Touched(root: Root, staged: Option<Change>, name: string, edit: Edit): Result<Change, Fault> {
    var change :- if staged.Some? then Success(staged.value) else Opened(root, name, edit.canCreate);
    Applied(root, change, edit)
  }

  function Lookup(staged: map<string, Change>, name: string): Option<Change> {
    if name in staged then Some(staged[name]) else None
  }

  // All edits in order over all files: the staged changes, or the first edit that fails and why.
  function RunEdits(root: Root, edits: seq<Option<Edit>>, index: nat, staged: map<string, Change>)
    : Result<map<string, Change>, (nat, Fault)>
    decreases |edits|
  {
    if edits == [] then Success(staged)
    else if edits[0].None? then Failure((index, NilEdit))
    else
      match FileOf(root, edits[0])
      case None => Failure((index, BadPath))
      case Some(name) =>
        match Touched(root, Lookup(staged, name), name, edits[0].value)
        case Failure(fault) => Failure((index, fault))
        case Success(change) => RunEdits(root, edits[1..], index + 1, staged[name := change])
  }

  // ---- Each file by itself ----

  // The edits on one file, in order; None selects the edits that are on no file.
  function Own(root: Root, edits: seq<Option<Edit>>, file: Option<string>): (own: seq<Option<Edit>>)
    ensures forall e | e in own :: FileOf(root, e) == file
  {
    if edits == [] then []
    else (if FileOf(root, edits[0]) == file then [edits[0]] else []) + Own(root, edits[1..], file)
  }

  // The edits of a single file, knowing nothing of any other.
  function FileRun(root: Root, name: string, own: seq<Option<Edit>>, change: Option<Change>): Result<Option<Change>, Fault>
    requires forall e | e in own :: FileOf(root, e) == Some(name)
    decreases |own|
  {
    if own == [] then Success(change)
    else
      assert own[0] in own && FileOf(root, own[0]) == Some(name);
      var next :- Touched(root, change, name, own[0].value);
      FileRun(root, name, own[1..], Some(next))
  }

  function Alone(root: Root, edits: seq<Option<Edit>>, staged: map<string, Change>, name: string): Result<Option<Change>, Fault> {
    FileRun(root, name, Own(root, edits, Some(name)), Lookup(staged, name))
  }

  // An edit is the first of its own file, and no part of any other's.
  lemma AloneStep(root: Root, edits: seq<Option<Edit>>, staged: map<string, Change>, name: string, file: string)
    requires edits != [] && FileOf(root, edits[0]) == Some(file)
    ensures Own(root, edits, None) == Own(root, edits[1..], None)
    ensures match Touched(root, Lookup(staged, file), file, edits[0].value)
      case Failure(_) => Alone(root, edits, staged, file).Failure?
      case Success(change) => Alone(root, edits, staged, name) == Alone(root, edits[1..], staged[file := change], name)
  {
    hide Touched;
    assert Own(root, edits, None) == Own(root, edits[1..], None);
    if name != file {
      assert Own(root, edits, Some(name)) == Own(root, edits[1..], Some(name));
    }
    var own, rest := Own(root, edits, Some(file)), Own(root, edits[1..], Some(file));
    assert own == [edits[0]] + rest;
    assert own[0] == edits[0] && own[1..] == rest;
  }

  // The fold over all edits succeeds exactly when every edit is on some file and every file's own fold
  // succeeds, and what it stages for a file is what that file's own edits make of it.
  lemma {:induction false} EachFileAlone(root: Root, edits: seq<Option<Edit>>, index: nat, staged: map<string, Change>)
    ensures RunEdits(root, edits, index, staged).Success? <==>
      Own(root, edits, None) == [] && forall name :: Alone(root, edits, staged, name).Success?
    ensures RunEdits(root, edits, index, staged).Success? ==>
      forall name :: Alone(root, edits, staged, name) == Success(Lookup(RunEdits(root, edits, index, staged).value, name))
    decreases |edits|
  {
    hide Touched;
    if edits == [] {
      assert forall name :: Alone(root, edits, staged, name) == Success(Lookup(staged, name));
    } else if FileOf(root, edits[0]).None? {
      assert edits[0] in Own(root, edits, None);
    } else {
      var file := FileOf(root, edits[0]).value;
      var touched := Touched(root, Lookup(staged, file), file, edits[0].value);
      AloneStep(root, edits, staged, file, file);
      if touched.Success? {
        var staged' := staged[file := touched.value];
        EachFileAlone(root, edits[1..], index + 1, staged');
        forall name ensures Alone(root, edits, staged, name) == Alone(root, edits[1..], staged', name) {
          AloneStep(root, edits, staged, name, file);
        }
        hide Alone, Own;
      }
    }
  }

  // ---- The plan ----

  ghost predicate PathSorted(plan: seq<Change>) {
    forall i, j | 0 <= i < j < |plan| :: StringLess(plan[i].path, plan[j].path)
  }

  // Strictly sorted by path, and exactly the staged changes that change something.
  ghost predicate IsPlan(staged: map<string, Change>, plan: seq<Change>) {
    && PathSorted(plan)
    && forall c :: c in plan <==> c.path in staged && staged[c.path] == c && c.before != c.after
  }

  ghost predicate PathsFit(staged: map<string, Change>) {
    forall name | name in staged :: staged[name].path == name
  }

  lemma {:induction false} RunKeepsPaths(root: Root, edits: seq<Option<Edit>>, index: nat, staged: map<string, Change>)
    requires PathsFit(staged)
    ensures RunEdits(root, edits, index, staged).Success? ==> PathsFit(RunEdits(root, edits, index, staged).value)
    decreases |edits|
  {
    if edits != [] && edits[0].Some? && FileOf(root, edits[0]).Some? {
      var file := FileOf(root, edits[0]).value;
      var touched := Touched(root, Lookup(staged, file), file, edits[0].value);
      if touched.Success? {
        RunKeepsPaths(root, edits[1..], index + 1, staged[file := touched.value]);
      }
    }
  }

  // The outcome of a build: the first failing edit, or the plan.
  ghost predicate IsOutcome(root: Root, edits: seq<Option<Edit>>, r: Result<seq<Change>, (nat, Fault)>) {
    match RunEdits(root, edits, 0, map[])
    case Failure(e) => r == Failure(e)
    case Success(staged) => r.Success? && IsPlan(staged, r.value)
  }

  function PathOf(c: Change): string {
    c.path
  }

  function First(plan: seq<Change>): (first: Option<Change>)
    ensures first.None? <==> plan == []
    ensures first.Some? ==> first.value in plan
  {
    if plan == [] then None else Some(plan[0])
  }

  // Two strictly sorted plans with the same changes are the same.
  lemma {:induction false} PlanIsUnique(p: seq<Change>, q: seq<Change>)
    requires PathSorted(p) && PathSorted(q) && forall c :: c in p <==> c in q
    ensures p == q
    decreases |p|
  {
    StringOrder();
    hide StringLess;
    if p == [] {
      assert First(q).None?;
    } else {
      assert p[0] in q;
      var k :| 0 <= k < |q| && q[k] == p[0];
      assert q[0] in p;
      var m :| 0 <= m < |p| && p[m] == q[0];
      assert k == 0 && m == 0 by { StringLessTotal(p[0].path, q[0].path); }
      forall c ensures c in p[1..] <==> c in q[1..] {
        NotRepeated(p);
        NotRepeated(q);
        assert c in p <==> c == p[0] || c in p[1..];
        assert c in q <==> c == q[0] || c in q[1..];
      }
      PlanIsUnique(p[1..], q[1..]);
      assert p == [p[0]] + p[1..] && q == [q[0]] + q[1..];
    }
  }

  lemma NotRepeated(p: seq<Change>)
    requires PathSorted(p) && p != []
    ensures p[0] !in p[1..]
  {
    StringLessTotal(p[0].path, p[0].path);
    assert forall k | 0 < k < |p| :: StringLess(p[0].path, p[k].path);
  }

  // Only each file's own subsequence of edits matters: however the edits on different files are
  // interleaved, the build succeeds or fails alike, and the plans are equal.
  lemma InterleavingIsIrrelevant(root: Root, edits: seq<Option<Edit>>, other: seq<Option<Edit>>,
                                 r: Result<seq<Change>, (nat, Fault)>, s: Result<seq<Change>, (nat, Fault)>)
    requires forall file :: Own(root, edits, file) == Own(root, other, file)
    requires IsOutcome(root, edits, r) && IsOutcome(root, other, s)
    ensures r.Success? <==> s.Success?
    ensures r.Success? ==> r.value == s.value
  {
    EachFileAlone(root, edits, 0, map[]);
    EachFileAlone(root, other, 0, map[]);
    forall name ensures Alone(root, edits, map[], name) == Alone(root, other, map[], name) {
      assert Own(root, edits, Some(name)) == Own(root, other, Some(name));
    }
    assert Own(root, edits, None) == Own(root, other, None);
    if r.Success? {
      var x, y := RunEdits(root, edits, 0, map[]).value, RunEdits(root, other, 0, map[]).value;
      forall name ensures Lookup(x, name) == Lookup(y, name) {
        assert Alone(root, edits, map[], name) == Alone(root, other, map[], name);
      }
      hide RunEdits, Alone, Own;
      forall name ensures name in x <==> name in y { assert Lookup(x, name) == Lookup(y, name); }
      forall name | name in x ensures x[name] == y[name] { assert Lookup(x, name) == Lookup(y, name); }
      assert x == y;
      PlanIsUnique(r.value, s.value);
    }
  }

  // ---- Every After is the composition of that file's edits on its Before ----

  function Composed(own: seq<Option<Edit>>, text: string, name: string): Option<string>
    requires forall e | e in own :: e.Some?
  {
    if own == [] then Some(text)
    else
      assert own[0] in own;
      var next :- own[0].value.apply(text, name);
      Composed(own[1..], next, name)
  }

  lemma {:induction false} RunComposes(root: Root, name: string, own: seq<Option<Edit>>, change: Change)
    requires forall e | e in own :: FileOf(root, e) == Some(name)
    requires FileRun(root, name, own, Some(change)).Success? && change.path == name
    ensures var end := FileRun(root, name, own, Some(change)).value;
      && end.Some? && end.value == change.(after := end.value.after)
      && Composed(own, change.after, name) == Some(end.value.after)
      && (own != [] ==> root.parses(end.value.after))
    decreases |own|
  {
    if own != [] {
      assert own[0] in own;
      var next := Touched(root, Some(change), name, own[0].value).value;
      RunComposes(root, name, own[1..], next);
    }
  }

  // What a file with edits ends up staged as.
  lemma StagedChange(root: Root, edits: seq<Option<Edit>>, name: string)
    requires RunEdits(root, edits, 0, map[]).Success? && Own(root, edits, Some(name)) != []
    ensures var staged, own := RunEdits(root, edits, 0, map[]).value, Own(root, edits, Some(name));
      && name in staged && IsFrom(root, own, staged[name]) && staged[name].path == name
      && root.parses(staged[name].after) && (!staged[name].present ==> own[0].Some? && own[0].value.canCreate)
  {
    EachFileAlone(root, edits, 0, map[]);
    var own, staged := Own(root, edits, Some(name)), RunEdits(root, edits, 0, map[]).value;
    assert Alone(root, edits, map[], name) == Success(Lookup(staged, name));
    hide RunEdits;
    assert own[0] in own;
    var first := Opened(root, name, own[0].value.canCreate).value;
    assert FileRun(root, name, own, Some(first)) == FileRun(root, name, own, None);
    RunComposes(root, name, own, first);
  }

  // A change from what stands in the directory to the composition of the given edits; a file that does
  // not stand there is empty before, and gets mode 0600.
  ghost predicate IsFrom(root: Root, own: seq<Option<Edit>>, c: Change) {
    && (forall e | e in own :: e.Some?) && Composed(own, c.before, c.path) == Some(c.after)
    && (c.present ==> root.lookup(c.path) == Regular(c.before, c.mode))
    && (!c.present ==> root.lookup(c.path) == Absent && c.before == "" && c.mode == 384)
  }

  // The planned changes are exactly those of the files with edits whose composition differs from what
  // stands in the directory.
  lemma PlannedIff(root: Root, edits: seq<Option<Edit>>, plan: seq<Change>, c: Change)
    requires IsOutcome(root, edits, Success(plan))
    ensures var own := Own(root, edits, Some(c.path));
      c in plan <==> own != [] && c.before != c.after && IsFrom(root, own, c)
  {
    var staged, own := RunEdits(root, edits, 0, map[]).value, Own(root, edits, Some(c.path));
    if own != [] {
      StagedChange(root, edits, c.path);
    } else {
      EachFileAlone(root, edits, 0, map[]);
      assert Alone(root, edits, map[], c.path) == Success(Lookup(staged, c.path));
    }
    hide RunEdits, Own;
  }

  // A planned change parses, and a file that did not stand there is one its first edit may create.
  lemma PlannedChange(root: Root, edits: seq<Option<Edit>>, plan: seq<Change>, c: Change)
    requires IsOutcome(root, edits, Success(plan)) && c in plan
    ensures root.parses(c.after)
    ensures !c.present ==> exists e, rest :: Own(root, edits, Some(c.path)) == [Some(e)] + rest && e.canCreate
  {
    PlannedIff(root, edits, plan, c);
    var own := Own(root, edits, Some(c.path));
    StagedChange(root, edits, c.path);
    hide RunEdits, Own;
    if !c.present { assert own == [Some(own[0].value)] + own[1..]; }
  }

  // ---- When a build succeeds ----

  // The text a file starts from.
  function StartText(root: Root, name: string): string {
    match root.lookup(name) case Regular(content, _) => content case _ => ""
  }

  // What is wrong with the edit at an index: it is nil, its name does not resolve, it is the first on
  // its file and the file cannot be opened, or it fails on what the file's earlier edits made of the
  // file, or that does not parse afterwards.
  ghost predicate Fails(root: Root, edits: seq<Option<Edit>>, i: nat, fault: Fault) {
    i < |edits| &&
    if edits[i].None? then fault == NilEdit
    else
      var edit := edits[i].value;
      match root.resolve(edit.file)
      case None => fault == BadPath
      case Some(name) =>
        var found, earlier := root.lookup(name), Own(root, edits[..i], Some(name));
        if earlier == [] && !found.Regular? && !(found.Absent? && edit.canCreate) then
          fault == (if found.Irregular? then NotRegular else if found.Absent? then DoesNotExist else CannotRead)
        else
          var next := Composed(earlier + [edits[i]], StartText(root, name), name);
          (next.None? && fault == EditFailed) || (next.Some? && !root.parses(next.value) && fault == InvalidResult)
  }

  // The staged changes after some edits: one for each file they are on, holding what they made of it.
  ghost predicate Staged(root: Root, done: seq<Option<Edit>>, staged: map<string, Change>) {
    forall name :: StagedFile(root, name, Own(root, done, Some(name)), Lookup(staged, name))
  }

  ghost predicate StagedFile(root: Root, name: string, own: seq<Option<Edit>>, change: Option<Change>)
    requires forall e | e in own :: e.Some?
  {
    && (change.None? <==> own == [])
    && (change.Some? ==> change.value.path == name && Composed(own, StartText(root, name), name) == Some(change.value.after))
  }

  lemma {:induction false} OwnGrows(root: Root, done: seq<Option<Edit>>, e: Option<Edit>, file: Option<string>)
    ensures Own(root, done + [e], file) == Own(root, done, file) + (if FileOf(root, e) == file then [e] else [])
  {
    if done == [] {
      assert done + [e] == [e];
    } else {
      assert (done + [e])[1..] == done[1..] + [e];
      OwnGrows(root, done[1..], e, file);
    }
  }

  lemma {:induction false} ComposedGrows(own: seq<Option<Edit>>, e: Edit, text: string, name: string)
    requires forall x | x in own :: x.Some?
    ensures Composed(own + [Some(e)], text, name) ==
      match Composed(own, text, name) case None => None case Some(t) => e.apply(t, name)
    decreases |own|
  {
    if own == [] {
      assert own + [Some(e)] == [Some(e)];
    } else {
      assert (own + [Some(e)])[1..] == own[1..] + [Some(e)] && own[0] in own;
      var next := own[0].value.apply(text, name);
      if next.Some? { ComposedGrows(own[1..], e, next.value, name); }
    }
  }

  // One edit on a file with its earlier edits: whether it goes through, and what it makes of the file.
  lemma TouchedFails(root: Root, edits: seq<Option<Edit>>, i: nat, name: string, change: Option<Change>)
    requires i < |edits| && FileOf(root, edits[i]) == Some(name)
    requires StagedFile(root, name, Own(root, edits[..i], Some(name)), change)
    ensures var r := Touched(root, change, name, edits[i].value);
      && (r.Failure? ==> Fails(root, edits, i, r.error))
      && (r.Success? ==> StagedFile(root, name, Own(root, edits[..i], Some(name)) + [edits[i]], Some(r.value)))
    ensures Touched(root, change, name, edits[i].value).Success? ==> forall f :: !Fails(root, edits, i, f)
  {
    ComposedGrows(Own(root, edits[..i], Some(name)), edits[i].value, StartText(root, name), name);
    hide Own, Composed;
  }

  lemma StagedGrows(root: Root, edits: seq<Option<Edit>>, index: nat, staged: map<string, Change>, name: string, next: Change)
    requires index < |edits| && Staged(root, edits[..index], staged) && FileOf(root, edits[index]) == Some(name)
    requires StagedFile(root, name, Own(root, edits[..index], Some(name)) + [edits[index]], Some(next))
    ensures Staged(root, edits[..index + 1], staged[name := next])
  {
    assert edits[..index + 1] == edits[..index] + [edits[index]];
    forall other ensures StagedFile(root, other, Own(root, edits[..index + 1], Some(other)), Lookup(staged[name := next], other)) {
      StagedOne(root, edits[..index], edits[index], staged, name, next, other);
    }
  }

  lemma StagedOne(root: Root, done: seq<Option<Edit>>, e: Option<Edit>, staged: map<string, Change>, name: string, next: Change, other: string)
    requires Staged(root, done, staged) && FileOf(root, e) == Some(name)
    requires StagedFile(root, name, Own(root, done, Some(name)) + [e], Some(next))
    ensures StagedFile(root, other, Own(root, done + [e], Some(other)), Lookup(staged[name := next], other))
  {
    hide Own, StagedFile;
    OwnGrows(root, done, e, Some(other));
    assert StagedFile(root, other, Own(root, done, Some(other)), Lookup(staged, other));
    assert Own(root, done, Some(other)) + [] == Own(root, done, Some(other));
    if other == name { assert Lookup(staged[name := next], other) == Some(next); }
  }

  // The fold stops at an edit that fails, and goes on with what one that does not fail has staged.
  lemma FirstStep(root: Root, edits: seq<Option<Edit>>, index: nat, staged: map<string, Change>) returns (next: map<string, Change>)
    requires index < |edits| && Staged(root, edits[..index], staged)
    ensures var r := RunEdits(root, edits[index..], index, staged);
      || (r.Failure? && r.error.0 == index && Fails(root, edits, index, r.error.1))
      || (&& (forall f :: !Fails(root, edits, index, f))
          && Staged(root, edits[..index + 1], next) && r == RunEdits(root, edits[index + 1..], index + 1, next))
  {
    var edit := edits[index];
    assert edits[index..][0] == edit && edits[index..][1..] == edits[index + 1..];
    next := staged;
    if FileOf(root, edit).Some? {
      var name := FileOf(root, edit).value;
      var touched := Touched(root, Lookup(staged, name), name, edit.value);
      TouchedFails(root, edits, index, name, Lookup(staged, name));
      if touched.Success? {
        StagedGrows(root, edits, index, staged, name, touched.value);
        next := staged[name := touched.value];
      }
      hide Fails, Staged, Touched;
    }
  }

  // From any point on, the fold stops at the first edit that fails and names its fault.
  lemma {:induction false} RunFails(root: Root, edits: seq<Option<Edit>>, index: nat, staged: map<string, Change>)
    requires index <= |edits| && Staged(root, edits[..index], staged)
    ensures match RunEdits(root, edits[index..], index, staged)
      case Failure(e) => index <= e.0 && Fails(root, edits, e.0, e.1) && forall j: nat, f | index <= j < e.0 :: !Fails(root, edits, j, f)
      case Success(_) => forall j: nat, f | index <= j :: !Fails(root, edits, j, f)
    decreases |edits| - index
  {
    hide Fails, Staged, RunEdits;
    if index < |edits| {
      var next := FirstStep(root, edits, index, staged);
      if Staged(root, edits[..index + 1], next) { RunFails(root, edits, index + 1, next); }
    } else {
      NothingLeft(root, edits, staged);
    }
  }

  lemma NothingLeft(root: Root, edits: seq<Option<Edit>>, staged: map<string, Change>)
    ensures RunEdits(root, edits[|edits|..], |edits|, staged) == Success(staged)
    ensures forall j: nat, f | |edits| <= j :: !Fails(root, edits, j, f)
  {
    hide Own, Composed;
  }

  // A build goes through exactly when no edit fails, and else it names the first that does.
  lemma OutcomeIff(root: Root, edits: seq<Option<Edit>>, r: Result<seq<Change>, (nat, Fault)>)
    requires IsOutcome(root, edits, r)
    ensures r.Success? <==> forall i: nat, f :: !Fails(root, edits, i, f)
    ensures r.Failure? ==> Fails(root, edits, r.error.0, r.error.1) && forall j: nat, f | j < r.error.0 :: !Fails(root, edits, j, f)
  {
    assert edits[..0] == [] && edits[0..] == edits;
    assert Staged(root, [], map[]);
    RunFails(root, edits, 0, map[]);
    hide Fails, RunEdits;
  }

  // ---- The method ----

  method RunAll(root: Root, edits: seq<Option<Edit>>) returns (r: Result<map<string, Change>, (nat, Fault)>)
    ensures r == RunEdits(root, edits, 0, map[])
  {
    var staged: map<string, Change> := map[];
    assert edits[0..] == edits;
    for index := 0 to |edits|
      invariant RunEdits(root, edits[index..], index, staged) == RunEdits(root, edits, 0, map[])
    {
      var edit := edits[index];
      assert edits[index..][0] == edit && edits[index..][1..] == edits[index + 1..];
      if edit.None? {
        return Failure((index, NilEdit));
      }
      var file := root.resolve(edit.value.file);
      if file.None? {
        return Failure((index, BadPath));
      }
      var name := file.value;
      ghost var was := staged;
      if name !in staged {
        var first := Opened(root, name, edit.value.canCreate);
        if first.Failure? {
          return Failure((index, first.error));
        }
        staged := staged[name := first.value];
      }
      var next := Applied(root, staged[name], edit.value);
      if next.Failure? {
        return Failure((index, next.error));
      }
      staged := staged[name := next.value];
      assert staged == was[name := next.value];
    }
    r := Success(staged);
  }

  ghost predicate Collected(staged: map<string, Change>, left: set<string>, found: seq<Change>) {
    && DistinctKeys(found, PathOf)
    && forall c :: c in found <==> c.path in staged && c.path !in left && staged[c.path] == c && c.before != c.after
  }

  // Picks up the changed files in whatever order the map yields them.
  method CollectChanged(staged: map<string, Change>) returns (found: seq<Change>)
    requires PathsFit(staged)
    ensures Collected(staged, {}, found)
  {
    found := [];
    var left := staged.Keys;
    while left != {}
      invariant left <= staged.Keys && Collected(staged, left, found)
      decreases |left|
    {
      var name :| name in left;
      left := left - {name};
      var change := staged[name];
      if change.before != change.after {
        OneMore(staged, left, name, found);
        found := found + [change];
      }
    }
  }

  lemma OneMore(staged: map<string, Change>, left: set<string>, name: string, found: seq<Change>)
    requires PathsFit(staged) && name in staged && name !in left && Collected(staged, left + {name}, found)
    requires staged[name].before != staged[name].after
    ensures Collected(staged, left, found + [staged[name]])
  {
    var change := staged[name];
    forall i | 0 <= i < |found| ensures PathOf(found[i]) != PathOf(change) {
      assert found[i] in found;
    }
  }

  lemma SortedIsPlan(staged: map<string, Change>, found: seq<Change>)
    requires Collected(staged, {}, found)
    ensures IsPlan(staged, Sort(found, ByKey(PathOf)))
  {
    var plan := Sort(found, ByKey(PathOf));
    ByKeyOrder(PathOf);
    SortSorted(found, ByKey(PathOf));
    SameMembers(plan, found);
    DistinctUnderPermutation(found, plan, PathOf);
    forall i, j | 0 <= i < j < |plan| ensures StringLess(plan[i].path, plan[j].path) {
      assert !ByKey(PathOf)(plan[j], plan[i]) && PathOf(plan[i]) != PathOf(plan[j]);
      StringLessTotal(plan[i].path, plan[j].path);
    }
  }

  method BuildPlan(root: Root, edits: seq<Option<Edit>>) returns (r: Result<seq<Change>, (nat, Fault)>)
    ensures IsOutcome(root, edits, r)
    ensures r.Success? <==> forall i: nat, f :: !Fails(root, edits, i, f)
    ensures r.Failure? ==> Fails(root, edits, r.error.0, r.error.1) && forall j: nat, f | j < r.error.0 :: !Fails(root, edits, j, f)
    ensures r.Success? ==> PathSorted(r.value)
    ensures r.Success? ==>
      forall c :: c in r.value <==> Own(root, edits, Some(c.path)) != [] && c.before != c.after && IsFrom(root, Own(root, edits, Some(c.path)), c)
  {
    hide Fails, IsFrom, Own;
    var staged := RunAll(root, edits);
    if staged.Failure? {
      OutcomeIff(root, edits, Failure(staged.error));
      return Failure(staged.error);
    }
    RunKeepsPaths(root, edits, 0, map[]);
    hide RunEdits;
    var found := CollectChanged(staged.value);
    SortedIsPlan(staged.value, found);
    r := Success(Sort(found, ByKey(PathOf)));
    OutcomeIff(root, edits, r);
    forall c ensures c in r.value <==>
      Own(root, edits, Some(c.path)) != [] && c.before != c.after && IsFrom(root, Own(root, edits, Some(c.path)), c)
    {
      PlannedIff(root, edits, r.value, c);
    }
  }
}
