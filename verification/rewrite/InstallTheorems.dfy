// What a caller can rely on once Apply returns, whichever system calls failed.
module InstallTheorems {
  import opened Maps
  import opened Wrappers
  import opened Disk
  import opened Install
  import opened InstallSafety

  // ---- Marking recovery copies ----

  // The entries after marking: only preserve flags differ, and each flag is matched by a report.
  ghost predicate Marked(staged: seq<Entry>, kept: seq<Entry>, files: Files, failures: seq<Failure>) {
    && |kept| == |staged|
    && (forall j | 0 <= j < |staged| :: kept[j] == staged[j].(preserve := kept[j].preserve))
    && (forall j | 0 <= j < |staged| :: kept[j].preserve <==> RecoveryCopy(staged[j].change.path) in failures)
    && (forall j | 0 <= j < |staged| && kept[j].preserve ::
          staged[j].installed && staged[j].change.existed && staged[j].backup.Some? && staged[j].backup.value in files)
  }

  lemma MarkOne(staged: seq<Entry>, kept: seq<Entry>, files: Files, failures: seq<Failure>, i: nat)
    requires Marked(staged, kept, files, failures) && DistinctDests(staged) && i < |staged|
    requires staged[i].installed && staged[i].change.existed && staged[i].backup.Some? && staged[i].backup.value in files
    ensures Marked(staged, kept[i := kept[i].(preserve := true)], files, failures + [RecoveryCopy(staged[i].change.path)])
  {
    forall j | 0 <= j < |staged| && j != i ensures staged[j].change.path != staged[i].change.path {
    }
  }

  lemma {:induction false} PreserveMarks(w: World, staged: seq<Entry>, kept: seq<Entry>, i: nat, failures: seq<Failure>, faults: Faults)
    requires i <= |kept| && DistinctDests(staged) && Marked(staged, kept, w.files, failures)
    ensures var (w', kept', failures') := PreserveFrom(w, kept, i, failures, faults);
      && w'.files == w.files && w'.history == w.history && w'.stuck == w.stuck
      && Marked(staged, kept', w.files, failures')
      && failures <= failures' && (forall f | f in failures' :: f in failures || f.RecoveryCopy?)
    decreases |kept| - i
  {
    if i < |kept| {
      var e := kept[i];
      if !e.installed || !e.change.existed || e.backup.None? {
        PreserveMarks(w, staged, kept, i + 1, failures, faults);
      } else {
        var (w1, found) := Stat(w, e.backup.value, faults);
        if found {
          MarkOne(staged, kept, w.files, failures, i);
          PreserveMarks(w1, staged, kept[i := e.(preserve := true)], i + 1, failures + [RecoveryCopy(e.change.path)], faults);
        } else {
          PreserveMarks(w1, staged, kept, i + 1, failures, faults);
        }
      }
    }
  }

  // ---- Cleanup ----

  function Doomed(e: Entry): set<Path> {
    (if e.after.Some? then {e.after.value} else {}) + (if e.backup.Some? && !e.preserve then {e.backup.value} else {})
  }

  ghost predicate DoomedFrom(staged: seq<Entry>, i: nat, p: Path) {
    exists j :: i <= j < |staged| && p in Doomed(staged[j])
  }

  // Files only disappear, and only those the cleanup is after.
  ghost predicate Shrinks(f: Files, g: Files, staged: seq<Entry>, i: nat) {
    && (forall p | p in g :: p in f && g[p] == f[p])
    && (forall p | p in f && p !in g :: DoomedFrom(staged, i, p))
  }

  lemma {:induction false} CleanShrinks(w: World, staged: seq<Entry>, i: nat, faults: Faults)
    requires i <= |staged|
    requires forall j, p | 0 <= j < |staged| && p in Doomed(staged[j]) :: p.Temp?
    ensures var w' := CleanFrom(w, staged, i, faults);
      && Shrinks(w.files, w'.files, staged, i) && w.stuck <= w'.stuck && w.history <= w'.history
      && (forall k | |w.history| <= k < |w'.history| :: Shrinks(w.files, w'.history[k], staged, i))
      && (w'.stuck == w.stuck ==> forall p | DoomedFrom(staged, i, p) :: p !in w'.files)
    decreases |staged| - i
  {
    if i < |staged| {
      var e := staged[i];
      var w1 := CleanOne(w, e, faults);
      var w' := CleanFrom(w1, staged, i + 1, faults);
      CleanOneShrinks(w, e, faults);
      CleanShrinks(w1, staged, i + 1, faults);
      ShrinkOn(w.files, w1.files, w'.files, staged, i);
      forall k | |w.history| <= k < |w'.history| ensures Shrinks(w.files, w'.history[k], staged, i) {
        if k < |w1.history| {
          assert w'.history[k] == w1.history[k];
          ShrinkOn(w.files, w1.history[k], w1.history[k], staged, i);
        } else {
          ShrinkOn(w.files, w1.files, w'.history[k], staged, i);
        }
      }
      if w'.stuck == w.stuck {
        forall p | DoomedFrom(staged, i, p) ensures p !in w'.files {
          var j :| i <= j < |staged| && p in Doomed(staged[j]);
          if j > i { assert DoomedFrom(staged, i + 1, p); }
        }
      }
    }
  }

  lemma CleanOneShrinks(w: World, e: Entry, faults: Faults)
    requires forall p | p in Doomed(e) :: p.Temp?
    ensures var w1 := CleanOne(w, e, faults);
      && ShrinksBy(w.files, w1.files, e) && w.stuck <= w1.stuck && w.history <= w1.history
      && (forall k | |w.history| <= k < |w1.history| :: ShrinksBy(w.files, w1.history[k], e))
      && (w1.stuck == w.stuck ==> forall p | p in Doomed(e) :: p !in w1.files)
  {
    var w1 := if e.after.Some? then Remove(w, e.after.value, faults).0 else w;
    if e.after.Some? { RemoveShrinks(w, e.after.value, e, faults); }
    if e.backup.Some? && !e.preserve { RemoveShrinks(w1, e.backup.value, e, faults); }
    hide Remove;
  }

  lemma RemoveShrinks(w: World, p: Path, e: Entry, faults: Faults)
    requires p in Doomed(e) && p.Temp?
    ensures var w1 := Remove(w, p, faults).0;
      && ShrinksBy(w.files, w1.files, e) && w.stuck <= w1.stuck
      && (w1.history == w.history || w1.history == w.history + [w1.files])
      && (w1.stuck == w.stuck ==> p !in w1.files)
  {
  }

  ghost predicate ShrinksBy(f: Files, g: Files, e: Entry) {
    && (forall p | p in g :: p in f && g[p] == f[p])
    && (forall p | p in f && p !in g :: p in Doomed(e))
  }

  lemma ShrinkOn(f: Files, g: Files, h: Files, staged: seq<Entry>, i: nat)
    requires i < |staged| && ShrinksBy(f, g, staged[i]) && Shrinks(g, h, staged, i + 1)
    ensures Shrinks(f, h, staged, i)
  {
    forall p | p in f && p !in h ensures DoomedFrom(staged, i, p) {
      if p in g { assert DoomedFrom(staged, i + 1, p); } else { assert p in Doomed(staged[i]); }
    }
  }

  lemma ShrinkKeepsTargets(f: Files, g: Files, staged: seq<Entry>, i: nat)
    requires Shrinks(f, g, staged, i)
    requires forall j, p | 0 <= j < |staged| && p in Doomed(staged[j]) :: p.Temp?
    ensures SameTargets(f, g)
  {
    forall name ensures SameAt(f, g, Target(name)) {
      forall j | i <= j < |staged| ensures Target(name) !in Doomed(staged[j]) {
        var p := Target(name);
        assert p in Doomed(staged[j]) ==> p.Temp?;
      }
    }
  }

  // ---- How an attempt ends ----

  ghost predicate Ended(w0: World, w: World, changes: seq<Change>, staged: seq<Entry>, outcome: Outcome, moved: seq<Entry>, i: nat) {
    match outcome
    case Installed => Installing(w0, w, staged, |staged|) && Covers(staged, changes)
    case Error(failures) =>
      || (Staging(w0, w, changes, staged) && NeverInstalled(staged) && failures == [])
      || (Undoing(w0, w, moved, i, 0, failures) && Covers(moved, changes) && Marked(moved, staged, w.files, failures))
  }

  lemma ReadyToInstall(w0: World, w: World, changes: seq<Change>, staged: seq<Entry>)
    requires Fresh(w0) && DistinctTargets(changes) && AllPlanned(w0.files, changes)
    requires Staging(w0, w, changes, staged) && AllReady(w.files, staged) && |staged| == |changes|
    ensures Installing(w0, w, staged, 0)
  {
    forall j | 0 <= j < |staged| ensures Waiting(w0.files, w.files, staged[j]) {
      assert Ready(w.files, staged[j]);
    }
    forall j | 0 <= j < |staged| ensures AsPlanned(w0.files, staged[j].change) {
      assert AsPlanned(w0.files, changes[j]);
    }
  }

  lemma StagingLosesNothing(w0: World, w: World, changes: seq<Change>, backups: seq<Option<Path>>)
    requires AllPlanned(w0.files, changes) && Extends(w0, w)
    ensures NoneLost(w0, w, changes, backups)
  {
    forall k | |w0.history| <= k < |w.history| ensures AllRecoverable(w.history[k], changes, backups) {
      PlannedRecoverable(w0.files, w.history[k], changes, backups);
    }
  }

  lemma MoreReports(w0: World, w: World, staged: seq<Entry>, i: nat, failures: seq<Failure>, more: seq<Failure>)
    requires Undoing(w0, w, staged, i, 0, failures)
    requires failures <= more && forall f | f in more :: f in failures || f.RecoveryCopy?
    ensures Undoing(w0, w, staged, i, 0, more)
  {
    hide Layout, Moved, Waiting;
    forall j | 0 <= j < |staged| ensures FailedFor(more, staged[j]) <==> FailedFor(failures, staged[j]) {
    }
    forall j | 0 <= j < i ensures Settled(w0.files, w.files, staged[j], more) {
      assert Settled(w0.files, w.files, staged[j], failures);
    }
  }

  lemma SameWorldUndoing(w0: World, w: World, w': World, staged: seq<Entry>, i: nat, failures: seq<Failure>)
    requires Undoing(w0, w, staged, i, 0, failures)
    requires w'.files == w.files && w'.history == w.history && w'.stuck == w.stuck && w'.next == w.next
    ensures Undoing(w0, w', staged, i, 0, failures)
  {
  }

  lemma UnmarkedYet(w0: World, w: World, staged: seq<Entry>, i: nat, failures: seq<Failure>)
    requires Undoing(w0, w, staged, i, 0, failures) && forall f | f in failures :: !f.RecoveryCopy?
    ensures Marked(staged, staged, w.files, failures)
  {
    forall j | 0 <= j < |staged| ensures !staged[j].preserve {
      if j < i { assert Settled(w0.files, w.files, staged[j], failures); } else { assert Waiting(w0.files, w.files, staged[j]); }
    }
  }

  lemma RollbackEnds(w0: World, w: World, changes: seq<Change>, moved: seq<Entry>, i: nat, faults: Faults)
    requires Installing(w0, w, moved, i) && Covers(moved, changes) && NoneLost(w0, w, changes, Backups(moved))
    ensures var (w', kept, failures) := Rollback(w, moved, faults);
      Ended(w0, w', changes, kept, Error(failures), moved, i) && NoneLost(w0, w', changes, Backups(kept))
  {
    hide NoneLost, Layout, Marked;
    var (w1, failures) := RestoreFrom(w, moved, |moved|, [], faults);
    StartUndoing(w0, w, moved, i);
    RestoreKeeps(w0, w, changes, moved, i, |moved|, [], faults);
    UnmarkedYet(w0, w1, moved, i, failures);
    if failures != [] {
      var (w2, kept, failures') := PreserveFrom(w1, moved, 0, failures, faults);
      PreserveMarks(w1, moved, moved, 0, failures, faults) by { LayoutDistinct(w0, w1, moved); }
      PreserveKeepsNext(w1, moved, 0, failures, faults);
      SameWorldUndoing(w0, w1, w2, moved, i, failures);
      MoreReports(w0, w2, moved, i, failures, failures');
      OneMoreState(w0, w1, w2, changes, Backups(moved));
      MarkedBackups(moved, kept, w1.files, failures');
    }
  }

  lemma MarkedBackups(staged: seq<Entry>, kept: seq<Entry>, files: Files, failures: seq<Failure>)
    requires Marked(staged, kept, files, failures)
    ensures Backups(kept) == Backups(staged)
  {
    forall j | 0 <= j < |staged| ensures Backups(kept)[j] == Backups(staged)[j] {
      assert kept[j] == staged[j].(preserve := kept[j].preserve);
    }
  }

  lemma LayoutDistinct(w0: World, w: World, staged: seq<Entry>)
    requires Layout(w0, w, staged)
    ensures DistinctDests(staged)
  {
  }

  lemma {:induction false} PreserveKeepsNext(w: World, staged: seq<Entry>, i: nat, failures: seq<Failure>, faults: Faults)
    requires i <= |staged|
    ensures PreserveFrom(w, staged, i, failures, faults).0.next == w.next
    decreases |staged| - i
  {
    if i < |staged| {
      var e := staged[i];
      if !e.installed || !e.change.existed || e.backup.None? {
        PreserveKeepsNext(w, staged, i + 1, failures, faults);
      } else {
        var (w1, found) := Stat(w, e.backup.value, faults);
        if found {
          PreserveKeepsNext(w1, staged[i := e.(preserve := true)], i + 1, failures + [RecoveryCopy(e.change.path)], faults);
        } else {
          PreserveKeepsNext(w1, staged, i + 1, failures, faults);
        }
      }
    }
  }

  lemma StartUndoing(w0: World, w: World, staged: seq<Entry>, i: nat)
    requires Installing(w0, w, staged, i)
    ensures Undoing(w0, w, staged, i, |staged|, [])
  {
    hide Layout;
  }

  // Up to the cleanup no original is ever out of reach, and the attempt ends in one of three ways.
  lemma AttemptEnds(w0: World, changes: seq<Change>, faults: Faults) returns (moved: seq<Entry>, i: nat)
    requires Fresh(w0) && DistinctTargets(changes)
    ensures var (w, staged, outcome) := Attempt(w0, changes, faults);
      && Ended(w0, w, changes, staged, outcome, moved, i)
      && (w.history == w0.history || AllPlanned(w0.files, changes)) && NoneLost(w0, w, changes, Backups(staged))
  {
    moved, i := [], 0;
    if faults(w0.clock) {
      assert Staging(w0, Tick(w0), changes, []);
    } else {
      CheckLooksOnly(Tick(w0), changes, faults);
      var (w1, planned) := CheckFrom(Tick(w0), changes, faults);
      assert Staging(w0, w1, changes, []);
      if planned {
        hide Staging, NoneLost, Extends, Installing, Layout, Rollback, Undoing, Marked;
        StagingKeeps(w0, w1, changes, [], faults);
        var (w2, staged, ready) := StageFrom(w1, changes, [], faults);
        assert Extends(w0, w2) by { StagingIsExtension(w0, w2, changes, staged); }
        StagingLosesNothing(w0, w2, changes, Backups(staged));
        if ready {
          ReadyToInstall(w0, w2, changes, staged);
          CoversAll(w0, w2, changes, staged);
          i := InstallKeeps(w0, w2, changes, staged, 0, faults);
          var (w3, placed, ok) := InstallFrom(w2, staged, 0, faults);
          moved := placed;
          if !ok {
            RollbackEnds(w0, w3, changes, placed, i, faults);
          }
        }
      }
    }
  }

  lemma StagingIsExtension(w0: World, w: World, changes: seq<Change>, staged: seq<Entry>)
    requires Staging(w0, w, changes, staged)
    ensures Extends(w0, w)
  {
  }

  lemma CoversAll(w0: World, w: World, changes: seq<Change>, staged: seq<Entry>)
    requires Staging(w0, w, changes, staged) && |staged| == |changes|
    ensures Covers(staged, changes)
  {
  }

  lemma OnlyTempsDoomed(w0: World, w: World, changes: seq<Change>, staged: seq<Entry>, outcome: Outcome, moved: seq<Entry>, i: nat)
    requires Ended(w0, w, changes, staged, outcome, moved, i)
    ensures forall j, p | 0 <= j < |staged| && p in Doomed(staged[j]) :: p.Temp?
  {
    var owners := if outcome.Error? && !(Staging(w0, w, changes, staged) && NeverInstalled(staged)) then moved else staged;
    forall j, p | 0 <= j < |staged| && p in Doomed(staged[j]) ensures p.Temp? {
      assert p in owners[j].Temps();
    }
  }

  // ---- All or nothing ----

  // What the caller finds at the destination of a change.
  ghost predicate InPlaceAt(files: Files, c: Change) {
    Holds(files, Target(c.path), File(c.after, c.mode))
  }

  predicate Reported(failures: seq<Failure>, c: Change) {
    if c.existed then RestoreFailed(c.path) in failures else RemoveFailed(c.path) in failures
  }

  lemma EndedTargets(w0: World, w: World, changes: seq<Change>, staged: seq<Entry>, outcome: Outcome, moved: seq<Entry>, i: nat, k: nat)
    requires Ended(w0, w, changes, staged, outcome, moved, i) && k < |changes|
    ensures outcome.Installed? ==> InPlaceAt(w.files, changes[k])
    ensures outcome.Error? && Reported(outcome.failures, changes[k]) ==> InPlaceAt(w.files, changes[k])
    ensures outcome.Error? && !Reported(outcome.failures, changes[k]) ==> SameAt(w0.files, w.files, Target(changes[k].path))
  {
    if outcome.Installed? {
      assert Moved(w.files, staged[k]);
    } else if Staging(w0, w, changes, staged) && NeverInstalled(staged) && outcome.failures == [] {
      assert SameAt(w0.files, w.files, Target(changes[k].path));
    } else if k < i {
      assert Settled(w0.files, w.files, moved[k], outcome.failures);
    } else {
      assert Waiting(w0.files, w.files, moved[k]);
    }
  }

  lemma EndedOthers(w0: World, w: World, changes: seq<Change>, staged: seq<Entry>, outcome: Outcome, moved: seq<Entry>, i: nat, name: string)
    requires Ended(w0, w, changes, staged, outcome, moved, i)
    requires forall k | 0 <= k < |changes| :: changes[k].path != name
    ensures SameAt(w0.files, w.files, Target(name))
  {
    if outcome.Installed? {
      assert forall k | 0 <= k < |staged| :: staged[k].change.path != name;
    } else if Staging(w0, w, changes, staged) && NeverInstalled(staged) && outcome.failures == [] {
    } else {
      assert forall k | 0 <= k < |moved| :: moved[k].change.path != name;
    }
  }

  lemma SameAtVia(f: Files, g: Files, h: Files, p: Path)
    requires SameTargets(g, h) && p.Target?
    ensures SameAt(g, h, p)
    ensures SameAt(f, g, p) <==> SameAt(f, h, p)
  {
    assert SameAt(g, h, Target(p.name));
  }

  // Apply returns without error and every destination holds its new contents, or it returns an
  // error that names exactly the destinations still holding theirs; all other destinations, and
  // every file outside the plan, are as before.
  lemma AllOrNothing(w: World, changes: seq<Change>, faults: Faults)
    requires Fresh(w) && DistinctTargets(changes)
    ensures var (end, _, outcome) := Apply(w, changes, faults);
      && (outcome.Installed? ==> forall k | 0 <= k < |changes| :: InPlaceAt(end.files, changes[k]))
      && (outcome.Error? ==> forall k | 0 <= k < |changes| ::
            if Reported(outcome.failures, changes[k]) then InPlaceAt(end.files, changes[k])
            else SameAt(w.files, end.files, Target(changes[k].path)))
      && (forall name | (forall k | 0 <= k < |changes| :: changes[k].path != name) :: SameAt(w.files, end.files, Target(name)))
  {
    var (mid, staged, outcome) := Attempt(w, changes, faults);
    var end := CleanFrom(mid, staged, 0, faults);
    var moved, i := AttemptEnds(w, changes, faults);
    OnlyTempsDoomed(w, mid, changes, staged, outcome, moved, i);
    CleanShrinks(mid, staged, 0, faults);
    ShrinkKeepsTargets(mid.files, end.files, staged, 0);
    hide Ended, Shrinks, Attempt, CleanFrom, SameTargets;
    forall k | 0 <= k < |changes|
      ensures outcome.Installed? ==> InPlaceAt(end.files, changes[k])
      ensures outcome.Error? ==> if Reported(outcome.failures, changes[k]) then InPlaceAt(end.files, changes[k])
                                 else SameAt(w.files, end.files, Target(changes[k].path))
    {
      EndedTargets(w, mid, changes, staged, outcome, moved, i, k);
      SameAtVia(w.files, mid.files, end.files, Target(changes[k].path));
    }
    forall name | (forall k | 0 <= k < |changes| :: changes[k].path != name) ensures SameAt(w.files, end.files, Target(name)) {
      EndedOthers(w, mid, changes, staged, outcome, moved, i, name);
      SameAtVia(w.files, mid.files, end.files, Target(name));
    }
  }

  // A plan that no longer fits what stands on disk is refused before anything is written.
  lemma RefusesUnplanned(w: World, changes: seq<Change>, faults: Faults, k: nat)
    requires k < |changes|
    requires var c := changes[k];
      if c.existed then !Holds(w.files, Target(c.path), File(c.before, c.mode)) else Target(c.path) in w.files
    ensures var (end, staged, outcome) := Apply(w, changes, faults);
      outcome == Error([]) && staged == [] && end.files == w.files && end.history == w.history
  {
    assert !AsPlanned(w.files, changes[k]);
    CheckLooksOnly(Tick(w), changes, faults);
    hide CheckFrom, StageFrom, InstallFrom, Rollback;
    var (mid, staged, outcome) := Attempt(w, changes, faults);
    assert CleanFrom(mid, [], 0, faults) == mid;
  }

  // ---- No original is lost ----

  // At every moment before the cleanup, whatever fails and however the attempt ends, the original
  // bytes of every planned file can be found.
  lemma OriginalsReachableUntilCleanup(w: World, changes: seq<Change>, faults: Faults, k: nat)
    requires Fresh(w) && DistinctTargets(changes)
    requires |w.history| <= k < |Attempt(w, changes, faults).0.history|
    ensures var (end, staged, _) := Attempt(w, changes, faults); AllRecoverable(end.history[k], changes, Backups(staged))
  {
    var moved, i := AttemptEnds(w, changes, faults);
  }

  // The restore failed and the error mentions no recovery copy.
  predicate Unaccounted(outcome: Outcome, c: Change) {
    outcome.Error? && RestoreFailed(c.path) in outcome.failures && RecoveryCopy(c.path) !in outcome.failures
  }

  lemma PreservedNotDoomed(staged: seq<Entry>, moved: seq<Entry>, files: Files, failures: seq<Failure>, k: nat)
    requires Marked(moved, staged, files, failures) && Apart(moved) && k < |staged| && staged[k].preserve
    requires moved[k].after.None?
    ensures !DoomedFrom(staged, 0, staged[k].backup.value)
  {
    var p := staged[k].backup.value;
    forall j | 0 <= j < |staged| ensures p !in Doomed(staged[j]) {
      if j != k {
        assert moved[j].Temps() !! moved[k].Temps();
        assert p in moved[k].Temps();
        assert Doomed(staged[j]) <= moved[j].Temps();
      }
    }
  }

  // Before the cleanup a failed entry still has its backup; a settled one holds its original.
  lemma KeptBeforeCleanup(w0: World, w: World, changes: seq<Change>, staged: seq<Entry>, failures: seq<Failure>, moved: seq<Entry>, i: nat, k: nat)
    requires Ended(w0, w, changes, staged, Error(failures), moved, i) && AllPlanned(w0.files, changes)
    requires k < |changes| && changes[k].existed
    ensures RestoreFailed(changes[k].path) !in failures ==> Holds(w.files, Target(changes[k].path), Snapshot(changes[k]))
    ensures RestoreFailed(changes[k].path) in failures ==> k < |staged| && Holds(w.files, Target(changes[k].path), Final(changes[k]))
    ensures RestoreFailed(changes[k].path) in failures ==> staged[k].change == changes[k] && staged[k].backup.Some? && Holds(w.files, staged[k].backup.value, Snapshot(changes[k]))
    ensures RestoreFailed(changes[k].path) in failures && RecoveryCopy(changes[k].path) in failures ==> !DoomedFrom(staged, 0, staged[k].backup.value)
    ensures RestoreFailed(changes[k].path) in failures && RecoveryCopy(changes[k].path) !in failures ==> DoomedFrom(staged, 0, staged[k].backup.value)
  {
    EndedTargets(w0, w, changes, staged, Error(failures), moved, i, k);
    assert AsPlanned(w0.files, changes[k]);
    if RestoreFailed(changes[k].path) in failures {
      assert k < i ==> Settled(w0.files, w.files, moved[k], failures);
      assert k >= i ==> Waiting(w0.files, w.files, moved[k]) && !FailedFor(failures, moved[k]);
      assert Moved(w.files, moved[k]);
      if RecoveryCopy(changes[k].path) in failures {
        PreservedNotDoomed(staged, moved, w.files, failures, k);
      } else {
        assert staged[k].backup.value in Doomed(staged[k]);
      }
    }
  }

  // What the error itself tells: an original is kept unless its restore failed without a recovery
  // copy being reported, and then it is gone once the cleanup's removals have worked.
  lemma LostExactlyWhenUnaccounted(w: World, changes: seq<Change>, faults: Faults, k: nat)
    requires Fresh(w) && DistinctTargets(changes) && AllPlanned(w.files, changes)
    requires k < |changes| && changes[k].existed && changes[k].before != changes[k].after
    requires Apply(w, changes, faults).2.Error?
    ensures var (end, staged, outcome) := Apply(w, changes, faults);
      var kept := Recoverable(end.files, changes[k], BackupAt(Backups(staged), k));
      && (!Unaccounted(outcome, changes[k]) ==> kept)
      && (Unaccounted(outcome, changes[k]) && end.stuck == Attempt(w, changes, faults).0.stuck ==> !kept)
  {
    var (mid, staged, outcome) := Attempt(w, changes, faults);
    var end := CleanFrom(mid, staged, 0, faults);
    var moved, i := AttemptEnds(w, changes, faults);
    OnlyTempsDoomed(w, mid, changes, staged, outcome, moved, i);
    CleanShrinks(mid, staged, 0, faults);
    ShrinkKeepsTargets(mid.files, end.files, staged, 0);
    KeptBeforeCleanup(w, mid, changes, staged, outcome.failures, moved, i, k);
    SameAtVia(w.files, mid.files, end.files, Target(changes[k].path));
    hide Ended, Attempt, CleanFrom, SameTargets, DoomedFrom, AllPlanned, Marked;
    assert Snapshot(changes[k]) != Final(changes[k]);
  }

  // ---- No litter ----

  // When every cleanup removal works and no recovery copy is kept, no staged file remains.
  lemma NothingLeftBehind(w: World, changes: seq<Change>, faults: Faults)
    requires Fresh(w) && DistinctTargets(changes)
    requires Apply(w, changes, faults).0.stuck == w.stuck
    requires var outcome := Apply(w, changes, faults).2; outcome.Error? ==> outcome.failures == []
    ensures forall p: Path | p.Temp? :: SameAt(w.files, Apply(w, changes, faults).0.files, p)
  {
    var (mid, staged, outcome) := Attempt(w, changes, faults);
    var end := CleanFrom(mid, staged, 0, faults);
    var moved, i := AttemptEnds(w, changes, faults);
    OnlyTempsDoomed(w, mid, changes, staged, outcome, moved, i);
    CleanShrinks(mid, staged, 0, faults);
    EndedTemps(w, mid, changes, staged, outcome, moved, i);
    hide Ended, Attempt, CleanFrom;
    forall p: Path | p.Temp? ensures SameAt(w.files, end.files, p) {
      if p in w.files {
        assert !DoomedFrom(staged, 0, p);
      } else if p in mid.files {
        assert DoomedFrom(staged, 0, p);
      }
    }
  }

  // Before the cleanup: old temporary files are untouched and not due for removal, new ones are due.
  lemma EndedTemps(w0: World, w: World, changes: seq<Change>, staged: seq<Entry>, outcome: Outcome, moved: seq<Entry>, i: nat)
    requires Ended(w0, w, changes, staged, outcome, moved, i) && Fresh(w0)
    requires outcome.Error? ==> outcome.failures == []
    ensures w0.stuck <= w.stuck
    ensures forall p: Path | p.Temp? && p in w0.files :: SameAt(w0.files, w.files, p) && !DoomedFrom(staged, 0, p)
    ensures w.stuck == w0.stuck ==> forall p: Path | p.Temp? && p in w.files && p !in w0.files :: DoomedFrom(staged, 0, p)
  {
    var unmoved := outcome.Error? && Staging(w0, w, changes, staged) && NeverInstalled(staged);
    var owners := if outcome.Error? && !unmoved then moved else staged;
    assert FreshTemps(owners, w0.next, w.next) && NoStrays(w0, w, owners);
    forall j | 0 <= j < |staged| ensures Doomed(staged[j]) == owners[j].Temps() {
      if outcome.Installed? {
        assert Moved(w.files, staged[j]);
      }
    }
    forall p: Path | p.Temp? && p in w0.files ensures SameAt(w0.files, w.files, p) && !DoomedFrom(staged, 0, p) {
      forall j | 0 <= j < |staged| ensures p !in Doomed(staged[j]) {
        assert p !in owners[j].Temps();
      }
    }
    if w.stuck == w0.stuck {
      forall p: Path | p.Temp? && p in w.files && p !in w0.files ensures DoomedFrom(staged, 0, p) {
        assert Owned(owners, p);
        var j :| 0 <= j < |owners| && p in owners[j].Temps();
        assert p in Doomed(staged[j]);
      }
    }
  }
}
