// Which failing calls lose an original: every call of a run has a number known before the run.
module InstallSchedule {
  import opened Maps
  import opened Wrappers
  import opened Disk
  import opened Install
  import opened InstallSafety
  import opened InstallTheorems

  // How many of the changes from i up to k replace an existing file.
  function Overwritten(changes: seq<Change>, i: nat, k: nat): nat
    requires i <= k <= |changes|
    decreases k - i
  {
    if i == k then 0 else (if changes[i].existed then 1 else 0) + Overwritten(changes, i + 1, k)
  }

  // A run over a plan that is still as planned, stopped at one of its installs.
  datatype Run = Run(start: nat, changes: seq<Change>, faults: Faults, stop: nat) {
    // The snapshot check of the j-th install; its rename is the call after it. Before the installs
    // come a look at the context, a check of every file, and the staging: a look and two calls a
    // file, and two more for a backup.
    function CheckCall(j: nat): nat {
      start + 1 + |changes| + 3 * |changes| + 2 * Overwritten(changes, 0, |changes|) + 2 * j
    }

    // Everything works up to this install, and its check or its rename does not.
    predicate Stops() {
      && stop < |changes| && Quiet(faults, start, CheckCall(stop))
      && (faults(CheckCall(stop)) || faults(CheckCall(stop) + 1))
    }

    function FirstUndo(): nat {
      CheckCall(stop) + (if faults(CheckCall(stop)) then 1 else 2)
    }

    // The call that puts entry k back; the rollback works backwards.
    function UndoCall(k: nat): nat
      requires k < stop
    {
      FirstUndo() + (stop - 1 - k)
    }

    // The call that looks for the backup of entry k, once a call of the rollback has failed.
    function StatCall(k: nat): nat
      requires k <= stop <= |changes|
    {
      FirstUndo() + stop + Overwritten(changes, 0, k)
    }

    // Not put back, and its backup seen.
    predicate Spared(k: nat)
      requires k < stop <= |changes|
    {
      faults(UndoCall(k)) && !faults(StatCall(k))
    }

    // How many backups the cleanup removes for the entries from i up to k.
    function Removals(i: nat, k: nat): nat
      requires i <= k <= stop <= |changes|
      decreases k - i
    {
      if i == k then 0 else (if changes[i].existed && !Spared(i) then 1 else 0) + Removals(i + 1, k)
    }

    // The cleanup's removal of the backup of entry k.
    function RemoveCall(k: nat): nat
      requires k <= stop <= |changes|
    {
      StatCall(stop) + Removals(0, k)
    }

    // Entry k is in place when the run stops, cannot be put back, its backup is not seen, and the
    // cleanup removes it.
    predicate Unlucky(k: nat) {
      && Stops() && k < stop
      && faults(UndoCall(k)) && faults(StatCall(k)) && !faults(RemoveCall(k))
    }
  }

  // The call ends in an error and the original bytes of change k are at neither of their places.
  ghost predicate Lost(w: World, changes: seq<Change>, faults: Faults, k: nat)
    requires k < |changes|
  {
    var (end, staged, outcome) := Apply(w, changes, faults);
    outcome.Error? && !Recoverable(end.files, changes[k], BackupAt(Backups(staged), k))
  }

  // ---- The calls before the installs ----

  lemma {:induction false} CheckRuns(w: World, changes: seq<Change>, faults: Faults)
    requires AllPlanned(w.files, changes)
    ensures var (w', ok) := CheckFrom(w, changes, faults);
      (ok <==> Quiet(faults, w.clock, w.clock + |changes|)) && (ok ==> w'.clock == w.clock + |changes|)
    decreases |changes|
  {
    if changes != [] {
      assert AsPlanned(w.files, changes[0]);
      if !faults(w.clock) {
        assert forall k | 0 <= k < |changes[1..]| :: changes[1..][k] == changes[k + 1];
        CheckRuns(Tick(w), changes[1..], faults);
      }
    }
  }

  lemma StageTwoCalls(w: World, contents: File, faults: Faults)
    ensures var (w', path) := Stage(w, contents, faults);
      (path.Some? <==> Quiet(faults, w.clock, w.clock + 2)) && (path.Some? ==> w'.clock == w.clock + 2)
  {
  }

  lemma {:induction false} StageRuns(w: World, changes: seq<Change>, staged: seq<Entry>, faults: Faults)
    requires |staged| <= |changes| && Installable(staged)
    ensures var (w', _, ready) := StageFrom(w, changes, staged, faults);
      var end := w.clock + 3 * (|changes| - |staged|) + 2 * Overwritten(changes, |staged|, |changes|);
      (ready <==> Quiet(faults, w.clock, end)) && (ready ==> w'.clock == end)
    decreases |changes| - |staged|
  {
    hide Stage;
    if |staged| < |changes| && !faults(w.clock) {
      var c := changes[|staged|];
      var (w1, after) := Stage(Tick(w), Final(c), faults);
      StageTwoCalls(Tick(w), Final(c), faults);
      StageTwoCalls(w1, Snapshot(c), faults);
      if after.Some? && !c.existed {
        StageRuns(w1, changes, staged + [Entry(c, after, None, false, false)], faults);
      } else if after.Some? {
        var (w2, backup) := Stage(w1, Snapshot(c), faults);
        if backup.Some? {
          StageRuns(w2, changes, staged + [Entry(c, after, backup, false, false)], faults);
        }
      }
    }
  }

  lemma StopsOnce(r: Run, s: Run)
    requires r == s.(stop := r.stop) && r.Stops() && s.Stops()
    ensures r == s
  {
    assert r.stop < s.stop ==> s.CheckCall(s.stop) >= s.CheckCall(r.stop) + 2;
    assert s.stop < r.stop ==> r.CheckCall(r.stop) >= r.CheckCall(s.stop) + 2;
  }

  // Where the attempt was when its rollback began.
  ghost predicate RolledBack(w0: World, w: World, changes: seq<Change>, placed: seq<Entry>, r: Run) {
    && r.Stops() && w.clock == r.FirstUndo()
    && Installing(w0, w, placed, r.stop) && Covers(placed, changes) && NoneLost(w0, w, changes, Backups(placed))
    && Attempt(w0, changes, r.faults) == (var (end, kept, failures) := Rollback(w, placed, r.faults); (end, kept, Error(failures)))
  }

  lemma {:induction false} StagedToInstall(w0: World, w: World, changes: seq<Change>, faults: Faults)
    requires Fresh(w0) && DistinctTargets(changes) && AllPlanned(w0.files, changes)
    requires w.files == w0.files && w.history == w0.history && w.stuck == w0.stuck && w.next == w0.next
    requires StageFrom(w, changes, [], faults).2
    ensures var (w', staged, _) := StageFrom(w, changes, [], faults);
      Installing(w0, w', staged, 0) && Covers(staged, changes) && NoneLost(w0, w', changes, Backups(staged))
  {
    assert Staging(w0, w, changes, []);
    StagingKeeps(w0, w, changes, [], faults);
    var (w', staged, _) := StageFrom(w, changes, [], faults);
    hide Staging, Extends, NoneLost, AllReady;
    StagingIsExtension(w0, w', changes, staged);
    StagingLosesNothing(w0, w', changes, Backups(staged));
    ReadyToInstall(w0, w', changes, staged);
    CoversAll(w0, w', changes, staged);
  }

  // The installs are reached exactly when every call before them works.
  lemma {:induction false} BeforeInstalls(w0: World, changes: seq<Change>, faults: Faults) returns (w: World, staged: seq<Entry>)
    requires Fresh(w0) && DistinctTargets(changes) && AllPlanned(w0.files, changes)
    ensures var first := Run(w0.clock, changes, faults, 0).CheckCall(0);
      if Quiet(faults, w0.clock, first) then
        && w.clock == first && Installing(w0, w, staged, 0) && Covers(staged, changes) && NoneLost(w0, w, changes, Backups(staged))
        && Installable(staged) && Attempt(w0, changes, faults) == InstallOrUndo(w, staged, faults)
      else Attempt(w0, changes, faults).2 == Error([])
  {
    hide CheckFrom, StageFrom, InstallOrUndo, Installing, NoneLost, AllPlanned, Covers, Overwritten;
    w, staged := w0, [];
    if !faults(w0.clock) {
      var (w1, planned) := CheckFrom(Tick(w0), changes, faults);
      CheckLooksOnly(Tick(w0), changes, faults);
      CheckRuns(Tick(w0), changes, faults);
      StageRuns(w1, changes, [], faults);
      var (w2, all, ready) := StageFrom(w1, changes, [], faults);
      if planned && ready {
        StagedToInstall(w0, w1, changes, faults);
        w, staged := w2, all;
      }
    }
  }

  // Nothing stops the run before its installs, and no install does.
  ghost predicate NeverStops(start: nat, changes: seq<Change>, faults: Faults) {
    forall stop :: !Run(start, changes, faults, stop).Stops()
  }

  lemma WhereItStops(w: World, w': World, start: nat, changes: seq<Change>, k: nat, ok: bool, faults: Faults)
    requires w.clock == Run(start, changes, faults, 0).CheckCall(0) && Quiet(faults, start, w.clock)
    requires RanFor(w, w', k, ok, faults) && if ok then k == |changes| else k < |changes|
    ensures if ok then NeverStops(start, changes, faults)
            else var r := Run(start, changes, faults, k); r.Stops() && w'.clock == r.FirstUndo()
    ensures ok <==> AllWorks(start, changes, faults)
  {
  }

  // Every call up to the last rename works: one look at the context, and for each file a check, a look
  // and two calls of the staging, another check and the rename, and two more calls for a backup.
  ghost predicate AllWorks(start: nat, changes: seq<Change>, faults: Faults) {
    Quiet(faults, start, start + 1 + 6 * |changes| + 2 * Overwritten(changes, 0, |changes|))
  }

  lemma NotReached(start: nat, changes: seq<Change>, faults: Faults)
    requires !Quiet(faults, start, Run(start, changes, faults, 0).CheckCall(0))
    ensures NeverStops(start, changes, faults) && !AllWorks(start, changes, faults)
  {
    forall stop ensures !Run(start, changes, faults, stop).Stops() {
      var r := Run(start, changes, faults, stop);
      assert r.CheckCall(0) <= r.CheckCall(stop);
    }
  }

  // The attempt is rolled back when the run stops at some install, and reports nothing otherwise.
  lemma {:induction false} AttemptRuns(w0: World, changes: seq<Change>, faults: Faults) returns (r: Run, w: World, placed: seq<Entry>)
    requires Fresh(w0) && DistinctTargets(changes) && AllPlanned(w0.files, changes)
    ensures r == Run(w0.clock, changes, faults, r.stop)
    ensures r.Stops() ==> RolledBack(w0, w, changes, placed, r)
    ensures !r.Stops() ==> Attempt(w0, changes, faults).2 in {Installed, Error([])} && NeverStops(w0.clock, changes, faults)
    ensures Attempt(w0, changes, faults).2 == Installed <==> AllWorks(w0.clock, changes, faults)
  {
    var staged;
    r := Run(w0.clock, changes, faults, |changes|);
    assert !r.Stops();
    w, staged := BeforeInstalls(w0, changes, faults);
    placed := staged;
    hide Attempt, Installing, Covers, NoneLost, Rollback, InstallFrom, RanFor, Quiet, AllPlanned, NeverStops, AllWorks, Backups;
    hide Run.CheckCall, Run.FirstUndo;
    if Quiet(faults, w0.clock, Run(w0.clock, changes, faults, 0).CheckCall(0)) {
      var k := InstallKeeps(w0, w, changes, staged, 0, faults);
      var (w', moved, ok) := InstallFrom(w, staged, 0, faults);
      WhereItStops(w, w', w0.clock, changes, k, ok, faults);
      w, placed := w', moved;
      if !ok {
        r := r.(stop := k);
      }
    } else {
      NotReached(w0.clock, changes, faults);
    }
  }

  // A plan is installed exactly when it still fits what stands on disk and every call works: nothing
  // else makes the installation give up, and no failing call goes unnoticed.
  lemma InstalledIff(w: World, changes: seq<Change>, faults: Faults)
    requires Fresh(w) && DistinctTargets(changes)
    ensures Apply(w, changes, faults).2 == Installed <==> AllPlanned(w.files, changes) && AllWorks(w.clock, changes, faults)
  {
    hide Attempt, CleanFrom, AllWorks;
    if !AllPlanned(w.files, changes) {
      var j :| 0 <= j < |changes| && !AsPlanned(w.files, changes[j]);
      RefusesUnplanned(w, changes, faults, j);
    } else {
      var r, w1, placed := AttemptRuns(w, changes, faults);
    }
  }

  // ---- The calls of the rollback ----

  function Min(a: nat, b: nat): nat {
    if a < b then a else b
  }

  lemma UndoFails(w: World, e: Entry, faults: Faults)
    requires Moved(w.files, e)
    ensures var (w', ok) := UndoOne(w, e, faults); w'.clock == w.clock + 1 && (ok <==> !faults(w.clock))
  {
  }

  // Each entry in place takes one call, and is reported exactly when that call fails.
  lemma {:induction false} RestoreRuns(w0: World, w: World, staged: seq<Entry>, i: nat, m: nat, failures: seq<Failure>, faults: Faults, k: nat)
    requires Undoing(w0, w, staged, i, m, failures) && k < i
    ensures var (w', failures') := RestoreFrom(w, staged, m, failures, faults);
      && w'.clock == w.clock + Min(m, i)
      && (k < m ==> (FailedFor(failures', staged[k]) <==> faults(w.clock + Min(m, i) - 1 - k)))
      && (m <= k ==> (FailedFor(failures', staged[k]) <==> FailedFor(failures, staged[k])))
    decreases m
  {
    hide Layout, Settled, Moved, Waiting;
    if m > i {
      assert !staged[m - 1].installed by { WaitingNotInstalled(w0.files, w.files, staged[m - 1]); }
      RestoreRuns(w0, w, staged, i, m - 1, failures, faults, k);
    } else if m > 0 {
      var e := staged[m - 1];
      assert e.installed by { MovedInstalled(w.files, e); }
      var (w1, ok) := UndoOne(w, e, faults);
      UndoFails(w, e, faults);
      UndoStep(w0, w, staged, i, m, failures, faults);
      RestoreRuns(w0, w1, staged, i, m - 1, if ok then failures else failures + [Report(e)], faults, k);
      if k != m - 1 {
        OwnReportKept(w0, w, staged, failures, m - 1, k);
      }
    }
  }

  // The first i entries are in place, and those that replace a file have a backup.
  ghost predicate FirstInPlace(staged: seq<Entry>, changes: seq<Change>, i: nat) {
    && |staged| == |changes| && i <= |changes|
    && forall j | 0 <= j < |staged| ::
         staged[j].change == changes[j] && (staged[j].installed <==> j < i) && (j < i ==> staged[j].after.None?)
         && (changes[j].existed <==> staged[j].backup.Some?)
  }

  lemma PlacedAt(staged: seq<Entry>, changes: seq<Change>, n: nat, j: nat)
    requires FirstInPlace(staged, changes, n) && j < |staged|
    ensures |staged| == |changes| && n <= |changes| && staged[j].change == changes[j] && (staged[j].installed <==> j < n)
    ensures changes[j].existed <==> staged[j].backup.Some?
    ensures FirstInPlace(staged[j := staged[j].(preserve := true)], changes, n)
  {
  }

  // Entry k is spared when its look is yet to come and finds the backup.
  ghost predicate LookedAt(w: World, staged: seq<Entry>, kept: seq<Entry>, changes: seq<Change>, i: nat, k: nat, faults: Faults) {
    && k < |kept| == |staged| && k < |changes| && staged[k].backup.Some?
    && (k < i ==> kept[k] == staged[k])
    && (i <= k && !staged[k].preserve ==>
          (kept[k].preserve <==> staged[k].backup.value in w.files && !faults(w.clock + Overwritten(changes, i, k))))
  }

  // What a look at entry i, or none, adds to what the later looks find.
  lemma LookedEarlier(w: World, w1: World, staged: seq<Entry>, staged1: seq<Entry>, kept: seq<Entry>, changes: seq<Change>, i: nat, k: nat, faults: Faults)
    requires LookedAt(w1, staged1, kept, changes, i + 1, k, faults) && i < |staged| && w1.files == w.files
    requires staged1 == staged || staged1 == staged[i := staged[i].(preserve := true)]
    requires i < k ==> w1.clock == w.clock + (if changes[i].existed then 1 else 0)
    requires i == k && !staged[k].preserve && staged[k].backup.Some? ==>
      (staged1[k].preserve <==> staged[k].backup.value in w.files && !faults(w.clock))
    ensures LookedAt(w, staged, kept, changes, i, k, faults)
  {
  }

  // One look for every backup of an entry in place; what is seen is spared.
  lemma {:induction false} PreserveRuns(w: World, staged: seq<Entry>, changes: seq<Change>, n: nat, i: nat, failures: seq<Failure>, faults: Faults, k: nat)
    requires FirstInPlace(staged, changes, n) && i <= |staged| && k < n && changes[k].existed
    ensures n <= |changes|
    ensures var (w', kept, _) := PreserveFrom(w, staged, i, failures, faults);
      && w'.clock == w.clock + Overwritten(changes, Min(i, n), n)
      && FirstInPlace(kept, changes, n) && LookedAt(w, staged, kept, changes, i, k, faults)
    decreases |staged| - i
  {
    PlacedAt(staged, changes, n, k);
    if i < |staged| {
      PlacedAt(staged, changes, n, i);
      hide FirstInPlace, LookedAt;
      var e := staged[i];
      if !e.installed || !e.change.existed || e.backup.None? {
        var kept := PreserveFrom(w, staged, i + 1, failures, faults).1;
        PreserveRuns(w, staged, changes, n, i + 1, failures, faults, k);
        LookedEarlier(w, w, staged, staged, kept, changes, i, k, faults);
      } else {
        var (w1, found) := Stat(w, e.backup.value, faults);
        var staged1 := if found then staged[i := e.(preserve := true)] else staged;
        var failures1 := if found then failures + [RecoveryCopy(e.change.path)] else failures;
        var kept := PreserveFrom(w1, staged1, i + 1, failures1, faults).1;
        PreserveRuns(w1, staged1, changes, n, i + 1, failures1, faults, k);
        LookedEarlier(w, w1, staged, staged1, kept, changes, i, k, faults);
      }
    }
    hide FirstInPlace;
  }

  lemma {:induction false} PlacedFirst(w0: World, w: World, staged: seq<Entry>, changes: seq<Change>, n: nat)
    requires Installing(w0, w, staged, n) && Covers(staged, changes)
    ensures FirstInPlace(staged, changes, n) && Undoing(w0, w, staged, n, |staged|, [])
    ensures forall j | 0 <= j < |staged| :: !staged[j].preserve
  {
    StartUndoing(w0, w, staged, n);
    forall j | 0 <= j < |staged|
      ensures (staged[j].installed <==> j < n) && (j < n ==> staged[j].after.None?) && !staged[j].preserve
      ensures changes[j].existed <==> staged[j].backup.Some?
    {
      assert if j < n then Moved(w.files, staged[j]) else Waiting(w0.files, w.files, staged[j]);
    }
  }

  // Once all entries are dealt with, a backup is still there exactly when its restore failed.
  lemma BackupLeft(w0: World, w: World, staged: seq<Entry>, n: nat, failures: seq<Failure>, k: nat)
    requires Undoing(w0, w, staged, n, 0, failures) && k < n && staged[k].change.existed && staged[k].backup.Some?
    ensures staged[k].backup.value in w.files <==> FailedFor(failures, staged[k])
  {
    assert Settled(w0.files, w.files, staged[k], failures);
  }

  // Which restores are reported, and which backups are left, before anything is spared.
  lemma {:induction false} RestoresRun(w0: World, w: World, changes: seq<Change>, placed: seq<Entry>, n: nat, faults: Faults, k: nat)
    requires Installing(w0, w, placed, n) && Covers(placed, changes) && NoneLost(w0, w, changes, Backups(placed)) && k < n
    ensures var (w', failures) := RestoreFrom(w, placed, |placed|, [], faults);
      && w'.clock == w.clock + n
      && FirstInPlace(placed, changes, n) && !placed[k].preserve
      && (FailedFor(failures, placed[k]) <==> faults(w.clock + n - 1 - k))
      && (changes[k].existed ==> (placed[k].backup.value in w'.files <==> FailedFor(failures, placed[k])))
      && Marked(placed, placed, w'.files, failures) && DistinctDests(placed)
  {
    PlacedFirst(w0, w, placed, changes, n);
    var (w', failures) := RestoreFrom(w, placed, |placed|, [], faults);
    RestoreRuns(w0, w, placed, n, |placed|, [], faults, k);
    RestoreKeeps(w0, w, changes, placed, n, |placed|, [], faults);
    hide NoneLost, Installing, Covers, Layout, RestoreFrom, FirstInPlace;
    PlacedAt(placed, changes, n, k);
    if changes[k].existed { BackupLeft(w0, w', placed, n, failures, k); }
    UnmarkedYet(w0, w', placed, n, failures);
    LayoutDistinct(w0, w', placed);
  }

  lemma {:induction false} MarksRun(w: World, placed: seq<Entry>, changes: seq<Change>, n: nat, failures: seq<Failure>, faults: Faults, k: nat)
    requires FirstInPlace(placed, changes, n) && k < n && changes[k].existed && !placed[k].preserve
    requires Marked(placed, placed, w.files, failures) && DistinctDests(placed)
    ensures var (w', staged, all) := PreserveFrom(w, placed, 0, failures, faults);
      && w'.clock == w.clock + Overwritten(changes, 0, n) && FirstInPlace(staged, changes, n) && failures <= all
      && (RestoreFailed(changes[k].path) in all <==> RestoreFailed(changes[k].path) in failures)
      && (staged[k].preserve <==> placed[k].backup.value in w.files && !faults(w.clock + Overwritten(changes, 0, k)))
  {
    PreserveRuns(w, placed, changes, n, 0, failures, faults, k);
    hide PreserveFrom, Overwritten;
    PreserveMarks(w, placed, placed, 0, failures, faults);
  }

  // Reported exactly when its restore fails, and spared exactly when its backup is then seen.
  predicate EntryRolledBack(mid: World, e: Entry, failures: seq<Failure>, r: Run, k: nat)
    requires k < r.stop <= |r.changes|
  {
    && (RestoreFailed(r.changes[k].path) in failures <==> r.faults(r.UndoCall(k)))
    && (e.preserve ==> r.Spared(k))
    && (failures != [] ==> mid.clock == r.StatCall(r.stop) && (r.Spared(k) ==> e.preserve))
  }

  lemma {:induction false} MarkedEntry(w: World, placed: seq<Entry>, failures: seq<Failure>, r: Run, k: nat)
    requires FirstInPlace(placed, r.changes, r.stop) && k < r.stop && r.changes[k].existed && !placed[k].preserve
    requires Marked(placed, placed, w.files, failures) && DistinctDests(placed) && w.clock == r.StatCall(0)
    requires RestoreFailed(r.changes[k].path) in failures <==> r.faults(r.UndoCall(k))
    requires placed[k].backup.value in w.files <==> r.faults(r.UndoCall(k))
    ensures var (mid, staged, all) := PreserveFrom(w, placed, 0, failures, r.faults);
      FirstInPlace(staged, r.changes, r.stop) && EntryRolledBack(mid, staged[k], all, r, k)
  {
    hide PreserveFrom, Marked, DistinctDests;
    MarksRun(w, placed, r.changes, r.stop, failures, r.faults, k);
  }

  // What the rollback does about one entry in place, by the calls it depends on.
  lemma {:induction false} RollbackRuns(w0: World, w: World, changes: seq<Change>, placed: seq<Entry>, r: Run, k: nat)
    requires r.changes == changes && k < r.stop <= |changes| && changes[k].existed && w.clock == r.FirstUndo()
    requires Installing(w0, w, placed, r.stop) && Covers(placed, changes) && NoneLost(w0, w, changes, Backups(placed))
    ensures var (mid, staged, failures) := Rollback(w, placed, r.faults);
      FirstInPlace(staged, changes, r.stop) && EntryRolledBack(mid, staged[k], failures, r, k)
  {
    var (w1, failures) := RestoreFrom(w, placed, |placed|, [], r.faults);
    RestoresRun(w0, w, changes, placed, r.stop, r.faults, k);
    hide NoneLost, Installing, Covers, RestoreFrom, PreserveFrom, Marked, DistinctDests;
    if failures != [] {
      assert w1.clock == r.StatCall(0);
      MarkedEntry(w1, placed, failures, r, k);
    }
  }

  // ---- The calls of the cleanup ----

  // The cleanup reaches entry k after one call for every earlier backup it does not spare, and has
  // touched nothing else.
  lemma {:induction false} CleanRuns(w: World, staged: seq<Entry>, r: Run, i: nat, k: nat) returns (w': World)
    requires FirstInPlace(staged, r.changes, r.stop) && i <= k <= r.stop
    requires forall j | 0 <= j < r.stop && r.changes[j].existed :: staged[j].preserve <==> r.Spared(j)
    ensures CleanFrom(w, staged, i, r.faults) == CleanFrom(w', staged, k, r.faults)
    ensures w'.clock == w.clock + r.Removals(i, k)
    ensures forall p | (forall j | i <= j < k :: p !in Doomed(staged[j])) :: SameAt(w.files, w'.files, p)
    decreases k - i
  {
    w' := w;
    if i < k {
      var w1 := CleanOne(w, staged[i], r.faults);
      w' := CleanRuns(w1, staged, r, i + 1, k);
      forall p | (forall j | i <= j < k :: p !in Doomed(staged[j])) ensures SameAt(w.files, w'.files, p) {
        assert p !in Doomed(staged[i]);
        assert SameAt(w.files, w1.files, p);
        assert SameAt(w1.files, w'.files, p);
      }
    }
  }

  lemma {:induction false} RemovalDecides(w: World, staged: seq<Entry>, r: Run, k: nat)
    requires FirstInPlace(staged, r.changes, r.stop) && k < r.stop && r.changes[k].existed && w.clock == r.StatCall(r.stop)
    requires forall j | 0 <= j < r.stop && r.changes[j].existed :: staged[j].preserve <==> r.Spared(j)
    requires forall j, p | 0 <= j < |staged| && p in Doomed(staged[j]) :: p.Temp?
    requires forall j | 0 <= j < |staged| && j != k :: staged[k].backup.value !in Doomed(staged[j])
    requires !r.Spared(k) && staged[k].backup.value in w.files
    ensures staged[k].backup.value in CleanFrom(w, staged, 0, r.faults).files <==> r.faults(r.RemoveCall(k))
  {
    var p := staged[k].backup.value;
    var w1 := CleanRuns(w, staged, r, 0, k);
    assert SameAt(w.files, w1.files, p);
    var w2 := CleanOne(w1, staged[k], r.faults);
    CleanShrinks(w2, staged, k + 1, r.faults);
    assert !DoomedFrom(staged, k + 1, p);
  }

  // ---- Exactly when an original is lost ----

  // Once a restore has failed, an entry is spared exactly as its two calls say.
  lemma {:induction false} SparedExactly(w0: World, w: World, changes: seq<Change>, placed: seq<Entry>, r: Run)
    requires r.changes == changes && RolledBack(w0, w, changes, placed, r) && 0 < r.stop
    requires Rollback(w, placed, r.faults).2 != []
    ensures var (mid, staged, failures) := Rollback(w, placed, r.faults);
      && |staged| == |changes|
      && forall j | 0 <= j < r.stop && changes[j].existed :: staged[j].preserve <==> r.Spared(j)
  {
    var (mid, staged, failures) := Rollback(w, placed, r.faults);
    RollbackEnds(w0, w, changes, placed, r.stop, r.faults);
    hide Rollback, NoneLost, Installing;
    forall j | 0 <= j < r.stop && changes[j].existed ensures staged[j].preserve <==> r.Spared(j) {
      RollbackRuns(w0, w, changes, placed, r, j);
    }
  }

  // No two entries share a backup, so only its own entry's removal is after it.
  lemma {:induction false} OwnBackup(w0: World, w: World, changes: seq<Change>, staged: seq<Entry>, failures: seq<Failure>, moved: seq<Entry>, i: nat, k: nat)
    requires Ended(w0, w, changes, staged, Error(failures), moved, i) && k < |staged| && staged[k].backup.Some?
    ensures forall j | 0 <= j < |staged| && j != k :: staged[k].backup.value !in Doomed(staged[j])
  {
    var owners := if Staging(w0, w, changes, staged) && NeverInstalled(staged) then staged else moved;
    forall j | 0 <= j < |staged| && j != k ensures staged[k].backup.value !in Doomed(staged[j]) {
      assert owners[j].Temps() !! owners[k].Temps();
      assert staged[k].backup.value in owners[k].Temps();
      assert Doomed(staged[j]) <= owners[j].Temps();
    }
  }

  lemma {:induction false} RemovalOfBackup(w0: World, changes: seq<Change>, r: Run, w: World, placed: seq<Entry>, k: nat)
    requires Fresh(w0) && DistinctTargets(changes) && AllPlanned(w0.files, changes)
    requires r.start == w0.clock && r.changes == changes && RolledBack(w0, w, changes, placed, r)
    requires k < r.stop && changes[k].existed && r.faults(r.UndoCall(k)) && r.faults(r.StatCall(k))
    ensures var (end, staged, _) := Apply(w0, changes, r.faults);
      Recoverable(end.files, changes[k], BackupAt(Backups(staged), k)) <==>
        r.faults(r.RemoveCall(k)) || changes[k].before == changes[k].after
  {
    var (mid, staged, failures) := Rollback(w, placed, r.faults);
    var end := CleanFrom(mid, staged, 0, r.faults);
    RollbackRuns(w0, w, changes, placed, r, k);
    SparedExactly(w0, w, changes, placed, r);
    RollbackEnds(w0, w, changes, placed, r.stop, r.faults);
    hide Rollback, NoneLost, Attempt, CleanFrom, Installing, Covers, Undoing, Marked, AllPlanned;
    KeptBeforeCleanup(w0, mid, changes, staged, failures, placed, r.stop, k);
    OwnBackup(w0, mid, changes, staged, failures, placed, r.stop, k);
    OnlyTempsDoomed(w0, mid, changes, staged, Error(failures), placed, r.stop);
    RemovalDecides(mid, staged, r, k);
    CleanShrinks(mid, staged, 0, r.faults);
    ShrinkKeepsTargets(mid.files, end.files, staged, 0);
    SameAtVia(mid.files, mid.files, end.files, Target(changes[k].path));
  }

  // The condition on the schedule alone: some install stops the run, and three calls for entry k go wrong.
  ghost predicate UnluckySchedule(start: nat, changes: seq<Change>, faults: Faults, k: nat) {
    exists stop :: Run(start, changes, faults, stop).Unlucky(k)
  }

  // An original that is where the plan found it stays within reach when its restore is not reported.
  lemma KeptUnlessReported(w: World, changes: seq<Change>, faults: Faults, k: nat)
    requires Fresh(w) && DistinctTargets(changes) && k < |changes| && changes[k].existed && AsPlanned(w.files, changes[k])
    requires var (_, _, outcome) := Apply(w, changes, faults);
      outcome.Error? && (changes[k].before == changes[k].after || RestoreFailed(changes[k].path) !in outcome.failures)
    ensures !Lost(w, changes, faults, k)
  {
    AllOrNothing(w, changes, faults);
    hide Apply;
    var (end, _, outcome) := Apply(w, changes, faults);
    assert if Reported(outcome.failures, changes[k]) then InPlaceAt(end.files, changes[k])
      else SameAt(w.files, end.files, Target(changes[k].path));
  }

  // Entries that were not in place when the run stopped are not reported either.
  lemma {:induction false} WaitingNotReported(w0: World, w: World, changes: seq<Change>, placed: seq<Entry>, r: Run, k: nat)
    requires r.changes == changes && RolledBack(w0, w, changes, placed, r) && r.stop <= k < |changes|
    ensures RestoreFailed(changes[k].path) !in Rollback(w, placed, r.faults).2 || !changes[k].existed
  {
    RollbackEnds(w0, w, changes, placed, r.stop, r.faults);
    var (mid, staged, failures) := Rollback(w, placed, r.faults);
    hide Rollback, NoneLost, Installing;
    if Staging(w0, mid, changes, staged) && NeverInstalled(staged) && failures == [] {
    } else {
      assert Waiting(w0.files, mid.files, placed[k]) && !FailedFor(failures, placed[k]);
    }
  }

  lemma {:induction false} LostOnStop(w: World, changes: seq<Change>, r: Run, w1: World, placed: seq<Entry>, k: nat)
    requires Fresh(w) && DistinctTargets(changes) && AllPlanned(w.files, changes)
    requires k < |changes| && changes[k].existed && changes[k].before != changes[k].after
    requires r.start == w.clock && r.changes == changes && RolledBack(w, w1, changes, placed, r)
    ensures Lost(w, changes, r.faults, k) <==> r.Unlucky(k)
  {
    assert AsPlanned(w.files, changes[k]);
    if k >= r.stop {
      WaitingNotReported(w, w1, changes, placed, r, k);
      hide Rollback, NoneLost, Installing, Attempt, CleanFrom;
      KeptUnlessReported(w, changes, r.faults, k);
    } else {
      RollbackRuns(w, w1, changes, placed, r, k);
      LostExactlyWhenUnaccounted(w, changes, r.faults, k);
      if !r.faults(r.UndoCall(k)) {
        KeptUnlessReported(w, changes, r.faults, k);
      } else if !r.faults(r.StatCall(k)) {
        ReportedCopy(w, w1, changes, placed, r, k);
      } else {
        RemovalOfBackup(w, changes, r, w1, placed, k);
      }
    }
  }

  // A spared backup is reported as a recovery copy.
  lemma ReportedCopy(w0: World, w: World, changes: seq<Change>, placed: seq<Entry>, r: Run, k: nat)
    requires r.changes == changes && RolledBack(w0, w, changes, placed, r) && k < r.stop && changes[k].existed && r.Spared(k)
    ensures RecoveryCopy(changes[k].path) in Rollback(w, placed, r.faults).2
  {
    RollbackRuns(w0, w, changes, placed, r, k);
    RollbackEnds(w0, w, changes, placed, r.stop, r.faults);
    hide Rollback, NoneLost, Installing, Layout;
  }

  // An original is lost exactly when the files are as planned, its replacement differs, the run
  // stops after it was replaced, and three numbered calls go wrong: its restore fails, the look for
  // its backup fails, and the cleanup's removal of that backup works.
  lemma {:induction false} LostIff(w: World, changes: seq<Change>, faults: Faults, k: nat)
    requires Fresh(w) && DistinctTargets(changes)
    requires k < |changes| && changes[k].existed && AsPlanned(w.files, changes[k])
    ensures Lost(w, changes, faults, k) <==>
      AllPlanned(w.files, changes) && changes[k].before != changes[k].after && UnluckySchedule(w.clock, changes, faults, k)
  {
    var (end, staged, outcome) := Apply(w, changes, faults);
    if !AllPlanned(w.files, changes) {
      var j :| 0 <= j < |changes| && !AsPlanned(w.files, changes[j]);
      RefusesUnplanned(w, changes, faults, j);
    } else if changes[k].before == changes[k].after {
      if outcome.Error? { KeptUnlessReported(w, changes, faults, k); }
    } else {
      var r, w1, placed := AttemptRuns(w, changes, faults);
      if r.Stops() {
        LostOnStop(w, changes, r, w1, placed, k);
        hide Lost, Apply, RolledBack;
        if UnluckySchedule(w.clock, changes, faults, k) {
          var stop :| Run(w.clock, changes, faults, stop).Unlucky(k);
          StopsOnce(r, Run(w.clock, changes, faults, stop));
        }
      } else if outcome.Error? {
        KeptUnlessReported(w, changes, faults, k);
      }
    }
  }

  // No look for a backup fails in any run that stops.
  ghost predicate BackupsSeen(start: nat, changes: seq<Change>, faults: Faults) {
    forall stop: nat, j: nat | Run(start, changes, faults, stop).Stops() && j < stop && changes[j].existed ::
      !faults(Run(start, changes, faults, stop).StatCall(j))
  }

  // While backups can be seen, nothing is lost, whatever else fails.
  lemma SeenBackupsSuffice(w: World, changes: seq<Change>, faults: Faults, k: nat)
    requires Fresh(w) && DistinctTargets(changes) && BackupsSeen(w.clock, changes, faults)
    requires k < |changes| && changes[k].existed && AsPlanned(w.files, changes[k])
    ensures !Lost(w, changes, faults, k)
  {
    LostIff(w, changes, faults, k);
    hide Lost;
  }

  // Two failing calls lose nothing.
  lemma TwoFailuresLoseNothing(w: World, changes: seq<Change>, faults: Faults, a: nat, b: nat, k: nat)
    requires Fresh(w) && DistinctTargets(changes) && forall n | faults(n) :: n == a || n == b
    requires k < |changes| && changes[k].existed && AsPlanned(w.files, changes[k])
    ensures !Lost(w, changes, faults, k)
  {
    LostIff(w, changes, faults, k);
  }

  function FailAt(a: nat, b: nat, c: nat): Faults {
    n => n == a || n == b || n == c
  }

  // Three can: for every plan, every original but the last has three calls that lose it by failing.
  lemma {:induction false} ThreeFailuresCanLose(w: World, changes: seq<Change>, k: nat) returns (a: nat, b: nat, c: nat)
    requires Fresh(w) && DistinctTargets(changes) && AllPlanned(w.files, changes)
    requires k + 1 < |changes| && changes[k].existed && changes[k].before != changes[k].after
    ensures Lost(w, changes, FailAt(a, b, c), k)
  {
    var first := Run(w.clock, changes, FailAt(0, 0, 0), k + 1).CheckCall(k + 1);
    a, b, c := first, first + 1, first + k + 2 + Overwritten(changes, 0, k);
    var r := Run(w.clock, changes, FailAt(a, b, c), k + 1);
    assert r.CheckCall(k + 1) == a && r.UndoCall(k) == b && r.StatCall(k) == c;
    OverwrittenSplit(changes, 0, k);
    assert r.Unlucky(k);
    assert AsPlanned(w.files, changes[k]);
    LostIff(w, changes, r.faults, k);
    hide Lost, Run.Unlucky;
  }

  lemma {:induction false} OverwrittenSplit(changes: seq<Change>, i: nat, k: nat)
    requires i <= k < |changes|
    ensures Overwritten(changes, i, k + 1) == Overwritten(changes, i, k) + (if changes[k].existed then 1 else 0)
    decreases k - i
  {
    if i < k { OverwrittenSplit(changes, i + 1, k); } else { assert Overwritten(changes, k + 1, k + 1) == 0; }
  }
}
