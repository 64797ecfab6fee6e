// The install loop, its rollback and the cleanup: what every rename leaves recoverable.
module InstallSafety {
  import opened Maps
  import opened Wrappers
  import opened Disk
  import opened Install

  ghost predicate DistinctDests(staged: seq<Entry>) {
    forall j, k | 0 <= j < k < |staged| :: staged[j].change.path != staged[k].change.path
  }

  // Moved into place, with the original still backed up.
  ghost predicate Moved(files: Files, e: Entry) {
    && e.installed && e.after.None? && !e.preserve && BackedUp(files, e)
    && Holds(files, e.Dest(), Final(e.change))
  }

  ghost predicate OthersSame(f: Files, g: Files, staged: seq<Entry>) {
    forall name | (forall j | 0 <= j < |staged| :: staged[j].change.path != name) :: SameAt(f, g, Target(name))
  }

  ghost predicate Waiting(f: Files, g: Files, e: Entry) {
    Ready(g, e) && SameAt(f, g, e.Dest())
  }

  ghost predicate EntriesPlanned(f: Files, staged: seq<Entry>) {
    forall j | 0 <= j < |staged| :: AsPlanned(f, staged[j].change)
  }

  // Shape facts no step of the loop changes: which files belong to whom.
  ghost predicate Layout(w0: World, w: World, staged: seq<Entry>) {
    && Fresh(w0) && DistinctDests(staged) && Apart(staged) && FreshTemps(staged, w0.next, w.next)
    && EntriesPlanned(w0.files, staged) && NoStrays(w0, w, staged)
    && w0.stuck <= w.stuck && w0.history <= w.history
    && (forall p | p in w0.files && p.Temp? :: SameAt(w0.files, w.files, p))
    && OthersSame(w0.files, w.files, staged)
  }

  // The first i entries are in place, the others still wait.
  ghost predicate Installing(w0: World, w: World, staged: seq<Entry>, i: nat) {
    && i <= |staged| && Layout(w0, w, staged)
    && (forall j | 0 <= j < i :: Moved(w.files, staged[j]))
    && (forall j | i <= j < |staged| :: Waiting(w0.files, w.files, staged[j]))
  }

  ghost predicate Covers(staged: seq<Entry>, changes: seq<Change>) {
    Corresponds(staged, changes) && |staged| == |changes|
  }

  // Every content since the start of w0 keeps the originals recoverable.
  ghost predicate NoneLost(w0: World, w: World, changes: seq<Change>, backups: seq<Option<Path>>) {
    w0.history <= w.history && NoneLostSince(w.history, |w0.history|, changes, backups)
  }

  lemma OneMoreState(w0: World, w: World, w': World, changes: seq<Change>, backups: seq<Option<Path>>)
    requires NoneLost(w0, w, changes, backups)
    requires w'.history == w.history || (w'.history == w.history + [w'.files] && AllRecoverable(w'.files, changes, backups))
    ensures NoneLost(w0, w', changes, backups)
  {
  }

  lemma BackupRecovers(files: Files, e: Entry)
    requires BackedUp(files, e) && e.change.existed
    ensures Recoverable(files, e.change, e.backup)
  {
  }

  lemma InstallingRecoverable(w0: World, w: World, changes: seq<Change>, staged: seq<Entry>, i: nat)
    requires Installing(w0, w, staged, i) && Covers(staged, changes)
    ensures AllRecoverable(w.files, changes, Backups(staged))
  {
    forall j | 0 <= j < |changes| && changes[j].existed ensures Recoverable(w.files, changes[j], BackupAt(Backups(staged), j)) {
      assert j < i ==> Moved(w.files, staged[j]);
      assert j >= i ==> Waiting(w0.files, w.files, staged[j]);
      BackupRecovers(w.files, staged[j]);
    }
  }

  function InPlace(e: Entry): Entry {
    e.(after := None, installed := true)
  }

  lemma InstallStep(w0: World, w: World, staged: seq<Entry>, i: nat, faults: Faults)
    requires Installing(w0, w, staged, i) && i < |staged|
    requires Rename(Tick(w), staged[i].after.value, staged[i].Dest(), faults).1
    ensures var w' := Rename(Tick(w), staged[i].after.value, staged[i].Dest(), faults).0;
      Installing(w0, w', staged[i := InPlace(staged[i])], i + 1)
  {
    var e := staged[i];
    var src, dst := e.after.value, e.Dest();
    var w' := Rename(Tick(w), src, dst, faults).0;
    var staged' := staged[i := InPlace(e)];
    assert Waiting(w0.files, w.files, e);
    assert src in e.Temps();
    forall j | 0 <= j < |staged| && j != i ensures src !in staged[j].Temps() && dst != staged[j].Dest() {
      assert staged[j].Temps() !! e.Temps();
    }
    forall j, k | 0 <= j < k < |staged'| ensures staged'[j].Temps() !! staged'[k].Temps() {
      assert staged'[j].Temps() <= staged[j].Temps() && staged'[k].Temps() <= staged[k].Temps();
    }
    forall j | 0 <= j < i + 1 ensures Moved(w'.files, staged'[j]) {
      if j < i {
        assert Moved(w.files, staged[j]);
        assert staged[j].backup.Some? ==> staged[j].backup.value in staged[j].Temps();
      } else {
        assert e.backup.Some? ==> e.backup.value != src;
      }
    }
    forall j | i + 1 <= j < |staged'| ensures Waiting(w0.files, w'.files, staged'[j]) {
      assert Waiting(w0.files, w.files, staged[j]);
      assert staged[j].after.value in staged[j].Temps();
      assert staged[j].backup.Some? ==> staged[j].backup.value in staged[j].Temps();
    }
    LayoutAfterMove(w0, w, w', staged, i, faults);
  }

  // A step on behalf of entry i: it may change that entry's destination and its temporary files.
  ghost predicate Local(w: World, w': World, staged: seq<Entry>, staged': seq<Entry>, i: nat) {
    && i < |staged| == |staged'|
    && (forall j | 0 <= j < |staged| && j != i :: staged'[j] == staged[j])
    && staged'[i].change == staged[i].change && staged'[i].Temps() <= staged[i].Temps()
    && (forall p | p != staged[i].Dest() && p !in staged[i].Temps() :: SameAt(w.files, w'.files, p))
    && (forall p | p in w'.files && p.Temp? :: p in w.files && (p in staged[i].Temps() ==> p in staged'[i].Temps()))
    && w.stuck <= w'.stuck && w.history <= w'.history && w.next == w'.next
  }

  lemma LocalOwners(w0: World, w: World, w': World, staged: seq<Entry>, staged': seq<Entry>, i: nat)
    requires Local(w, w', staged, staged', i)
    requires w0.stuck <= w.stuck && NoStrays(w0, w, staged)
    ensures NoStrays(w0, w', staged')
  {
    if w'.stuck == w0.stuck {
      forall p | p in w'.files && p.Temp? && p !in w0.files ensures Owned(staged', p) {
        assert Owned(staged, p);
        var j :| 0 <= j < |staged| && p in staged[j].Temps();
        assert p in staged'[j].Temps();
      }
    }
  }

  lemma LocalShape(w: World, w': World, staged: seq<Entry>, staged': seq<Entry>, i: nat, low: nat)
    requires Local(w, w', staged, staged', i)
    requires DistinctDests(staged) && Apart(staged) && FreshTemps(staged, low, w.next)
    ensures DistinctDests(staged') && Apart(staged') && FreshTemps(staged', low, w'.next)
  {
    forall j | 0 <= j < |staged| ensures staged'[j].Temps() <= staged[j].Temps() && staged'[j].change == staged[j].change {
    }
    forall j, k | 0 <= j < k < |staged| ensures staged'[j].Temps() !! staged'[k].Temps() {
      assert staged[j].Temps() !! staged[k].Temps();
    }
    forall j, p | 0 <= j < |staged| && p in staged'[j].Temps() ensures p.Temp? && low <= p.id < w'.next {
      assert p in staged[j].Temps();
    }
  }

  lemma LocalBystanders(w0: World, w: World, w': World, staged: seq<Entry>, staged': seq<Entry>, i: nat)
    requires Local(w, w', staged, staged', i) && Fresh(w0) && FreshTemps(staged, w0.next, w.next)
    requires forall p | p in w0.files && p.Temp? :: SameAt(w0.files, w.files, p)
    requires OthersSame(w0.files, w.files, staged)
    ensures forall p | p in w0.files && p.Temp? :: SameAt(w0.files, w'.files, p)
    ensures OthersSame(w0.files, w'.files, staged')
  {
    forall p | p in w0.files && p.Temp? ensures SameAt(w0.files, w'.files, p) {
      NotTheirs(staged, i, p, w0.next, w.next);
      assert SameAt(w.files, w'.files, p);
    }
    forall name | (forall j | 0 <= j < |staged'| :: staged'[j].change.path != name) ensures SameAt(w0.files, w'.files, Target(name)) {
      assert forall j | 0 <= j < |staged| :: staged'[j].change.path == staged[j].change.path;
      NotTheirs(staged, i, Target(name), w0.next, w.next);
      assert SameAt(w.files, w'.files, Target(name));
    }
  }

  // An entry's temporary files are neither destinations nor older than the run.
  lemma NotTheirs(staged: seq<Entry>, i: nat, p: Path, low: nat, high: nat)
    requires FreshTemps(staged, low, high) && i < |staged| && (p.Temp? ==> p.id < low)
    ensures p !in staged[i].Temps()
  {
  }

  lemma LocalKeepsLayout(w0: World, w: World, w': World, staged: seq<Entry>, staged': seq<Entry>, i: nat)
    requires Layout(w0, w, staged) && Local(w, w', staged, staged', i)
    ensures Layout(w0, w', staged')
  {
    hide OthersSame, NoStrays, Apart, FreshTemps, DistinctDests;
    LocalOwners(w0, w, w', staged, staged', i);
    LocalShape(w, w', staged, staged', i, w0.next);
    LocalBystanders(w0, w, w', staged, staged', i);
    assert w0.history <= w'.history;
  }

  lemma LayoutAfterMove(w0: World, w: World, w': World, staged: seq<Entry>, i: nat, faults: Faults)
    requires Layout(w0, w, staged) && i < |staged| && staged[i].after.Some? && staged[i].after != staged[i].backup
    requires (w', true) == Rename(Tick(w), staged[i].after.value, staged[i].Dest(), faults)
    ensures Layout(w0, w', staged[i := InPlace(staged[i])])
  {
    hide OthersSame, NoStrays, Apart, DistinctDests, EntriesPlanned;
    LocalKeepsLayout(w0, w, w', staged, staged[i := InPlace(staged[i])], i);
  }

  lemma InstallingTick(w0: World, w: World, staged: seq<Entry>, i: nat)
    requires Installing(w0, w, staged, i)
    ensures Installing(w0, Tick(w), staged, i)
  {
  }

  // An entry that still waits is as planned and has its replacement at hand.
  lemma NextAsPlanned(w0: World, w: World, staged: seq<Entry>, i: nat)
    requires Installing(w0, w, staged, i) && i < |staged|
    ensures AsPlanned(w.files, staged[i].change) && staged[i].after.Some? && staged[i].after.value in w.files
  {
    assert Waiting(w0.files, w.files, staged[i]);
    assert AsPlanned(w0.files, staged[i].change);
  }

  predicate Quiet(faults: Faults, low: nat, high: nat) {
    forall n | low <= n < high :: !faults(n)
  }

  // n entries went into place, two calls each; the loop ends there, or with a failing check or rename.
  predicate RanFor(w: World, w': World, n: nat, ok: bool, faults: Faults) {
    var c := w.clock + 2 * n;
    && Quiet(faults, w.clock, c)
    && if ok then w'.clock == c else (faults(c) || faults(c + 1)) && w'.clock == c + (if faults(c) then 1 else 2)
  }

  // However the install loop ends, some first entries are in place, the rest wait, and no original
  // was ever out of reach. With the plan's files as planned, only a failing call ends it early.
  lemma {:induction false} InstallKeeps(w0: World, w: World, changes: seq<Change>, staged: seq<Entry>, i: nat, faults: Faults)
    returns (k: nat)
    requires Installing(w0, w, staged, i) && Covers(staged, changes) && NoneLost(w0, w, changes, Backups(staged))
    requires forall j | 0 <= j < |staged| :: staged[j].after.Some? || staged[j].installed
    requires forall j | i <= j < |staged| :: staged[j].after.Some?
    ensures var (w', moved, ok) := InstallFrom(w, staged, i, faults);
      && Installing(w0, w', moved, k) && Covers(moved, changes) && NoneLost(w0, w', changes, Backups(staged))
      && Backups(moved) == Backups(staged) && i <= k && (ok ==> k == |moved|) && (!ok ==> k < |moved|)
      && RanFor(w, w', k - i, ok, faults)
    decreases |staged| - i
  {
    hide NoneLost, AllRecoverable, Installing, Covers, AsPlanned;
    k := i;
    InstallingTick(w0, w, staged, i);
    OneMoreState(w0, w, Tick(w), changes, Backups(staged));
    if i < |staged| {
      NextAsPlanned(w0, w, staged, i);
    }
    if i < |staged| && !faults(w.clock) {
      var t := Tick(w);
      var (w1, ok) := Rename(t, staged[i].after.value, staged[i].Dest(), faults);
      if ok {
        var staged' := staged[i := InPlace(staged[i])];
        InstallOne(w0, w, changes, staged, i, faults);
        hide Rename;
        k := InstallKeeps(w0, w1, changes, staged', i + 1, faults);
      } else {
        InstallingTick(w0, t, staged, i);
        OneMoreState(w0, t, w1, changes, Backups(staged));
      }
    }
  }

  // One rename that works: the invariant moves on by one entry.
  lemma InstallOne(w0: World, w: World, changes: seq<Change>, staged: seq<Entry>, i: nat, faults: Faults)
    requires Installing(w0, w, staged, i) && Covers(staged, changes) && NoneLost(w0, w, changes, Backups(staged)) && i < |staged|
    requires staged[i].after.Some? && Rename(Tick(w), staged[i].after.value, staged[i].Dest(), faults).1
    ensures var w1 := Rename(Tick(w), staged[i].after.value, staged[i].Dest(), faults).0;
      var staged' := staged[i := InPlace(staged[i])];
      Installing(w0, w1, staged', i + 1) && Covers(staged', changes) && NoneLost(w0, w1, changes, Backups(staged)) && Backups(staged') == Backups(staged)
  {
    var w1 := Rename(Tick(w), staged[i].after.value, staged[i].Dest(), faults).0;
    InstallStep(w0, w, staged, i, faults);
    hide Installing, NoneLost, AllRecoverable;
    InstallingRecoverable(w0, w1, changes, staged[i := InPlace(staged[i])], i + 1);
    OneMoreState(w0, w, w1, changes, Backups(staged));
  }


  // ---- Rollback ----

  predicate FailedFor(failures: seq<Failure>, e: Entry) {
    if e.change.existed then RestoreFailed(e.change.path) in failures else RemoveFailed(e.change.path) in failures
  }

  // An entry the rollback has dealt with: put back, or still in place with its failure reported.
  ghost predicate Settled(f: Files, g: Files, e: Entry, failures: seq<Failure>) {
    e.installed && e.after.None? && !e.preserve &&
    if FailedFor(failures, e) then Moved(g, e) else SameAt(f, g, e.Dest()) && BackupGone(g, e)
  }

  ghost predicate BackupGone(g: Files, e: Entry) {
    e.backup.Some? ==> e.backup.value !in g
  }

  // Of the first i entries, those below m still wait for their rollback.
  ghost predicate Undoing(w0: World, w: World, staged: seq<Entry>, i: nat, m: nat, failures: seq<Failure>) {
    && i <= |staged| && m <= |staged| && Layout(w0, w, staged)
    && (forall j | 0 <= j < i && j < m :: Moved(w.files, staged[j]) && !FailedFor(failures, staged[j]))
    && (forall j | m <= j < i :: Settled(w0.files, w.files, staged[j], failures))
    && (forall j | i <= j < |staged| :: Waiting(w0.files, w.files, staged[j]) && !FailedFor(failures, staged[j]))
  }

  lemma UndoingRecoverable(w0: World, w: World, changes: seq<Change>, staged: seq<Entry>, i: nat, m: nat, failures: seq<Failure>)
    requires Undoing(w0, w, staged, i, m, failures) && Covers(staged, changes)
    ensures AllRecoverable(w.files, changes, Backups(staged))
  {
    forall j | 0 <= j < |changes| && changes[j].existed ensures Recoverable(w.files, changes[j], BackupAt(Backups(staged), j)) {
      var e := staged[j];
      if j >= i {
        assert Waiting(w0.files, w.files, e);
        BackupRecovers(w.files, e);
      } else if j < m || FailedFor(failures, e) {
        assert Moved(w.files, e);
        BackupRecovers(w.files, e);
      } else {
        assert Settled(w0.files, w.files, e, failures);
        assert AsPlanned(w0.files, e.change);
      }
    }
  }

  lemma UndoIsLocal(w0: World, w: World, staged: seq<Entry>, j: nat, faults: Faults)
    requires j < |staged| && Moved(w.files, staged[j]) && AsPlanned(w0.files, staged[j].change)
    ensures var (w', ok) := UndoOne(w, staged[j], faults);
      && Local(w, w', staged, staged, j)
      && (ok ==> SameAt(w0.files, w'.files, staged[j].Dest()) && BackupGone(w'.files, staged[j]))
      && (ok ==> w'.history == w.history + [w'.files])
      && (!ok ==> w'.files == w.files && w'.history == w.history)
  {
    var e := staged[j];
    if e.change.existed {
      assert e.backup.value in e.Temps();
    }
  }

  // Another entry's step leaves an entry's own files as they are.
  lemma LocalSpares(w: World, w': World, staged: seq<Entry>, staged': seq<Entry>, j: nat, k: nat)
    requires Local(w, w', staged, staged', j) && DistinctDests(staged) && Apart(staged) && FreshTemps(staged, 0, w.next)
    requires k < |staged| && k != j
    ensures SameAt(w.files, w'.files, staged[k].Dest())
    ensures forall p | p in staged[k].Temps() :: SameAt(w.files, w'.files, p)
  {
    assert staged[k].change.path != staged[j].change.path;
    assert staged[k].Temps() !! staged[j].Temps();
    assert staged[k].Dest() !in staged[j].Temps();
    forall p | p in staged[k].Temps() ensures SameAt(w.files, w'.files, p) {
      assert p.Temp?;
    }
  }

  lemma SparedEntry(w: World, w': World, f: Files, e: Entry, failures: seq<Failure>)
    requires SameAt(w.files, w'.files, e.Dest()) && forall p | p in e.Temps() :: SameAt(w.files, w'.files, p)
    ensures Moved(w.files, e) ==> Moved(w'.files, e)
    ensures Waiting(f, w.files, e) ==> Waiting(f, w'.files, e)
    ensures Settled(f, w.files, e, failures) ==> Settled(f, w'.files, e, failures)
  {
    assert e.after.Some? ==> e.after.value in e.Temps();
    assert e.backup.Some? ==> e.backup.value in e.Temps();
  }

  lemma ReportsOnlyOwn(staged: seq<Entry>, failures: seq<Failure>, j: nat, k: nat)
    requires DistinctDests(staged) && j < |staged| && k < |staged| && j != k
    ensures FailedFor(failures + [Report(staged[j])], staged[k]) <==> FailedFor(failures, staged[k])
  {
    assert staged[j].change.path != staged[k].change.path;
  }

  lemma UndoStep(w0: World, w: World, staged: seq<Entry>, i: nat, m: nat, failures: seq<Failure>, faults: Faults)
    requires Undoing(w0, w, staged, i, m, failures) && 0 < m <= i
    ensures var (w', ok) := UndoOne(w, staged[m - 1], faults);
      Undoing(w0, w', staged, i, m - 1, if ok then failures else failures + [Report(staged[m - 1])])
  {
    var j := m - 1;
    var e := staged[j];
    var (w', ok) := UndoOne(w, e, faults);
    var failures' := if ok then failures else failures + [Report(e)];
    assert Moved(w.files, e) && AsPlanned(w0.files, e.change);
    UndoIsLocal(w0, w, staged, j, faults);
    LocalKeepsLayout(w0, w, w', staged, staged, j);
    hide Local, Layout, Moved, Waiting, UndoOne, AsPlanned;
    forall k | 0 <= k < |staged| && k != j
      ensures k < i && k < j ==> Moved(w'.files, staged[k]) && !FailedFor(failures', staged[k])
      ensures j < k < i ==> Settled(w0.files, w'.files, staged[k], failures')
      ensures i <= k ==> Waiting(w0.files, w'.files, staged[k]) && !FailedFor(failures', staged[k])
    {
      UndoSpares(w0, w, w', staged, j, k, failures);
      OwnReportKept(w0, w, staged, failures, j, k);
    }
    SettleOne(w0, w, w', e, failures, ok);
  }

  lemma SettleOne(w0: World, w: World, w': World, e: Entry, failures: seq<Failure>, ok: bool)
    requires Moved(w.files, e) && !FailedFor(failures, e)
    requires ok ==> SameAt(w0.files, w'.files, e.Dest()) && BackupGone(w'.files, e)
    requires !ok ==> w'.files == w.files
    ensures Settled(w0.files, w'.files, e, if ok then failures else failures + [Report(e)])
  {
  }

  lemma UndoSpares(w0: World, w: World, w': World, staged: seq<Entry>, j: nat, k: nat, failures: seq<Failure>)
    requires Layout(w0, w, staged) && Local(w, w', staged, staged, j) && k < |staged| && k != j
    ensures Moved(w.files, staged[k]) ==> Moved(w'.files, staged[k])
    ensures Waiting(w0.files, w.files, staged[k]) ==> Waiting(w0.files, w'.files, staged[k])
    ensures Settled(w0.files, w.files, staged[k], failures) ==> Settled(w0.files, w'.files, staged[k], failures)
  {
    hide OthersSame, NoStrays, EntriesPlanned;
    LocalSpares(w, w', staged, staged, j, k);
    SparedEntry(w, w', w0.files, staged[k], failures);
  }

  lemma OwnReportKept(w0: World, w: World, staged: seq<Entry>, failures: seq<Failure>, j: nat, k: nat)
    requires Layout(w0, w, staged) && j < |staged| && k < |staged| && j != k
    ensures FailedFor(failures + [Report(staged[j])], staged[k]) <==> FailedFor(failures, staged[k])
    ensures forall f, g :: Settled(f, g, staged[k], failures) <==> Settled(f, g, staged[k], failures + [Report(staged[j])])
  {
    ReportsOnlyOwn(staged, failures, j, k);
  }

  lemma {:induction false} RestoreKeeps(w0: World, w: World, changes: seq<Change>, staged: seq<Entry>, i: nat, m: nat,
                                        failures: seq<Failure>, faults: Faults)
    requires Undoing(w0, w, staged, i, m, failures) && Covers(staged, changes) && NoneLost(w0, w, changes, Backups(staged))
    ensures var (w', failures') := RestoreFrom(w, staged, m, failures, faults);
      && Undoing(w0, w', staged, i, 0, failures') && NoneLost(w0, w', changes, Backups(staged))
      && failures <= failures' && (forall f | f in failures' :: f in failures || !f.RecoveryCopy?)
    decreases m
  {
    hide NoneLost, AllRecoverable, Layout, Settled, Moved, Waiting;
    if m > 0 {
      var e := staged[m - 1];
      if m > i {
        assert !e.installed by { WaitingNotInstalled(w0.files, w.files, e); }
        RestoreKeeps(w0, w, changes, staged, i, m - 1, failures, faults);
      } else {
        assert e.installed by { MovedInstalled(w.files, e); }
        var (w1, ok) := UndoOne(w, e, faults);
        var failures1 := if ok then failures else failures + [Report(e)];
        UndoStep(w0, w, staged, i, m, failures, faults);
        UndoHistory(w0, w, staged, m - 1, faults);
        UndoingRecoverable(w0, w1, changes, staged, i, m - 1, failures1);
        OneMoreState(w0, w, w1, changes, Backups(staged));
        RestoreKeeps(w0, w1, changes, staged, i, m - 1, failures1, faults);
      }
    }
  }

  lemma WaitingNotInstalled(f: Files, g: Files, e: Entry)
    requires Waiting(f, g, e)
    ensures !e.installed
  {
  }

  lemma MovedInstalled(g: Files, e: Entry)
    requires Moved(g, e)
    ensures e.installed
  {
  }

  lemma UndoHistory(w0: World, w: World, staged: seq<Entry>, j: nat, faults: Faults)
    requires Layout(w0, w, staged) && j < |staged| && Moved(w.files, staged[j])
    ensures var w' := UndoOne(w, staged[j], faults).0;
      w'.history == w.history || w'.history == w.history + [w'.files]
  {
    UndoIsLocal(w0, w, staged, j, faults);
  }
}
