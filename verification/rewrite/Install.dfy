// Installing a plan: stage every file, rename one by one, roll back on failure, clean up.
module Install {
  import opened Maps
  import opened Wrappers
  import opened Disk

  // One complete-file replacement, as planned from a snapshot of the file.
  datatype Change = Change(path: string, before: string, after: string, mode: nat, existed: bool)

  function Snapshot(c: Change): File { File(c.before, c.mode) }
  function Final(c: Change): File { File(c.after, c.mode) }

  datatype Entry = Entry(change: Change, after: Option<Path>, backup: Option<Path>, installed: bool, preserve: bool) {
    function Dest(): Path { Target(change.path) }
    function Temps(): set<Path> {
      (if after.Some? then {after.value} else {}) + (if backup.Some? then {backup.value} else {})
    }
  }

  datatype Failure = RestoreFailed(path: string) | RemoveFailed(path: string) | RecoveryCopy(path: string)

  datatype Outcome = Installed | Error(failures: seq<Failure>)

  // The file is still what the plan was made from.
  predicate AsPlanned(files: Files, c: Change) {
    if c.existed then Target(c.path) in files && files[Target(c.path)] == File(c.before, c.mode) else Target(c.path) !in files
  }

  // ---- The phases ----

  function CheckFrom(w: World, changes: seq<Change>, faults: Faults): (World, bool)
    decreases |changes|
  {
    if changes == [] then (w, true)
    else if faults(w.clock) || !AsPlanned(w.files, changes[0]) then (Tick(w), false)
    else CheckFrom(Tick(w), changes[1..], faults)
  }

  function StageFrom(w: World, changes: seq<Change>, staged: seq<Entry>, faults: Faults): (World, seq<Entry>, bool)
    requires |staged| <= |changes| && Installable(staged)
    ensures var (_, all, ready) := StageFrom(w, changes, staged, faults); ready ==> Installable(all)
    decreases |changes| - |staged|
  {
    if |staged| == |changes| then (w, staged, true)
    else if faults(w.clock) then (Tick(w), staged, false)
    else
      var c := changes[|staged|];
      var (w1, after) := Stage(Tick(w), Final(c), faults);
      if after.None? then (w1, staged + [Entry(c, None, None, false, false)], false)
      else if !c.existed then StageFrom(w1, changes, staged + [Entry(c, after, None, false, false)], faults)
      else
        var (w2, backup) := Stage(w1, Snapshot(c), faults);
        var staged' := staged + [Entry(c, after, backup, false, false)];
        if backup.None? then (w2, staged', false) else StageFrom(w2, changes, staged', faults)
  }

  function InstallFrom(w: World, staged: seq<Entry>, i: nat, faults: Faults): (World, seq<Entry>, bool)
    requires i <= |staged|
    requires forall j | 0 <= j < |staged| :: staged[j].after.Some? || staged[j].installed
    requires forall j | i <= j < |staged| :: staged[j].after.Some?
    decreases |staged| - i
  {
    if i == |staged| then (w, staged, true)
    else if faults(w.clock) || !AsPlanned(w.files, staged[i].change) then (Tick(w), staged, false)
    else
      var (w1, ok) := Rename(Tick(w), staged[i].after.value, staged[i].Dest(), faults);
      if !ok then (w1, staged, false)
      else InstallFrom(w1, staged[i := staged[i].(after := None, installed := true)], i + 1, faults)
  }

  // Undoes the installed entries below m, last first.
  function RestoreFrom(w: World, staged: seq<Entry>, m: nat, failures: seq<Failure>, faults: Faults): (World, seq<Failure>)
    requires m <= |staged|
    decreases m
  {
    if m == 0 then (w, failures)
    else if !staged[m - 1].installed then RestoreFrom(w, staged, m - 1, failures, faults)
    else
      var e := staged[m - 1];
      var (w1, ok) := UndoOne(w, e, faults);
      RestoreFrom(w1, staged, m - 1, if ok then failures else failures + [Report(e)], faults)
  }

  // The call that undoes one installed entry, and what is reported when it fails.
  function UndoOne(w: World, e: Entry, faults: Faults): (World, bool) {
    if !e.change.existed then Remove(w, e.Dest(), faults)
    else if e.backup.None? then (Tick(w), false)
    else Rename(w, e.backup.value, e.Dest(), faults)
  }

  function Report(e: Entry): Failure {
    if e.change.existed then RestoreFailed(e.change.path) else RemoveFailed(e.change.path)
  }

  // Marks the backups that can still be seen, so that the cleanup spares them.
  function PreserveFrom(w: World, staged: seq<Entry>, i: nat, failures: seq<Failure>, faults: Faults): (World, seq<Entry>, seq<Failure>)
    requires i <= |staged|
    decreases |staged| - i
  {
    if i == |staged| then (w, staged, failures)
    else
      var e := staged[i];
      if !e.installed || !e.change.existed || e.backup.None? then PreserveFrom(w, staged, i + 1, failures, faults)
      else
        var (w1, found) := Stat(w, e.backup.value, faults);
        if found then PreserveFrom(w1, staged[i := e.(preserve := true)], i + 1, failures + [RecoveryCopy(e.change.path)], faults)
        else PreserveFrom(w1, staged, i + 1, failures, faults)
  }

  function CleanOne(w: World, e: Entry, faults: Faults): World {
    var w1 := if e.after.Some? then Remove(w, e.after.value, faults).0 else w;
    if e.backup.Some? && !e.preserve then Remove(w1, e.backup.value, faults).0 else w1
  }

  function CleanFrom(w: World, staged: seq<Entry>, i: nat, faults: Faults): World
    requires i <= |staged|
    decreases |staged| - i
  {
    if i == |staged| then w else CleanFrom(CleanOne(w, staged[i], faults), staged, i + 1, faults)
  }

  predicate Installable(staged: seq<Entry>) {
    forall j | 0 <= j < |staged| :: staged[j].after.Some? && !staged[j].installed
  }

  // What a finished rollback leaves, before the cleanup.
  function Rollback(w: World, staged: seq<Entry>, faults: Faults): (World, seq<Entry>, seq<Failure>) {
    var (w1, failures) := RestoreFrom(w, staged, |staged|, [], faults);
    if failures == [] then (w1, staged, []) else PreserveFrom(w1, staged, 0, failures, faults)
  }

  function InstallOrUndo(w: World, staged: seq<Entry>, faults: Faults): (World, seq<Entry>, Outcome)
    requires Installable(staged)
  {
    var (w1, moved, ok) := InstallFrom(w, staged, 0, faults);
    if ok then (w1, moved, Installed)
    else
      var (w2, kept, failures) := Rollback(w1, moved, faults);
      (w2, kept, Error(failures))
  }

  // Everything before the deferred cleanup.
  function Attempt(w: World, changes: seq<Change>, faults: Faults): (World, seq<Entry>, Outcome) {
    if faults(w.clock) then (Tick(w), [], Error([]))
    else
      var (w1, planned) := CheckFrom(Tick(w), changes, faults);
      if !planned then (w1, [], Error([]))
      else
        var (w2, staged, ready) := StageFrom(w1, changes, [], faults);
        if !ready then (w2, staged, Error([])) else InstallOrUndo(w2, staged, faults)
  }

  function Apply(w: World, changes: seq<Change>, faults: Faults): (World, seq<Entry>, Outcome) {
    var (w1, staged, outcome) := Attempt(w, changes, faults);
    (CleanFrom(w1, staged, 0, faults), staged, outcome)
  }

  // ---- What the phases keep ----

  ghost predicate SameTargets(f: Files, g: Files) {
    forall name :: SameAt(f, g, Target(name))
  }

  ghost predicate Holds(files: Files, p: Path, contents: File) {
    p in files && files[p] == contents
  }

  // The original bytes are at the destination or at the change's own backup.
  ghost predicate Recoverable(files: Files, c: Change, backup: Option<Path>) {
    var original := File(c.before, c.mode);
    Holds(files, Target(c.path), original) || (backup.Some? && Holds(files, backup.value, original))
  }

  function Backups(staged: seq<Entry>): seq<Option<Path>> {
    seq(|staged|, j requires 0 <= j < |staged| => staged[j].backup)
  }

  function BackupAt(backups: seq<Option<Path>>, k: nat): Option<Path> {
    if k < |backups| then backups[k] else None
  }

  ghost predicate AllRecoverable(files: Files, changes: seq<Change>, backups: seq<Option<Path>>) {
    forall k | 0 <= k < |changes| && changes[k].existed :: Recoverable(files, changes[k], BackupAt(backups, k))
  }

  ghost predicate AllPlanned(files: Files, changes: seq<Change>) {
    forall k | 0 <= k < |changes| :: AsPlanned(files, changes[k])
  }

  // Every content since n kept all originals recoverable.
  ghost predicate NoneLostSince(history: seq<Files>, n: nat, changes: seq<Change>, backups: seq<Option<Path>>) {
    forall k | n <= k < |history| :: AllRecoverable(history[k], changes, backups)
  }

  ghost predicate DistinctTargets(changes: seq<Change>) {
    forall j, k | 0 <= j < k < |changes| :: changes[j].path != changes[k].path
  }

  lemma {:induction false} CheckLooksOnly(w: World, changes: seq<Change>, faults: Faults)
    ensures var (w', ok) := CheckFrom(w, changes, faults);
      && w'.files == w.files && w'.history == w.history && w'.stuck == w.stuck && w'.next == w.next
      && (ok ==> AllPlanned(w.files, changes))
    decreases |changes|
  {
    if changes != [] && !faults(w.clock) && AsPlanned(w.files, changes[0]) {
      CheckLooksOnly(Tick(w), changes[1..], faults);
      assert changes == [changes[0]] + changes[1..];
    }
  }

  lemma PlannedRecoverable(f: Files, g: Files, changes: seq<Change>, backups: seq<Option<Path>>)
    requires AllPlanned(f, changes) && forall p | p in f :: p in g && g[p] == f[p]
    ensures AllRecoverable(g, changes, backups)
  {
    forall k | 0 <= k < |changes| && changes[k].existed ensures Recoverable(g, changes[k], BackupAt(backups, k)) {
      assert AsPlanned(f, changes[k]);
    }
  }

  // Nothing that was there is disturbed, and only fresh temporary names are added.
  ghost predicate Extends(w: World, w': World) {
    && (forall p | p in w.files :: p in w'.files && w'.files[p] == w.files[p])
    && (forall p | p in w'.files && p !in w.files :: p.Temp? && w.next <= p.id < w'.next)
    && w.next <= w'.next && w.stuck <= w'.stuck
    && w.history <= w'.history
    && (forall k | |w.history| <= k < |w'.history| :: forall p | p in w.files :: p in w'.history[k] && w'.history[k][p] == w.files[p])
  }

  // What staging one file amounts to.
  ghost predicate StagedBy(w: World, contents: File, w': World, path: Option<Path>) {
    && Extends(w, w') && Fresh(w')
    && (path.Some? ==> path == Some(Temp(w.next)) && w'.next == w.next + 1 && w'.files == w.files[Temp(w.next) := contents])
    && (path.None? && w'.stuck == w.stuck ==> w'.files == w.files)
  }

  lemma StagingExtends(w: World, contents: File, faults: Faults)
    requires Fresh(w)
    ensures var (w', path) := Stage(w, contents, faults); StagedBy(w, contents, w', path)
  {
    var p := Temp(w.next);
    assert p !in w.files;
    assert w.files[p := File([], TEMP_MODE)] - {p} == w.files;
  }

  lemma ExtendsTransitive(a: World, b: World, c: World)
    requires Extends(a, b) && Extends(b, c)
    ensures Extends(a, c)
  {
    forall k | |a.history| <= k < |c.history|
      ensures forall p | p in a.files :: p in c.history[k] && c.history[k][p] == a.files[p]
    {
      if k < |b.history| { assert c.history[k] == b.history[k]; }
    }
  }

  ghost predicate BackedUp(files: Files, e: Entry) {
    if e.change.existed then e.backup.Some? && e.backup.value.Temp? && Holds(files, e.backup.value, Snapshot(e.change))
    else e.backup.None?
  }

  // Staged, not yet moved into place.
  ghost predicate Ready(files: Files, e: Entry) {
    && !e.installed && !e.preserve && BackedUp(files, e)
    && e.after.Some? && e.after.value.Temp? && Holds(files, e.after.value, Final(e.change))
    && e.after != e.backup
  }

  ghost predicate Apart(staged: seq<Entry>) {
    forall j, k | 0 <= j < k < |staged| :: staged[j].Temps() !! staged[k].Temps()
  }

  ghost predicate FreshTemps(staged: seq<Entry>, low: nat, high: nat) {
    forall j, p | 0 <= j < |staged| && p in staged[j].Temps() :: p.Temp? && low <= p.id < high
  }

  ghost predicate Owned(staged: seq<Entry>, p: Path) {
    exists j :: 0 <= j < |staged| && p in staged[j].Temps()
  }

  // Unless a removal failed, every temporary file that is new belongs to an entry.
  ghost predicate NoStrays(w0: World, w: World, staged: seq<Entry>) {
    w.stuck == w0.stuck ==> forall p | p in w.files && p.Temp? && p !in w0.files :: Owned(staged, p)
  }

  ghost predicate Corresponds(staged: seq<Entry>, changes: seq<Change>) {
    |staged| <= |changes| && forall j | 0 <= j < |staged| :: staged[j].change == changes[j]
  }

  ghost predicate Staging(w0: World, w: World, changes: seq<Change>, staged: seq<Entry>) {
    && Extends(w0, w) && Fresh(w) && NoStrays(w0, w, staged)
    && Corresponds(staged, changes) && Apart(staged) && FreshTemps(staged, w0.next, w.next)
  }

  ghost predicate AllReady(files: Files, staged: seq<Entry>) {
    forall j | 0 <= j < |staged| :: Ready(files, staged[j])
  }

  ghost predicate NeverInstalled(staged: seq<Entry>) {
    forall j | 0 <= j < |staged| :: !staged[j].installed && !staged[j].preserve
  }

  // A new entry whose temporary files were created since w joins the staged ones.
  lemma AddEntry(w0: World, w: World, w': World, changes: seq<Change>, staged: seq<Entry>, e: Entry)
    requires Staging(w0, w, changes, staged) && Extends(w, w') && Fresh(w')
    requires |staged| < |changes| && e.change == changes[|staged|]
    requires forall p | p in e.Temps() :: p.Temp? && w.next <= p.id < w'.next
    requires w'.stuck == w.stuck ==> forall p | p in w'.files && p !in w.files :: p in e.Temps()
    ensures Staging(w0, w', changes, staged + [e])
  {
    ExtendsTransitive(w0, w, w');
    var all := staged + [e];
    if w'.stuck == w0.stuck {
      forall p | p in w'.files && p.Temp? && p !in w0.files ensures Owned(all, p) {
        if p in w.files {
          var j :| 0 <= j < |staged| && p in staged[j].Temps();
          assert p in all[j].Temps();
        } else {
          assert p in all[|staged|].Temps();
        }
      }
    }
    forall j, k | 0 <= j < k < |all| ensures all[j].Temps() !! all[k].Temps() {
      if k == |staged| {
        assert forall p | p in all[j].Temps() :: p in staged[j].Temps() && p !in e.Temps();
      }
    }
  }

  lemma StayReady(w: World, w': World, staged: seq<Entry>)
    requires AllReady(w.files, staged) && Extends(w, w')
    ensures AllReady(w'.files, staged)
  {
    forall j | 0 <= j < |staged| ensures Ready(w'.files, staged[j]) {
      assert Ready(w.files, staged[j]);
    }
  }

  lemma TickStaging(w0: World, w: World, changes: seq<Change>, staged: seq<Entry>)
    requires Staging(w0, w, changes, staged) && AllReady(w.files, staged)
    ensures Staging(w0, Tick(w), changes, staged) && AllReady(Tick(w).files, staged) && Fresh(Tick(w))
  {
  }

  // An entry with one staged file, or none.
  lemma EntryOnce(w0: World, t: World, w1: World, changes: seq<Change>, staged: seq<Entry>, after: Option<Path>)
    requires Staging(w0, t, changes, staged) && |staged| < |changes|
    requires StagedBy(t, Final(changes[|staged|]), w1, after)
    ensures var e := Entry(changes[|staged|], after, None, false, false);
      && Staging(w0, w1, changes, staged + [e])
      && (after.Some? && !e.change.existed ==> Ready(w1.files, e))
  {
    AddEntry(w0, t, w1, changes, staged, Entry(changes[|staged|], after, None, false, false));
  }

  // An entry with its replacement staged, and its backup staged or not.
  lemma EntryTwice(w0: World, t: World, w1: World, w2: World, changes: seq<Change>, staged: seq<Entry>, after: Path, backup: Option<Path>)
    requires Staging(w0, t, changes, staged) && |staged| < |changes| && changes[|staged|].existed
    requires StagedBy(t, Final(changes[|staged|]), w1, Some(after))
    requires StagedBy(w1, Snapshot(changes[|staged|]), w2, backup)
    ensures var e := Entry(changes[|staged|], Some(after), backup, false, false);
      && Staging(w0, w2, changes, staged + [e])
      && (backup.Some? ==> Ready(w2.files, e))
  {
    ExtendsTransitive(t, w1, w2);
    AddEntry(w0, t, w2, changes, staged, Entry(changes[|staged|], Some(after), backup, false, false));
  }

  // Staging never touches a destination and loses track of no file it creates, whatever fails.
  lemma {:induction false} StagingKeeps(w0: World, w: World, changes: seq<Change>, staged: seq<Entry>, faults: Faults)
    requires |staged| <= |changes| && Installable(staged) && Staging(w0, w, changes, staged) && AllReady(w.files, staged)
    ensures var (w', all, ready) := StageFrom(w, changes, staged, faults);
      && Staging(w0, w', changes, all) && NeverInstalled(all)
      && (ready ==> AllReady(w'.files, all) && |all| == |changes|)
    decreases |changes| - |staged|
  {
    hide Staging, Extends, Stage, Fresh, StagedBy;
    TickStaging(w0, w, changes, staged);
    if |staged| < |changes| && !faults(w.clock) {
      var c, t := changes[|staged|], Tick(w);
      StagingExtends(t, Final(c), faults);
      var (w1, after) := Stage(t, Final(c), faults);
      var once := staged + [Entry(c, after, None, false, false)];
      EntryOnce(w0, t, w1, changes, staged, after);
      StagedExtends(t, Final(c), w1, after);
      StayReady(t, w1, staged);
      if after.None? {
        assert StageFrom(w, changes, staged, faults) == (w1, once, false);
      } else if !c.existed {
        assert StageFrom(w, changes, staged, faults) == StageFrom(w1, changes, once, faults);
        StagingKeeps(w0, w1, changes, once, faults);
      } else {
        StagingExtends(w1, Snapshot(c), faults);
        var (w2, backup) := Stage(w1, Snapshot(c), faults);
        var twice := staged + [Entry(c, after, backup, false, false)];
        EntryTwice(w0, t, w1, w2, changes, staged, after.value, backup);
        StagedExtends(w1, Snapshot(c), w2, backup);
        StayReady(w1, w2, staged);
        if backup.None? {
          assert StageFrom(w, changes, staged, faults) == (w2, twice, false);
        } else {
          assert StageFrom(w, changes, staged, faults) == StageFrom(w2, changes, twice, faults);
          StagingKeeps(w0, w2, changes, twice, faults);
        }
      }
    }
  }

  lemma StagedExtends(w: World, contents: File, w': World, path: Option<Path>)
    requires StagedBy(w, contents, w', path)
    ensures Extends(w, w') && Fresh(w')
  {
  }
}
