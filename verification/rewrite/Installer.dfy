// The installer itself: loops over a live tree, each the image of its phase.
module Installer {
  import opened Wrappers
  import opened Disk
  import I = Install

  class Installer {
    const tree: Tree
    var staged: seq<I.Entry>

    constructor (tree: Tree)
      ensures this.tree == tree && staged == []
    {
      this.tree := tree;
      staged := [];
    }

    // Compares a file with its snapshot; any failure to look counts as a mismatch.
    method MatchesSnapshot(c: I.Change) returns (ok: bool)
      modifies tree`clock
      ensures tree.Now() == Tick(old(tree.Now()))
      ensures ok == (!tree.faults(old(tree.clock)) && I.AsPlanned(old(tree.files), c))
    {
      var failed := tree.Look();
      if failed {
        return false;
      }
      var target := Target(c.path);
      if !c.existed {
        return target !in tree.files;
      }
      ok := target in tree.files && tree.files[target].mode == c.mode && tree.files[target].data == c.before;
    }

    method CheckOriginals(changes: seq<I.Change>) returns (ok: bool)
      modifies tree`clock
      ensures (tree.Now(), ok) == I.CheckFrom(old(tree.Now()), changes, tree.faults)
    {
      assert changes[0..] == changes;
      for k := 0 to |changes|
        invariant I.CheckFrom(tree.Now(), changes[k..], tree.faults) == I.CheckFrom(old(tree.Now()), changes, tree.faults)
      {
        assert changes[k..][0] == changes[k] && changes[k..][1..] == changes[k + 1..];
        ok := MatchesSnapshot(changes[k]);
        if !ok {
          return;
        }
      }
      ok := true;
    }

    method StageAll(changes: seq<I.Change>) returns (ok: bool)
      requires staged == []
      modifies this, tree
      ensures (tree.Now(), staged, ok) == I.StageFrom(old(tree.Now()), changes, [], tree.faults)
    {
      hide Stage;
      for k := 0 to |changes|
        invariant |staged| == k && I.Installable(staged)
        invariant I.StageFrom(tree.Now(), changes, staged, tree.faults) == I.StageFrom(old(tree.Now()), changes, [], tree.faults)
      {
        var c := changes[k];
        var cancelled := tree.Look();
        if cancelled {
          return false;
        }
        var after := tree.StageContents(I.Final(c));
        var backup := None;
        var staged' := after.Some?;
        if after.Some? && c.existed {
          backup := tree.StageContents(I.Snapshot(c));
          staged' := backup.Some?;
        }
        staged := staged + [I.Entry(c, after, backup, false, false)];
        if !staged' {
          return false;
        }
      }
      ok := true;
    }

    method InstallAll() returns (ok: bool)
      requires I.Installable(staged)
      modifies this, tree
      ensures (tree.Now(), staged, ok) == I.InstallFrom(old(tree.Now()), old(staged), 0, tree.faults)
    {
      for i := 0 to |staged|
        invariant |staged| == |old(staged)|
        invariant forall j | 0 <= j < i :: staged[j].installed
        invariant forall j | i <= j < |staged| :: staged[j].after.Some?
        invariant I.InstallFrom(tree.Now(), staged, i, tree.faults) == I.InstallFrom(old(tree.Now()), old(staged), 0, tree.faults)
      {
        var entry := staged[i];
        ok := MatchesSnapshot(entry.change);
        if !ok {
          return;
        }
        ok := tree.RenameFile(entry.after.value, entry.Dest());
        if !ok {
          return;
        }
        staged := staged[i := entry.(after := None, installed := true)];
      }
      ok := true;
    }

    method RollBack() returns (failures: seq<I.Failure>)
      modifies this, tree
      ensures (tree.Now(), staged, failures) == I.Rollback(old(tree.Now()), old(staged), tree.faults)
    {
      failures := [];
      var i := |staged|;
      while i > 0
        invariant 0 <= i <= |staged| && staged == old(staged)
        invariant I.RestoreFrom(tree.Now(), staged, i, failures, tree.faults)
          == I.RestoreFrom(old(tree.Now()), staged, |staged|, [], tree.faults)
      {
        i := i - 1;
        var entry := staged[i];
        if entry.installed {
          var ok := UndoEntry(entry);
          if !ok {
            failures := failures + [I.Report(entry)];
          }
        }
      }
      if failures != [] {
        failures := MarkRecoveryCopies(failures);
      }
    }

    method UndoEntry(entry: I.Entry) returns (ok: bool)
      modifies tree
      ensures (tree.Now(), ok) == I.UndoOne(old(tree.Now()), entry, tree.faults)
    {
      if !entry.change.existed {
        ok := tree.RemoveFile(entry.Dest());
      } else if entry.backup.None? {
        var _ := tree.Look();
        ok := false;
      } else {
        ok := tree.RenameFile(entry.backup.value, entry.Dest());
      }
    }

    method MarkRecoveryCopies(failures: seq<I.Failure>) returns (all: seq<I.Failure>)
      modifies this, tree
      ensures (tree.Now(), staged, all) == I.PreserveFrom(old(tree.Now()), old(staged), 0, failures, tree.faults)
    {
      all := failures;
      for i := 0 to |staged|
        invariant |staged| == |old(staged)|
        invariant I.PreserveFrom(tree.Now(), staged, i, all, tree.faults)
          == I.PreserveFrom(old(tree.Now()), old(staged), 0, failures, tree.faults)
      {
        var entry := staged[i];
        if entry.installed && entry.change.existed && entry.backup.Some? {
          var found := tree.StatFile(entry.backup.value);
          if found {
            staged := staged[i := entry.(preserve := true)];
            all := all + [I.RecoveryCopy(entry.change.path)];
          }
        }
      }
    }

    // The deferred cleanup: staged files that were not moved into place, and spent backups.
    method CleanUp()
      modifies tree
      ensures tree.Now() == I.CleanFrom(old(tree.Now()), staged, 0, tree.faults)
    {
      for i := 0 to |staged|
        invariant I.CleanFrom(tree.Now(), staged, i, tree.faults) == I.CleanFrom(old(tree.Now()), staged, 0, tree.faults)
      {
        ghost var before := tree.Now();
        var entry := staged[i];
        if entry.after.Some? {
          var _ := tree.RemoveFile(entry.after.value);
        }
        if entry.backup.Some? && !entry.preserve {
          var _ := tree.RemoveFile(entry.backup.value);
        }
        assert tree.Now() == I.CleanOne(before, entry, tree.faults);
      }
    }

    method Attempt(changes: seq<I.Change>) returns (outcome: I.Outcome)
      modifies this, tree
      ensures (tree.Now(), staged, outcome) == I.Attempt(old(tree.Now()), changes, tree.faults)
    {
      hide I.CheckFrom, I.StageFrom, I.InstallFrom, I.Rollback;
      staged := [];
      var cancelled := tree.Look();
      if cancelled {
        return I.Error([]);
      }
      var ok := CheckOriginals(changes);
      if !ok {
        return I.Error([]);
      }
      ok := StageAll(changes);
      if !ok {
        return I.Error([]);
      }
      ok := InstallAll();
      if ok {
        return I.Installed;
      }
      var failures := RollBack();
      outcome := I.Error(failures);
    }

    method Apply(changes: seq<I.Change>) returns (outcome: I.Outcome)
      modifies this, tree
      ensures (tree.Now(), staged, outcome) == I.Apply(old(tree.Now()), changes, tree.faults)
    {
      hide I.Attempt, I.CleanFrom;
      outcome := Attempt(changes);
      CleanUp();
    }
  }
}
