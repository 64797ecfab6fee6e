// A run in which the original bytes are gone although the plan had backed them up.
module InstallExample {
  import opened Wrappers
  import opened Disk
  import opened Install
  import opened InstallSchedule

  const FIRST := Change("a.tf", "old", "new", 420, true)
  const SECOND := Change("b.tf", "", "moved", 420, false)

  function Start(): World {
    var files: Files := map[Target("a.tf") := File("old", 420)];
    World(files, 0, 0, 0, [files])
  }

  // The second install is refused, the restore of the first fails, and its backup cannot be seen.
  predicate UnluckyCall(n: nat) {
    n == 13 || n == 14 || n == 15
  }

  // The documented promise that a failed rollback keeps the original has an exception: with three
  // failing calls in a row Apply returns an error and neither the file nor its backup holds the
  // original bytes.
  lemma OriginalCanBeLost()
    ensures Fresh(Start()) && DistinctTargets([FIRST, SECOND]) && AllPlanned(Start().files, [FIRST, SECOND])
    ensures Run(0, [FIRST, SECOND], UnluckyCall, 1).Unlucky(0)
    ensures Lost(Start(), [FIRST, SECOND], UnluckyCall, 0)
  {
    var changes := [FIRST, SECOND];
    var r := Run(0, changes, UnluckyCall, 1);
    assert Overwritten(changes, 0, 2) == 1 + Overwritten(changes, 1, 2) == 1 + Overwritten(changes, 2, 2);
    assert Overwritten(changes, 0, 1) == 1 + Overwritten(changes, 1, 1);
    assert r.CheckCall(1) == 13 && r.UndoCall(0) == 14 && r.StatCall(0) == 15 && r.RemoveCall(0) == 16;
    LostIff(Start(), changes, UnluckyCall, 0);
  }
}
