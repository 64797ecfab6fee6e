// Reconciling a parent collection and the dependents that name its items, so that no call ever
// leaves a dependent pointing at nothing.
module Pairs {
  import opened Wrappers
  import opened Remote
  import opened Reconciler
  import opened References
  import opened ReconcileRun

  // A dependent Equal to its declaration carries no reference the declaration lacks.
  ghost predicate RefsLawful<D(!new), DA(!new)>(ops: Ops<D, DA>, getRefs: D -> seq<string>, refsIn: DA -> set<string>) {
    forall d, a :: ops.equal(d, a) ==> refsIn(a) <= RefsOf(getRefs, d)
  }

  // Every reference of every remote dependent names an existing parent.
  ghost predicate Closed<DA>(parents: set<string>, dependents: map<string, DA>, refsIn: DA -> set<string>) {
    forall n | n in dependents :: refsIn(dependents[n]) <= parents
  }

  ghost predicate Referenced<DA>(dependents: map<string, DA>, refsIn: DA -> set<string>, parent: string) {
    exists n :: n in dependents && parent in refsIn(dependents[n])
  }

  // The two-pass order deletes parents before it touches dependents: it is safe when none of the
  // remote dependents uses a parent that is going away.
  ghost predicate NoneStranded<DA>(dependents: map<string, DA>, refsIn: DA -> set<string>, keep: set<string>) {
    forall n | n in dependents :: refsIn(dependents[n]) <= keep
  }

  // ---- Calls in their context ----

  // Parent calls issued while the dependents stayed as they are: references hold after each call,
  // and no deletion was even attempted on a parent still in use.
  ghost predicate ParentCallsSafe<P, PA, DA>(calls: seq<Call<P>>, states: seq<map<string, PA>>, from: nat, to: nat,
                                             dependents: map<string, DA>, refsIn: DA -> set<string>)
    requires to <= |calls| && |states| == |calls| + 1
  {
    && (forall k | from <= k <= to :: Closed(states[k].Keys, dependents, refsIn))
    && (forall k | from <= k < to && calls[k].Delete? :: !Referenced(dependents, refsIn, calls[k].name))
  }

  // Dependent calls issued while the parents stayed as they are: references hold after each call,
  // and every item written names existing parents only.
  ghost predicate DependentCallsSafe<D, DA>(calls: seq<Call<D>>, states: seq<map<string, DA>>, from: nat,
                                            parents: set<string>, getRefs: D -> seq<string>, refsIn: DA -> set<string>)
    requires |states| == |calls| + 1
  {
    && (forall k | from <= k < |states| :: Closed(parents, states[k], refsIn))
    && (forall k | from <= k < |calls| && !calls[k].Delete? :: RefsOf(getRefs, calls[k].item) <= parents)
  }

  // ---- Why each pass is safe ----

  lemma GrowingParentsSafe<P, PA, DA>(ops: Ops<P, PA>, was: map<string, PA>, s: map<string, PA>, desired: seq<P>,
                                      dependents: map<string, DA>, refsIn: DA -> set<string>)
    requires Closed(was.Keys, dependents, refsIn) && Upserting(ops, was, s, desired)
    ensures Closed(s.Keys, dependents, refsIn)
  {
  }

  lemma ShrinkingParentsSafe<PA, DA>(was: map<string, PA>, s: map<string, PA>, keep: set<string>,
                                     dependents: map<string, DA>, refsIn: DA -> set<string>)
    requires Closed(was.Keys, dependents, refsIn) && NoneStranded(dependents, refsIn, keep)
    requires Deleting(was, s, keep)
    ensures Closed(s.Keys, dependents, refsIn)
  {
  }

  lemma RunningParentsSafe<P, PA, DA>(ops: Ops<P, PA>, was: map<string, PA>, s: map<string, PA>, desired: seq<P>,
                                      dependents: map<string, DA>, refsIn: DA -> set<string>)
    requires Closed(was.Keys, dependents, refsIn) && NoneStranded(dependents, refsIn, Names(ops, desired))
    requires Safe(ops, was, s, desired)
    ensures Closed(s.Keys, dependents, refsIn)
  {
    hide Names, Meets;
    forall n, r | n in dependents && r in refsIn(dependents[n]) ensures r in s {
      assert OldOrDesired(ops, was, s, desired, r);
    }
  }

  lemma RunningDependentsSafe<D(!new), DA(!new)>(ops: Ops<D, DA>, was: map<string, DA>, s: map<string, DA>, desired: seq<D>,
                                                 parents: set<string>, getRefs: D -> seq<string>, refsIn: DA -> set<string>)
    requires RefsLawful(ops, getRefs, refsIn)
    requires Closed(parents, was, refsIn) && DeclaredClosed(getRefs, desired, parents)
    requires Safe(ops, was, s, desired)
    ensures Closed(parents, s, refsIn)
  {
    forall n | n in s ensures refsIn(s[n]) <= parents {
      assert OldOrDesired(ops, was, s, desired, n);
    }
  }

  lemma ReconciledDependentsFit<D(!new), DA(!new)>(ops: Ops<D, DA>, items: map<string, DA>, desired: seq<D>,
                                                   parents: set<string>, getRefs: D -> seq<string>, refsIn: DA -> set<string>)
    requires RefsLawful(ops, getRefs, refsIn) && Matches(ops, desired, items) && DeclaredClosed(getRefs, desired, parents)
    ensures NoneStranded(items, refsIn, parents)
  {
  }

  lemma UpsertsNeverDelete<T, A>(ops: Ops<T, A>, order: seq<T>, remote: map<string, A>, was: seq<Call<T>>, now: seq<Call<T>>, ok: bool)
    requires Logged(was, now, UpsertCalls(ops, order, remote), ok)
    ensures forall k | |was| <= k < |now| :: !now[k].Delete?
  {
    forall k | |was| <= k < |now| ensures !now[k].Delete? {
      var issued := now[|was|..];
      assert now[k] == issued[k - |was|] == UpsertCalls(ops, order, remote)[k - |was|];
      UpsertCallsExact(ops, order, remote, now[k]);
    }
  }

  lemma DeletesOnlyUndesired<T, A>(ops: Ops<T, A>, listing: seq<A>, names: set<string>, was: seq<Call<T>>, now: seq<Call<T>>, ok: bool)
    requires Logged(was, now, DeleteCalls<T, A>(ops, listing, names), ok)
    ensures forall k | |was| <= k < |now| :: now[k].Delete? && now[k].name !in names
  {
    forall k | |was| <= k < |now| ensures now[k].Delete? && now[k].name !in names {
      var issued := now[|was|..];
      assert now[k] == issued[k - |was|] == DeleteCalls<T, A>(ops, listing, names)[k - |was|];
      DeleteCallsExact(ops, listing, names, now[k]);
    }
  }

  lemma RunIssuesNeeded<T(!new), A(!new)>(ops: Ops<T, A>, listing: seq<A>, items: map<string, A>, desired: seq<T>, sortable: bool,
                                          was: seq<Call<T>>, now: seq<Call<T>>, ok: bool)
    requires WellNamed(ops, items) && Lists(ops, items, listing) && UniqueNames(ops, desired)
    requires Logged(was, now, RunCalls(ops, listing, items, desired, sortable, Names(ops, desired)), ok)
    ensures forall k | |was| <= k < |now| ::
      if now[k].Delete? then now[k].name in items && now[k].name !in Names(ops, desired) else now[k].item in desired
  {
    hide RunCalls, Names;
    var needed := RunCalls(ops, listing, items, desired, sortable, Names(ops, desired));
    forall k | |was| <= k < |now|
      ensures if now[k].Delete? then now[k].name in items && now[k].name !in Names(ops, desired) else now[k].item in desired
    {
      assert now[k] == now[|was|..][k - |was|] == needed[k - |was|];
      CallsAreNeeded(ops, listing, items, desired, sortable, now[k]);
    }
  }

  // The parent pass of the two-pass order deletes a parent in use exactly when some dependent
  // would be stranded: the order is safe for those remotes and for no others.
  lemma TwoPassHazard<P(!new), PA(!new), DA>(ops: Ops<P, PA>, listing: seq<PA>, parents: map<string, PA>, desired: seq<P>, sortable: bool,
                                            dependents: map<string, DA>, refsIn: DA -> set<string>)
    requires WellNamed(ops, parents) && Lists(ops, parents, listing) && UniqueNames(ops, desired)
    requires Closed(parents.Keys, dependents, refsIn)
    ensures NoneStranded(dependents, refsIn, Names(ops, desired)) <==>
      forall call | call in RunCalls(ops, listing, parents, desired, sortable, Names(ops, desired)) && call.Delete? ::
        !Referenced(dependents, refsIn, call.name)
  {
    hide RunCalls, Names;
    var needed := RunCalls(ops, listing, parents, desired, sortable, Names(ops, desired));
    forall call | call in needed && call.Delete? ensures call.name in parents && call.name !in Names(ops, desired) {
      CallsAreNeeded(ops, listing, parents, desired, sortable, call);
    }
    forall n, r | n in dependents && r in refsIn(dependents[n]) && r !in Names(ops, desired)
      ensures Call.Delete(r) in needed && Referenced(dependents, refsIn, r)
    {
      CallsAreNeeded(ops, listing, parents, desired, sortable, Call.Delete(r));
    }
  }

  // What a run amounts to for the parents that stayed as they were.
  lemma DependentsRan<D(!new), DA(!new)>(ops: Ops<D, DA>, listing: Option<seq<DA>>, was: map<string, DA>, log: seq<Call<D>>,
                                         calls: seq<Call<D>>, states: seq<map<string, DA>>, desired: seq<D>, sortable: bool, ok: bool,
                                         parents: set<string>, getRefs: D -> seq<string>, refsIn: DA -> set<string>)
    requires WellNamed(ops, was) && UniqueNames(ops, desired) && RefsLawful(ops, getRefs, refsIn)
    requires Closed(parents, was, refsIn) && DeclaredClosed(getRefs, desired, parents)
    requires |log| <= |calls| && |states| == |calls| + 1 && states[|log|] == was
    requires listing.None? ==> calls == log
    requires listing.Some? ==> Lists(ops, was, listing.value)
    requires listing.Some? ==> Logged(log, calls, RunCalls(ops, listing.value, was, desired, sortable, Names(ops, desired)), ok)
    requires AllSafe(ops, was, states, |log| + 1, desired)
    ensures DependentCallsSafe(calls, states, |log|, parents, getRefs, refsIn) && Closed(parents, states[|calls|], refsIn)
  {
    hide Logged, Lists, RunCalls, Safe, Closed, UniqueNames, WellNamed, RefsLawful;
    if listing.Some? { RunIssuesNeeded(ops, listing.value, was, desired, sortable, log, calls, ok); }
    forall k | |log| < k < |states| ensures Closed(parents, states[k], refsIn) {
      RunningDependentsSafe(ops, was, states[k], desired, parents, getRefs, refsIn);
    }
    forall k | |log| <= k < |calls| && !calls[k].Delete? ensures RefsOf(getRefs, calls[k].item) <= parents {
      assert calls[k].item in desired;
    }
  }

  // ---- The passes ----

  method DependentPass<D(!new), DA(!new, ==)>(dependents: Collection<D, DA>, desired: seq<D>, sortable: bool, ghost parents: set<string>,
                                              ghost getRefs: D -> seq<string>, ghost refsIn: DA -> set<string>) returns (ok: bool)
    requires dependents.Valid() && UniqueNames(dependents.ops, desired) && RefsLawful(dependents.ops, getRefs, refsIn)
    requires Closed(parents, dependents.items, refsIn) && DeclaredClosed(getRefs, desired, parents)
    modifies dependents
    ensures dependents.Valid() && |old(dependents.calls)| <= |dependents.calls|
    ensures DependentCallsSafe(dependents.calls, dependents.states, |old(dependents.calls)|, parents, getRefs, refsIn)
    ensures Closed(parents, dependents.items, refsIn)
    ensures OnlyNeeded(dependents.ops, old(dependents.items), desired, old(dependents.calls), dependents.calls)
    ensures ok ==> Matches(dependents.ops, desired, dependents.items)
    ensures dependents.failures == old(dependents.failures) + (if ok then 0 else 1)
  {
    ghost var was, log := dependents.items, dependents.calls;
    ghost var listing;
    hide OnlyNeeded, Reconciled, Lists, Logged, Lawful, Matches, RunCalls, Safe, AllSafe, Closed, DeclaredClosed, DependentCallsSafe, RefsLawful, UniqueNames;
    ok, listing := Run(dependents, desired, sortable);
    CallsGrow(dependents.ops, listing, was, log, dependents.calls, desired, sortable, ok);
    RunOnlyNeeded(dependents.ops, listing, was, desired, sortable, log, dependents.calls, ok);
    DependentsRan(dependents.ops, listing, was, log, dependents.calls, dependents.states, desired, sortable, ok, parents, getRefs, refsIn);
    if ok {
      ReconciledMatches(dependents.ops, was, desired, dependents.items);
    }
  }

  // Parents only grow or change: nothing dependents use can go away.
  method GrowParents<P(!new), PA(!new, ==), DA>(parents: Collection<P, PA>, desired: seq<P>, sortable: bool,
                                                ghost dependents: map<string, DA>, ghost refsIn: DA -> set<string>) returns (ok: bool)
    requires parents.Valid() && UniqueNames(parents.ops, desired) && Closed(parents.items.Keys, dependents, refsIn)
    modifies parents
    ensures parents.Valid() && |old(parents.calls)| <= |parents.calls|
    ensures ParentCallsSafe(parents.calls, parents.states, |old(parents.calls)|, |parents.calls|, dependents, refsIn)
    ensures Closed(parents.items.Keys, dependents, refsIn)
    ensures OnlyNeeded(parents.ops, old(parents.items), desired, old(parents.calls), parents.calls)
    ensures ok ==> Names(parents.ops, desired) <= parents.items.Keys
    ensures ok ==> parents.items.Keys == old(parents.items.Keys) + Names(parents.ops, desired)
    ensures ok ==> forall n | n in Names(parents.ops, desired) :: Meets(parents.ops, desired, n, parents.items[n])
    ensures parents.failures == old(parents.failures) + (if ok then 0 else 1)
  {
    ghost var was, log, from := parents.items, parents.calls, |parents.states|;
    ok := CreateOrUpdate(parents, desired, sortable);
    UpsertsNeverDelete(parents.ops, Order(parents.ops, desired, sortable), was, log, parents.calls, ok);
    UpsertsOnlyNeeded(parents.ops, was, desired, sortable, log, parents.calls, ok);
    hide OnlyNeeded, Logged, Closed, Order, UpsertCalls;
    forall k | from <= k < |parents.states| ensures Closed(parents.states[k].Keys, dependents, refsIn) {
      GrowingParentsSafe(parents.ops, was, parents.states[k], desired, dependents, refsIn);
    }
    GrowingParentsSafe(parents.ops, was, parents.items, desired, dependents, refsIn);
    if ok {
      WrittenMeets(parents.ops, was, desired, parents.items);
    }
  }

  lemma WrittenMeets<T(!new), A(!new)>(ops: Ops<T, A>, was: map<string, A>, desired: seq<T>, items: map<string, A>)
    requires Lawful(ops) && AllWritten(ops, desired, was, items)
    ensures Names(ops, desired) <= items.Keys
    ensures forall n | n in Names(ops, desired) :: Meets(ops, desired, n, items[n])
  {
    forall n | n in Names(ops, desired) ensures n in items && Meets(ops, desired, n, items[n]) {
      var k :| 0 <= k < |desired| && ops.nameOf(desired[k]) == n;
      assert WrittenAt(ops, desired[k], was, items);
    }
  }

  // Parents nobody uses any more go away.
  method DropParents<P(!new), PA(!new, ==), DA>(parents: Collection<P, PA>, desired: seq<P>,
                                                ghost first: map<string, PA>, ghost start: seq<Call<P>>,
                                                ghost dependents: map<string, DA>, ghost refsIn: DA -> set<string>) returns (ok: bool)
    requires parents.Valid() && Closed(parents.items.Keys, dependents, refsIn)
    requires OnlyNeeded(parents.ops, first, desired, start, parents.calls) && parents.items.Keys <= first.Keys + Names(parents.ops, desired)
    requires NoneStranded(dependents, refsIn, Names(parents.ops, desired))
    modifies parents
    ensures parents.Valid() && |old(parents.calls)| <= |parents.calls|
    ensures old(parents.calls) <= parents.calls && old(parents.states) <= parents.states
    ensures ParentCallsSafe(parents.calls, parents.states, |old(parents.calls)|, |parents.calls|, dependents, refsIn)
    ensures Closed(parents.items.Keys, dependents, refsIn)
    ensures OnlyNeeded(parents.ops, first, desired, start, parents.calls)
    ensures Deleting(old(parents.items), parents.items, Names(parents.ops, desired))
    ensures ok ==> parents.items.Keys <= Names(parents.ops, desired)
    ensures parents.failures == old(parents.failures) + (if ok then 0 else 1)
  {
    ghost var was, log, from := parents.items, parents.calls, |parents.states|;
    ghost var names := Names(parents.ops, desired);
    ghost var listing;
    hide OnlyNeeded, Logged, Lists, DeleteCalls, Names, Closed, NoneStranded, Deleting;
    ok, listing := DeleteRemoved(parents, desired);
    if listing.Some? {
      DeletesOnlyUndesired(parents.ops, listing.value, names, log, parents.calls, ok);
      DeletesOnlyNeeded(parents.ops, first, was, desired, listing.value, start, log, parents.calls, ok);
    }
    forall k | from <= k < |parents.states| ensures Closed(parents.states[k].Keys, dependents, refsIn) {
      ShrinkingParentsSafe(was, parents.states[k], names, dependents, refsIn);
    }
    ShrinkingParentsSafe(was, parents.items, names, dependents, refsIn);
  }

  // Parents reconciled outright, deletions first.
  lemma RunningStatesSafe<P, PA, DA>(ops: Ops<P, PA>, was: map<string, PA>, states: seq<map<string, PA>>, from: nat, desired: seq<P>,
                                     dependents: map<string, DA>, refsIn: DA -> set<string>)
    requires Closed(was.Keys, dependents, refsIn) && NoneStranded(dependents, refsIn, Names(ops, desired))
    requires AllSafe(ops, was, states, from, desired)
    ensures forall k | from <= k < |states| :: Closed(states[k].Keys, dependents, refsIn)
  {
    hide Closed, NoneStranded, Names, Safe;
    forall k | from <= k < |states| ensures Closed(states[k].Keys, dependents, refsIn) {
      RunningParentsSafe(ops, was, states[k], desired, dependents, refsIn);
    }
  }

  // What a run amounts to for the dependents that stayed as they were.
  lemma ParentsRan<P(!new), PA(!new), DA>(ops: Ops<P, PA>, listing: Option<seq<PA>>, was: map<string, PA>, log: seq<Call<P>>,
                                          calls: seq<Call<P>>, states: seq<map<string, PA>>, desired: seq<P>, sortable: bool, ok: bool,
                                          dependents: map<string, DA>, refsIn: DA -> set<string>)
    requires WellNamed(ops, was) && UniqueNames(ops, desired) && Closed(was.Keys, dependents, refsIn)
    requires |log| <= |calls| && |states| == |calls| + 1 && states[|log|] == was
    requires listing.None? ==> calls == log
    requires listing.Some? ==> Lists(ops, was, listing.value)
    requires listing.Some? ==> Logged(log, calls, RunCalls(ops, listing.value, was, desired, sortable, Names(ops, desired)), ok)
    requires AllSafe(ops, was, states, |log| + 1, desired) && NoneStranded(dependents, refsIn, Names(ops, desired))
    ensures ParentCallsSafe(calls, states, |log|, |calls|, dependents, refsIn) && Closed(states[|calls|].Keys, dependents, refsIn)
  {
    hide Logged, Lists, RunCalls, Names, Safe, UniqueNames, WellNamed, AllSafe;
    if listing.Some? { RunIssuesNeeded(ops, listing.value, was, desired, sortable, log, calls, ok); }
    RunningStatesSafe(ops, was, states, |log| + 1, desired, dependents, refsIn);
    forall k | |log| <= k <= |calls| ensures Closed(states[k].Keys, dependents, refsIn) {
    }
    forall k | |log| <= k < |calls| && calls[k].Delete? ensures !Referenced(dependents, refsIn, calls[k].name) {
      assert calls[k].name !in Names(ops, desired);
    }
  }

  method RunParents<P(!new), PA(!new, ==), DA>(parents: Collection<P, PA>, desired: seq<P>, sortable: bool,
                                               ghost dependents: map<string, DA>, ghost refsIn: DA -> set<string>) returns (ok: bool)
    requires parents.Valid() && UniqueNames(parents.ops, desired)
    requires Closed(parents.items.Keys, dependents, refsIn)
    modifies parents
    ensures parents.Valid() && |old(parents.calls)| <= |parents.calls|
    ensures NoneStranded(dependents, refsIn, Names(parents.ops, desired)) ==>
      ParentCallsSafe(parents.calls, parents.states, |old(parents.calls)|, |parents.calls|, dependents, refsIn)
    ensures NoneStranded(dependents, refsIn, Names(parents.ops, desired)) ==> Closed(parents.items.Keys, dependents, refsIn)
    ensures OnlyNeeded(parents.ops, old(parents.items), desired, old(parents.calls), parents.calls)
    ensures ok ==> Matches(parents.ops, desired, parents.items)
    ensures parents.failures == old(parents.failures) + (if ok then 0 else 1)
  {
    ghost var was, log := parents.items, parents.calls;
    ghost var listing;
    hide OnlyNeeded, Logged, Lists, RunCalls, Names, Safe, Matches, Reconciled, UniqueNames, Closed, NoneStranded, AllSafe, ParentCallsSafe;
    ok, listing := Run(parents, desired, sortable);
    CallsGrow(parents.ops, listing, was, log, parents.calls, desired, sortable, ok);
    RunOnlyNeeded(parents.ops, listing, was, desired, sortable, log, parents.calls, ok);
    if ok {
      ReconciledMatches(parents.ops, was, desired, parents.items);
    }
    if NoneStranded(dependents, refsIn, Names(parents.ops, desired)) {
      ParentsRan(parents.ops, listing, was, log, parents.calls, parents.states, desired, sortable, ok, dependents, refsIn);
    }
  }

  lemma CallsGrow<T, A>(ops: Ops<T, A>, listing: Option<seq<A>>, was: map<string, A>, log: seq<Call<T>>, calls: seq<Call<T>>, desired: seq<T>,
                        sortable: bool, ok: bool)
    requires listing.None? ==> calls == log
    requires listing.Some? ==> Logged(log, calls, RunCalls(ops, listing.value, was, desired, sortable, Names(ops, desired)), ok)
    ensures |log| <= |calls|
  {
  }

  lemma TrimmedParentsMatch<P(!new), PA(!new)>(ops: Ops<P, PA>, was: map<string, PA>, items: map<string, PA>, desired: seq<P>)
    requires Names(ops, desired) <= was.Keys && forall n | n in Names(ops, desired) :: Meets(ops, desired, n, was[n])
    requires Deleting(was, items, Names(ops, desired)) && items.Keys <= Names(ops, desired)
    ensures Matches(ops, desired, items)
  {
    hide Meets, Names;
  }

  lemma DeclaredGrows<D>(getRefs: D -> seq<string>, desired: seq<D>, small: set<string>, large: set<string>)
    requires small <= large && DeclaredClosed(getRefs, desired, small)
    ensures DeclaredClosed(getRefs, desired, large)
  {
  }

  lemma KeysOfMatch<T, A>(ops: Ops<T, A>, desired: seq<T>, items: map<string, A>)
    requires Matches(ops, desired, items)
    ensures items.Keys == Names(ops, desired)
  {
  }

  // Before any call of its own a collection counts as it stands.
  lemma NoCallsYet<P, PA, D, DA>(calls: seq<Call<P>>, states: seq<map<string, PA>>, dependentCalls: seq<Call<D>>, dependentStates: seq<map<string, DA>>,
                                 getRefs: D -> seq<string>, refsIn: DA -> set<string>)
    requires |states| == |calls| + 1 && |dependentStates| == |dependentCalls| + 1
    requires Closed(states[|calls|].Keys, dependentStates[|dependentCalls|], refsIn)
    ensures DependentCallsSafe(dependentCalls, dependentStates, |dependentCalls|, states[|calls|].Keys, getRefs, refsIn)
    ensures ParentCallsSafe(calls, states, |calls|, |calls|, dependentStates[|dependentCalls|], refsIn)
  {
  }

  lemma NoCallsNeeded<T, A>(ops: Ops<T, A>, was: map<string, A>, desired: seq<T>, log: seq<Call<T>>)
    ensures OnlyNeeded(ops, was, desired, log, log)
  {
  }

  // Without dependents in the plan: parents outright, then dependents. cut is how many parent calls
  // had been logged when the dependents' turn came.
  method ParentsThenDependents<P(!new), PA(!new, ==), D(!new), DA(!new, ==)>(
    parents: Collection<P, PA>, dependents: Collection<D, DA>,
    desiredParents: seq<P>, desiredDependents: seq<D>, sortParents: bool, sortDependents: bool,
    ghost getRefs: D -> seq<string>, ghost refsIn: DA -> set<string>) returns (ok: bool, ghost cut: nat)
    requires (parents as object) != (dependents as object) && parents.Valid() && dependents.Valid()
    requires UniqueNames(parents.ops, desiredParents) && UniqueNames(dependents.ops, desiredDependents)
    requires RefsLawful(dependents.ops, getRefs, refsIn)
    requires Closed(parents.items.Keys, dependents.items, refsIn)
    requires DeclaredClosed(getRefs, desiredDependents, Names(parents.ops, desiredParents))
    requires NoneStranded(dependents.items, refsIn, Names(parents.ops, desiredParents))
    modifies parents, dependents
    ensures parents.Valid() && dependents.Valid()
    ensures |old(parents.calls)| <= cut <= |parents.calls|
    ensures ParentCallsSafe(parents.calls, parents.states, |old(parents.calls)|, cut, old(dependents.items), refsIn)
    ensures DependentCallsSafe(dependents.calls, dependents.states, |old(dependents.calls)|,
                               parents.states[cut].Keys, getRefs, refsIn)
    ensures ParentCallsSafe(parents.calls, parents.states, cut, |parents.calls|, dependents.items, refsIn)
    ensures Closed(parents.items.Keys, dependents.items, refsIn)
    ensures OnlyNeeded(parents.ops, old(parents.items), desiredParents, old(parents.calls), parents.calls)
    ensures OnlyNeeded(dependents.ops, old(dependents.items), desiredDependents, old(dependents.calls), dependents.calls)
    ensures ok ==> Matches(parents.ops, desiredParents, parents.items)
    ensures ok ==> Matches(dependents.ops, desiredDependents, dependents.items)
    ensures parents.failures + dependents.failures == old(parents.failures + dependents.failures) + (if ok then 0 else 1)
  {
    NoCallsNeeded(dependents.ops, dependents.items, desiredDependents, dependents.calls);
    hide OnlyNeeded, Names, Matches, Closed, DeclaredClosed, NoneStranded, RefsLawful, Lawful, ParentCallsSafe, DependentCallsSafe;
    ok := RunParents(parents, desiredParents, sortParents, dependents.items, refsIn);
    cut := |parents.calls|;
    NoCallsYet(parents.calls, parents.states, dependents.calls, dependents.states, getRefs, refsIn);
    if ok {
      KeysOfMatch(parents.ops, desiredParents, parents.items);
      ok := DependentPass(dependents, desiredDependents, sortDependents, parents.items.Keys, getRefs, refsIn);
      NoCallsYet(parents.calls, parents.states, dependents.calls, dependents.states, getRefs, refsIn);
    }
  }

  // With dependents in the plan: parents are created or updated first and deleted last.
  method DependentsBetween<P(!new), PA(!new, ==), D(!new), DA(!new, ==)>(
    parents: Collection<P, PA>, dependents: Collection<D, DA>,
    desiredParents: seq<P>, desiredDependents: seq<D>, sortParents: bool, sortDependents: bool,
    ghost getRefs: D -> seq<string>, ghost refsIn: DA -> set<string>) returns (ok: bool, ghost cut: nat)
    requires (parents as object) != (dependents as object) && parents.Valid() && dependents.Valid()
    requires UniqueNames(parents.ops, desiredParents) && UniqueNames(dependents.ops, desiredDependents)
    requires RefsLawful(dependents.ops, getRefs, refsIn)
    requires Closed(parents.items.Keys, dependents.items, refsIn)
    requires DeclaredClosed(getRefs, desiredDependents, Names(parents.ops, desiredParents))
    modifies parents, dependents
    ensures parents.Valid() && dependents.Valid()
    ensures |old(parents.calls)| <= cut <= |parents.calls|
    ensures ParentCallsSafe(parents.calls, parents.states, |old(parents.calls)|, cut, old(dependents.items), refsIn)
    ensures DependentCallsSafe(dependents.calls, dependents.states, |old(dependents.calls)|,
                               parents.states[cut].Keys, getRefs, refsIn)
    ensures ParentCallsSafe(parents.calls, parents.states, cut, |parents.calls|, dependents.items, refsIn)
    ensures Closed(parents.items.Keys, dependents.items, refsIn)
    ensures OnlyNeeded(parents.ops, old(parents.items), desiredParents, old(parents.calls), parents.calls)
    ensures OnlyNeeded(dependents.ops, old(dependents.items), desiredDependents, old(dependents.calls), dependents.calls)
    ensures ok ==> Matches(parents.ops, desiredParents, parents.items)
    ensures ok ==> Matches(dependents.ops, desiredDependents, dependents.items)
    ensures parents.failures + dependents.failures == old(parents.failures + dependents.failures) + (if ok then 0 else 1)
  {
    ghost var names, first, start := Names(parents.ops, desiredParents), parents.items, parents.calls;
    NoCallsNeeded(dependents.ops, dependents.items, desiredDependents, dependents.calls);
    hide OnlyNeeded, Names, Matches, Closed, DeclaredClosed, NoneStranded, RefsLawful, Lawful, Meets, Deleting, ParentCallsSafe, DependentCallsSafe;
    ok := GrowParents(parents, desiredParents, sortParents, dependents.items, refsIn);
    cut := |parents.calls|;
    NoCallsYet(parents.calls, parents.states, dependents.calls, dependents.states, getRefs, refsIn);
    if ok {
      DeclaredGrows(getRefs, desiredDependents, names, parents.items.Keys);
      ok := DependentPass(dependents, desiredDependents, sortDependents, parents.items.Keys, getRefs, refsIn);
      NoCallsYet(parents.calls, parents.states, dependents.calls, dependents.states, getRefs, refsIn);
      if ok {
        ReconciledDependentsFit(dependents.ops, dependents.items, desiredDependents, names, getRefs, refsIn);
        ok := TrimParents(parents, desiredParents, cut, first, start, dependents.items, refsIn);
      }
    }
  }

  // The last pass, when every desired parent is in place and no dependent uses another.
  method TrimParents<P(!new), PA(!new, ==), DA>(parents: Collection<P, PA>, desired: seq<P>, ghost cut: nat,
                                                ghost first: map<string, PA>, ghost start: seq<Call<P>>,
                                                ghost dependents: map<string, DA>, ghost refsIn: DA -> set<string>) returns (ok: bool)
    requires parents.Valid() && Closed(parents.items.Keys, dependents, refsIn) && NoneStranded(dependents, refsIn, Names(parents.ops, desired))
    requires Names(parents.ops, desired) <= parents.items.Keys && forall n | n in Names(parents.ops, desired) :: Meets(parents.ops, desired, n, parents.items[n])
    requires cut == |parents.calls|
    requires OnlyNeeded(parents.ops, first, desired, start, parents.calls) && parents.items.Keys <= first.Keys + Names(parents.ops, desired)
    modifies parents
    ensures OnlyNeeded(parents.ops, first, desired, start, parents.calls)
    ensures parents.Valid() && old(parents.calls) <= parents.calls && old(parents.states) <= parents.states
    ensures ParentCallsSafe(parents.calls, parents.states, cut, |parents.calls|, dependents, refsIn)
    ensures Closed(parents.items.Keys, dependents, refsIn)
    ensures ok ==> Matches(parents.ops, desired, parents.items)
    ensures parents.failures == old(parents.failures) + (if ok then 0 else 1)
  {
    ghost var grown := parents.items;
    hide OnlyNeeded, Names, Matches, Closed, NoneStranded, Lawful, Meets, Deleting, ParentCallsSafe;
    ok := DropParents(parents, desired, first, start, dependents, refsIn);
    if ok {
      TrimmedParentsMatch(parents.ops, grown, parents.items, desired);
    }
  }

  // The pair update: the pass order depends on whether dependents are present.
  method ThreePassUpdate<P(!new), PA(!new, ==), D(!new), DA(!new, ==)>(
    dependentPresent: bool,
    parents: Collection<P, PA>, dependents: Collection<D, DA>,
    desiredParents: seq<P>, desiredDependents: seq<D>, sortParents: bool, sortDependents: bool,
    ghost getRefs: D -> seq<string>, ghost refsIn: DA -> set<string>) returns (ok: bool, ghost cut: nat)
    requires (parents as object) != (dependents as object) && parents.Valid() && dependents.Valid()
    requires UniqueNames(parents.ops, desiredParents) && UniqueNames(dependents.ops, desiredDependents)
    requires RefsLawful(dependents.ops, getRefs, refsIn)
    requires Closed(parents.items.Keys, dependents.items, refsIn)
    requires DeclaredClosed(getRefs, desiredDependents, Names(parents.ops, desiredParents))
    requires dependentPresent || NoneStranded(dependents.items, refsIn, Names(parents.ops, desiredParents))
    modifies parents, dependents
    ensures parents.Valid() && dependents.Valid()
    ensures |old(parents.calls)| <= cut <= |parents.calls|
    ensures ParentCallsSafe(parents.calls, parents.states, |old(parents.calls)|, cut, old(dependents.items), refsIn)
    ensures DependentCallsSafe(dependents.calls, dependents.states, |old(dependents.calls)|,
                               parents.states[cut].Keys, getRefs, refsIn)
    ensures ParentCallsSafe(parents.calls, parents.states, cut, |parents.calls|, dependents.items, refsIn)
    ensures Closed(parents.items.Keys, dependents.items, refsIn)
    ensures OnlyNeeded(parents.ops, old(parents.items), desiredParents, old(parents.calls), parents.calls)
    ensures OnlyNeeded(dependents.ops, old(dependents.items), desiredDependents, old(dependents.calls), dependents.calls)
    ensures ok ==> Matches(parents.ops, desiredParents, parents.items)
    ensures ok ==> Matches(dependents.ops, desiredDependents, dependents.items)
    ensures parents.failures + dependents.failures == old(parents.failures + dependents.failures) + (if ok then 0 else 1)
  {
    hide OnlyNeeded, Names, Matches, Closed, DeclaredClosed, NoneStranded, RefsLawful, ParentCallsSafe, DependentCallsSafe;
    if dependentPresent {
      ok, cut := DependentsBetween(parents, dependents, desiredParents, desiredDependents, sortParents, sortDependents, getRefs, refsIn);
    } else {
      ok, cut := ParentsThenDependents(parents, dependents, desiredParents, desiredDependents, sortParents, sortDependents, getRefs, refsIn);
    }
  }
}
