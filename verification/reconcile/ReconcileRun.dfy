// The reconciler's entry points, and what a run as a whole guarantees.
module ReconcileRun {
  import opened Maps
  import opened Wrappers
  import opened Sorting
  import opened Remote
  import opened Reconciler

  // Everything one run has to issue, in the order it issues it.
  function RunCalls<T, A>(ops: Ops<T, A>, listing: seq<A>, items: map<string, A>, desired: seq<T>, sortable: bool,
                          names: set<string>): seq<Call<T>> {
    DeleteCalls(ops, listing, names) + UpsertCalls(ops, Order(ops, desired, sortable), items)
  }

  // The result of a successful run: the desired names, each item rewritten only where it differed.
  ghost predicate Reconciled<T, A>(ops: Ops<T, A>, was: map<string, A>, desired: seq<T>, items: map<string, A>) {
    items.Keys == Names(ops, desired) && AllWritten(ops, desired, was, items)
  }

  // What a name may look like while a run is under way: untouched, or already as desired.
  ghost predicate OldOrDesired<T, A>(ops: Ops<T, A>, was: map<string, A>, s: map<string, A>, desired: seq<T>, n: string) {
    || SameAt(was, s, n)
    || (if n in Names(ops, desired) then n in s && Meets(ops, desired, n, s[n]) else n !in s)
  }

  ghost predicate Safe<T, A>(ops: Ops<T, A>, was: map<string, A>, s: map<string, A>, desired: seq<T>) {
    && (forall n :: OldOrDesired(ops, was, s, desired, n))
    && (|s| <= |was| || |s| <= |desired|)
  }

  ghost predicate AllSafe<T, A>(ops: Ops<T, A>, was: map<string, A>, states: seq<map<string, A>>, from: nat, desired: seq<T>) {
    forall k | from <= k < |states| :: Safe(ops, was, states[k], desired)
  }

  // ---- Sizes ----

  lemma {:induction false} SubsetSize<X>(a: set<X>, b: set<X>)
    requires a <= b
    ensures |a| <= |b|
  {
    if a != {} {
      var x :| x in a;
      SubsetSize(a - {x}, b - {x});
    }
  }

  lemma {:induction false} NamesSize<T, A>(ops: Ops<T, A>, desired: seq<T>)
    ensures |Names(ops, desired)| <= |desired|
  {
    if desired != [] {
      var front, last := desired[..|desired| - 1], desired[|desired| - 1];
      NamesSize(ops, front);
      assert Names(ops, desired) == Names(ops, front) + {ops.nameOf(last)} by {
        forall n ensures n in Names(ops, desired) <==> n in Names(ops, front) + {ops.nameOf(last)} {
          if n in Names(ops, front) {
            var k :| 0 <= k < |front| && ops.nameOf(front[k]) == n;
            assert ops.nameOf(desired[k]) == n;
          }
          if n == ops.nameOf(last) { assert ops.nameOf(desired[|desired| - 1]) == n; }
        }
      }
    } else {
      assert Names(ops, desired) == {};
    }
  }

  lemma DeletingIsSafe<T, A>(ops: Ops<T, A>, was: map<string, A>, s: map<string, A>, desired: seq<T>)
    requires Deleting(was, s, Names(ops, desired))
    ensures Safe(ops, was, s, desired)
  {
    SubsetSize(s.Keys, was.Keys);
  }

  lemma UpsertingIsSafe<T, A>(ops: Ops<T, A>, was: map<string, A>, mid: map<string, A>, s: map<string, A>, desired: seq<T>)
    requires Deleting(was, mid, Names(ops, desired)) && mid.Keys <= Names(ops, desired)
    requires Upserting(ops, mid, s, desired)
    ensures Safe(ops, was, s, desired)
  {
    NamesSize(ops, desired);
    SubsetSize(s.Keys, Names(ops, desired));
    hide Meets;
    forall n ensures OldOrDesired(ops, was, s, desired, n) {
      if n in Names(ops, desired) && n in s && !Meets(ops, desired, n, s[n]) {
        assert n in mid && s[n] == mid[n] == was[n];
      } else if n in Names(ops, desired) && n !in s {
        assert n !in mid && n !in was;
      }
    }
  }

  lemma LoggedChain<T>(l0: seq<Call<T>>, l1: seq<Call<T>>, l2: seq<Call<T>>, first: seq<Call<T>>, second: seq<Call<T>>, ok: bool)
    requires Logged(l0, l1, first, true) && Logged(l1, l2, second, ok)
    ensures Logged(l0, l2, first + second, ok)
  {
    assert l2 == l1 + l2[|l1|..];
    assert l2[|l0|..] == first + l2[|l1|..];
    assert ok ==> l2 == l0 + (first + second);
  }

  lemma LoggedCut<T>(l0: seq<Call<T>>, l1: seq<Call<T>>, first: seq<Call<T>>, second: seq<Call<T>>)
    requires Logged(l0, l1, first, false)
    ensures Logged(l0, l1, first + second, false)
  {
  }

  // ---- Entry points ----

  method DeleteRemoved<T(!new), A(!new, ==)>(c: Collection<T, A>, desired: seq<T>) returns (ok: bool, ghost listing: Option<seq<A>>)
    requires c.Valid()
    modifies c
    ensures c.Valid() && old(c.states) <= c.states
    ensures listing.None? ==> !ok && c.calls == old(c.calls) && c.items == old(c.items) && c.states == old(c.states)
    ensures listing.Some? ==> Lists(c.ops, old(c.items), listing.value)
    ensures listing.Some? ==> Logged(old(c.calls), c.calls, DeleteCalls(c.ops, listing.value, Names(c.ops, desired)), ok)
    ensures AllDeleting(old(c.items), c.states, |old(c.states)|, Names(c.ops, desired))
    ensures Deleting(old(c.items), c.items, Names(c.ops, desired))
    ensures ok ==> c.items.Keys <= Names(c.ops, desired)
    ensures c.failures == old(c.failures) + (if ok then 0 else 1)
  {
    var remote := c.List();
    listing := remote;
    if remote.None? {
      return false, listing;
    }
    ok := DeletePass(c, desired, remote.value);
  }

  method CreateOrUpdate<T(!new), A(!new, ==)>(c: Collection<T, A>, desired: seq<T>, sortable: bool) returns (ok: bool)
    requires c.Valid() && UniqueNames(c.ops, desired)
    modifies c
    ensures c.Valid() && old(c.states) <= c.states
    ensures Logged(old(c.calls), c.calls, UpsertCalls(c.ops, Order(c.ops, desired, sortable), old(c.items)), ok)
    ensures AllUpserting(c.ops, old(c.items), c.states, |old(c.states)|, desired)
    ensures Upserting(c.ops, old(c.items), c.items, desired)
    ensures ok ==> AllWritten(c.ops, desired, old(c.items), c.items)
    ensures c.failures == old(c.failures) + (if ok then 0 else 1)
  {
    var remote := c.List();
    if remote.None? {
      return false;
    }
    ok := UpsertPass(c, desired, remote.value, sortable, c.items);
  }

  // Reconciles with a single listing.
  method Run<T(!new), A(!new, ==)>(c: Collection<T, A>, desired: seq<T>, sortable: bool) returns (ok: bool, ghost listing: Option<seq<A>>)
    requires c.Valid() && UniqueNames(c.ops, desired)
    modifies c
    ensures c.Valid() && old(c.states) <= c.states
    ensures listing.None? ==> !ok && c.calls == old(c.calls) && c.items == old(c.items)
    ensures listing.Some? ==> Lists(c.ops, old(c.items), listing.value)
    ensures listing.Some? ==>
      Logged(old(c.calls), c.calls, RunCalls(c.ops, listing.value, old(c.items), desired, sortable, Names(c.ops, desired)), ok)
    ensures AllSafe(c.ops, old(c.items), c.states, |old(c.states)|, desired)
    ensures Safe(c.ops, old(c.items), c.items, desired)
    ensures ok ==> Reconciled(c.ops, old(c.items), desired, c.items)
    ensures c.failures == old(c.failures) + (if ok then 0 else 1)
  {
    hide Lawful, Logged, Names, Deleting, Upserting, AllWritten, Lists, Safe, AllDeleting, AllUpserting;
    ghost var was, log, from := c.items, c.calls, |c.states|;
    var remote := c.List();
    listing := remote;
    if remote.None? {
      NothingDone(c.ops, was, c.states, desired);
      return false, listing;
    }
    ok := DeletePass(c, desired, remote.value);
    ghost var mid, midLog, midStates := c.items, c.calls, c.states;
    ghost var deletes, upserts := DeleteCalls<T, A>(c.ops, remote.value, Names(c.ops, desired)), UpsertCalls(c.ops, Order(c.ops, desired, sortable), was);
    if !ok {
      LoggedCut(log, midLog, deletes, upserts);
      DeletePartSafe(c.ops, was, mid, midStates, from, desired);
      return;
    }
    DeletedAgrees(c.ops, was, mid, desired);
    ok := UpsertPass(c, desired, remote.value, sortable, was);
    LoggedChain(log, midLog, c.calls, deletes, upserts, ok);
    WholeRunSafe(c.ops, was, mid, midStates, c.items, c.states, from, desired);
    if ok {
      RunReconciles(c.ops, was, mid, c.items, desired);
    }
  }

  lemma NothingDone<T, A>(ops: Ops<T, A>, was: map<string, A>, states: seq<map<string, A>>, desired: seq<T>)
    ensures Safe(ops, was, was, desired) && AllSafe(ops, was, states, |states|, desired)
  {
  }

  lemma DeletePartSafe<T, A>(ops: Ops<T, A>, was: map<string, A>, mid: map<string, A>, states: seq<map<string, A>>, from: nat, desired: seq<T>)
    requires Deleting(was, mid, Names(ops, desired)) && AllDeleting(was, states, from, Names(ops, desired))
    ensures Safe(ops, was, mid, desired) && AllSafe(ops, was, states, from, desired)
  {
    hide Deleting, Safe, Names;
    DeletingIsSafe(ops, was, mid, desired);
    forall k | from <= k < |states| ensures Safe(ops, was, states[k], desired) {
      DeletingIsSafe(ops, was, states[k], desired);
    }
  }

  lemma DeletedAgrees<T, A>(ops: Ops<T, A>, was: map<string, A>, mid: map<string, A>, desired: seq<T>)
    requires Deleting(was, mid, Names(ops, desired))
    ensures forall n | n in Names(ops, desired) :: SameAt(was, mid, n)
  {
  }

  lemma WholeRunSafe<T, A>(ops: Ops<T, A>, was: map<string, A>, mid: map<string, A>, midStates: seq<map<string, A>>,
                           end: map<string, A>, states: seq<map<string, A>>, from: nat, desired: seq<T>)
    requires Deleting(was, mid, Names(ops, desired)) && mid.Keys <= Names(ops, desired)
    requires AllDeleting(was, midStates, from, Names(ops, desired))
    requires midStates <= states && AllUpserting(ops, mid, states, |midStates|, desired)
    requires Upserting(ops, mid, end, desired)
    ensures Safe(ops, was, end, desired) && AllSafe(ops, was, states, from, desired)
  {
    hide Deleting, Upserting, Safe, Names;
    UpsertingIsSafe(ops, was, mid, end, desired);
    forall k | from <= k < |states| ensures Safe(ops, was, states[k], desired) {
      if k < |midStates| {
        assert states[k] == midStates[k];
        DeletingIsSafe(ops, was, states[k], desired);
      } else {
        UpsertingIsSafe(ops, was, mid, states[k], desired);
      }
    }
  }

  lemma RunReconciles<T, A>(ops: Ops<T, A>, was: map<string, A>, mid: map<string, A>, end: map<string, A>, desired: seq<T>)
    requires mid.Keys <= Names(ops, desired)
    requires Upserting(ops, mid, end, desired) && AllWritten(ops, desired, was, end)
    ensures Reconciled(ops, was, desired, end)
  {
    forall n | n in Names(ops, desired) ensures n in end {
      var k :| 0 <= k < |desired| && ops.nameOf(desired[k]) == n;
      assert WrittenAt(ops, desired[k], was, end);
    }
  }

  // ---- What the result and the calls amount to ----

  // A reconciled collection holds the desired items and nothing else, each Equal to its desired form.
  lemma ReconciledMatches<T(!new), A(!new)>(ops: Ops<T, A>, was: map<string, A>, desired: seq<T>, items: map<string, A>)
    requires Lawful(ops) && Reconciled(ops, was, desired, items)
    ensures Matches(ops, desired, items)
  {
    forall n | n in items ensures Meets(ops, desired, n, items[n]) {
      var k :| 0 <= k < |desired| && ops.nameOf(desired[k]) == n;
      assert WrittenAt(ops, desired[k], was, items);
    }
  }

  lemma {:induction false} NoDeletes<T, A>(ops: Ops<T, A>, listing: seq<A>, names: set<string>)
    ensures DeleteCalls<T, A>(ops, listing, names) == [] <==> forall k | 0 <= k < |listing| :: ops.apiName(listing[k]) in names
  {
    if listing != [] {
      NoDeletes<T, A>(ops, listing[1..], names);
      assert (forall k | 0 <= k < |listing| :: ops.apiName(listing[k]) in names) <==>
        (ops.apiName(listing[0]) in names && forall k | 0 <= k < |listing[1..]| :: ops.apiName(listing[1..][k]) in names) by {
        if ops.apiName(listing[0]) in names && forall k | 0 <= k < |listing[1..]| :: ops.apiName(listing[1..][k]) in names {
          forall k | 0 <= k < |listing| ensures ops.apiName(listing[k]) in names {
            if k > 0 { assert listing[k] == listing[1..][k - 1]; }
          }
        }
      }
    }
  }

  lemma {:induction false} NoUpserts<T, A>(ops: Ops<T, A>, order: seq<T>, remote: map<string, A>)
    ensures UpsertCalls(ops, order, remote) == [] <==> forall d | d in order :: UpsertCall(ops, d, remote) == []
  {
    hide UpsertCall;
    if order != [] {
      NoUpserts(ops, order[1..], remote);
      assert order == [order[0]] + order[1..];
    }
  }

  lemma NothingToDelete<T(!new), A(!new)>(ops: Ops<T, A>, listing: seq<A>, items: map<string, A>, names: set<string>)
    requires WellNamed(ops, items) && Lists(ops, items, listing)
    ensures DeleteCalls<T, A>(ops, listing, names) == [] <==> items.Keys <= names
  {
    NoDeletes<T, A>(ops, listing, names);
    forall n | n in items ensures ops.apiName(items[n]) == n && items[n] in listing {}
  }

  // An item needs no write exactly when it is there and Equal.
  lemma NothingToWrite<T(!new), A(!new)>(ops: Ops<T, A>, items: map<string, A>, desired: seq<T>)
    requires UniqueNames(ops, desired)
    ensures (forall d | d in desired :: UpsertCall(ops, d, items) == []) <==>
      forall n | n in Names(ops, desired) :: n in items && Meets(ops, desired, n, items[n])
  {
    if forall d | d in desired :: UpsertCall(ops, d, items) == [] {
      forall n | n in Names(ops, desired) ensures n in items && Meets(ops, desired, n, items[n]) {
        var k :| 0 <= k < |desired| && ops.nameOf(desired[k]) == n;
        assert UpsertCall(ops, desired[k], items) == [];
      }
    }
    if forall n | n in Names(ops, desired) :: n in items && Meets(ops, desired, n, items[n]) {
      forall d | d in desired ensures UpsertCall(ops, d, items) == [] {
        var k :| 0 <= k < |desired| && desired[k] == d;
        assert ops.nameOf(d) in Names(ops, desired);
        var j :| 0 <= j < |desired| && ops.nameOf(desired[j]) == ops.nameOf(d) && ops.equal(desired[j], items[ops.nameOf(d)]);
        assert j == k;
      }
    }
  }

  // A run has nothing to issue exactly when the collection already matches: in particular a second
  // run after a successful one makes no call.
  lemma NothingToDo<T(!new), A(!new)>(ops: Ops<T, A>, listing: seq<A>, items: map<string, A>, desired: seq<T>, sortable: bool)
    requires WellNamed(ops, items) && Lists(ops, items, listing) && UniqueNames(ops, desired)
    ensures RunCalls(ops, listing, items, desired, sortable, Names(ops, desired)) == [] <==> Matches(ops, desired, items)
  {
    var names, order := Names(ops, desired), Order(ops, desired, sortable);
    hide Order, Names, Meets, UpsertCall, UniqueNames, Lists, WellNamed, DeleteCalls, UpsertCalls;
    NothingToDelete(ops, listing, items, names);
    NoUpserts(ops, order, items);
    OrderKeepsItems(ops, desired, sortable);
    NothingToWrite(ops, items, desired);
    assert forall d :: d in order <==> d in desired;
  }

  lemma {:induction false} DeleteCallsExact<T, A>(ops: Ops<T, A>, listing: seq<A>, names: set<string>, call: Call<T>)
    ensures call in DeleteCalls<T, A>(ops, listing, names) <==>
      (call.Delete? && call.name !in names && exists a :: a in listing && ops.apiName(a) == call.name)
  {
    if listing != [] {
      DeleteCallsExact(ops, listing[1..], names, call);
      assert listing == [listing[0]] + listing[1..];
    }
  }

  lemma {:induction false} UpsertCallsExact<T, A>(ops: Ops<T, A>, order: seq<T>, remote: map<string, A>, call: Call<T>)
    ensures call in UpsertCalls(ops, order, remote) <==>
      !call.Delete? && call.item in order && call in UpsertCall(ops, call.item, remote)
  {
    if order != [] {
      UpsertCallsExact(ops, order[1..], remote, call);
      assert order == [order[0]] + order[1..];
    }
  }

  // The calls of a run are exactly the deletions of undesired items, the creations of missing ones
  // and the updates of differing ones.
  lemma CallsAreNeeded<T(!new), A(!new)>(ops: Ops<T, A>, listing: seq<A>, items: map<string, A>, desired: seq<T>, sortable: bool, call: Call<T>)
    requires WellNamed(ops, items) && Lists(ops, items, listing) && UniqueNames(ops, desired)
    ensures call in RunCalls(ops, listing, items, desired, sortable, Names(ops, desired)) <==>
      match call
      case Delete(n) => n in items && n !in Names(ops, desired)
      case Create(d) => d in desired && ops.nameOf(d) !in items
      case Update(d) => d in desired && ops.nameOf(d) in items && !ops.equal(d, items[ops.nameOf(d)])
  {
    DeleteCallsExact(ops, listing, Names(ops, desired), call);
    UpsertCallsExact(ops, Order(ops, desired, sortable), items, call);
    OrderKeepsItems(ops, desired, sortable);
    hide Order, Names;
    if call.Delete? {
      assert call.name in items ==> items[call.name] in listing && ops.apiName(items[call.name]) == call.name;
    }
  }

  // Every call after the log deletes an item that was there and is undesired, creates a desired one that
  // was missing, or updates one that differed.
  ghost predicate OnlyNeeded<T, A>(ops: Ops<T, A>, was: map<string, A>, desired: seq<T>, log: seq<Call<T>>, calls: seq<Call<T>>) {
    log <= calls && forall k | |log| <= k < |calls| ::
      match calls[k]
      case Delete(n) => n in was && n !in Names(ops, desired)
      case Create(d) => d in desired && ops.nameOf(d) !in was
      case Update(d) => d in desired && ops.nameOf(d) in was && !ops.equal(d, was[ops.nameOf(d)])
  }

  lemma RunOnlyNeeded<T(!new), A(!new)>(ops: Ops<T, A>, listing: Option<seq<A>>, was: map<string, A>, desired: seq<T>, sortable: bool,
                                        log: seq<Call<T>>, calls: seq<Call<T>>, ok: bool)
    requires WellNamed(ops, was) && UniqueNames(ops, desired)
    requires listing.None? ==> calls == log
    requires listing.Some? ==> Lists(ops, was, listing.value)
    requires listing.Some? ==> Logged(log, calls, RunCalls(ops, listing.value, was, desired, sortable, Names(ops, desired)), ok)
    ensures OnlyNeeded(ops, was, desired, log, calls)
  {
    hide RunCalls, Names, WellNamed, Lists, UniqueNames;
    if listing.Some? {
      var needed := RunCalls(ops, listing.value, was, desired, sortable, Names(ops, desired));
      forall k | |log| <= k < |calls| ensures calls[k] in needed {
        assert calls[k] == calls[|log|..][k - |log|] == needed[k - |log|];
      }
      forall call | call in needed {
        CallsAreNeeded(ops, listing.value, was, desired, sortable, call);
      }
    }
  }

  lemma UpsertsOnlyNeeded<T(!new), A(!new)>(ops: Ops<T, A>, was: map<string, A>, desired: seq<T>, sortable: bool,
                                            log: seq<Call<T>>, calls: seq<Call<T>>, ok: bool)
    requires UniqueNames(ops, desired) && Logged(log, calls, UpsertCalls(ops, Order(ops, desired, sortable), was), ok)
    ensures OnlyNeeded(ops, was, desired, log, calls)
  {
    var order := Order(ops, desired, sortable);
    OrderKeepsItems(ops, desired, sortable);
    hide Order, Names, UniqueNames;
    forall k | |log| <= k < |calls| ensures !calls[k].Delete? && calls[k].item in desired && calls[k] in UpsertCall(ops, calls[k].item, was) {
      assert calls[k] == calls[|log|..][k - |log|] == UpsertCalls(ops, order, was)[k - |log|];
      UpsertCallsExact(ops, order, was, calls[k]);
    }
  }

  // Deleting what is left over after the desired items were written.
  lemma DeletesOnlyNeeded<T, A>(ops: Ops<T, A>, was: map<string, A>, grown: map<string, A>, desired: seq<T>, listing: seq<A>,
                                start: seq<Call<T>>, log: seq<Call<T>>, calls: seq<Call<T>>, ok: bool)
    requires OnlyNeeded(ops, was, desired, start, log) && grown.Keys <= was.Keys + Names(ops, desired)
    requires Lists(ops, grown, listing) && Logged(log, calls, DeleteCalls<T, A>(ops, listing, Names(ops, desired)), ok)
    ensures OnlyNeeded(ops, was, desired, start, calls)
  {
    hide Names;
    forall k | |log| <= k < |calls| ensures calls[k].Delete? && calls[k].name in was && calls[k].name !in Names(ops, desired) {
      assert calls[k] == calls[|log|..][k - |log|] == DeleteCalls<T, A>(ops, listing, Names(ops, desired))[k - |log|];
      DeleteCallsExact(ops, listing, Names(ops, desired), calls[k]);
    }
    forall k | |start| <= k < |log| ensures calls[k] == log[k] {
    }
  }

  // Deleting first and listing again for the second pass changes neither the calls nor the result.
  lemma OneListingSuffices<T(!new), A(!new)>(ops: Ops<T, A>, items: map<string, A>, kept: map<string, A>, desired: seq<T>, order: seq<T>)
    requires forall d | d in order :: d in desired
    requires Deleting(items, kept, Names(ops, desired)) && kept.Keys <= Names(ops, desired)
    ensures UpsertCalls(ops, order, kept) == UpsertCalls(ops, order, items)
    ensures forall s :: AllWritten(ops, desired, kept, s) <==> AllWritten(ops, desired, items, s)
  {
    forall d | d in desired ensures UpsertCall(ops, d, kept) == UpsertCall(ops, d, items) && Written(ops, d, kept) == Written(ops, d, items) {
      var k :| 0 <= k < |desired| && desired[k] == d;
      assert ops.nameOf(d) in Names(ops, desired);
    }
    SameUpserts(ops, order, kept, items);
    forall s ensures AllWritten(ops, desired, kept, s) <==> AllWritten(ops, desired, items, s) {
      assert forall k | 0 <= k < |desired| :: desired[k] in desired;
    }
  }

  lemma {:induction false} SameUpserts<T, A>(ops: Ops<T, A>, order: seq<T>, one: map<string, A>, other: map<string, A>)
    requires forall d | d in order :: UpsertCall(ops, d, one) == UpsertCall(ops, d, other)
    ensures UpsertCalls(ops, order, one) == UpsertCalls(ops, order, other)
  {
    hide UpsertCall;
    if order != [] {
      assert order == [order[0]] + order[1..];
      SameUpserts(ops, order[1..], one, other);
    }
  }
}
