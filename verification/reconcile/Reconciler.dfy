// Driving a remote collection to a desired list: delete what is gone, then create or update the rest.
module Reconciler {
  import opened Maps
  import opened Wrappers
  import opened Sorting
  import opened Remote

  ghost function Names<T, A>(ops: Ops<T, A>, desired: seq<T>): set<string> {
    set k | 0 <= k < |desired| :: ops.nameOf(desired[k])
  }

  ghost predicate UniqueNames<T, A>(ops: Ops<T, A>, desired: seq<T>) {
    DistinctKeys(desired, ops.nameOf)
  }

  // a is a remote form of the desired item called n.
  ghost predicate Meets<T, A>(ops: Ops<T, A>, desired: seq<T>, n: string, a: A) {
    exists k :: 0 <= k < |desired| && ops.nameOf(desired[k]) == n && ops.equal(desired[k], a)
  }

  // The collection is exactly the desired list.
  ghost predicate Matches<T, A>(ops: Ops<T, A>, desired: seq<T>, items: map<string, A>) {
    items.Keys == Names(ops, desired) && forall n | n in items :: Meets(ops, desired, n, items[n])
  }

  // ---- The calls a pass needs ----

  function DeleteCalls<T, A>(ops: Ops<T, A>, listing: seq<A>, names: set<string>): (calls: seq<Call<T>>) {
    if listing == [] then []
    else
      (if ops.apiName(listing[0]) in names then [] else [Call.Delete(ops.apiName(listing[0]))]) +
      DeleteCalls(ops, listing[1..], names)
  }

  function UpsertCall<T, A>(ops: Ops<T, A>, item: T, remote: map<string, A>): (calls: seq<Call<T>>) {
    var n := ops.nameOf(item);
    if n !in remote then [Call.Create(item)]
    else if ops.equal(item, remote[n]) then []
    else [Call.Update(item)]
  }

  function UpsertCalls<T, A>(ops: Ops<T, A>, order: seq<T>, remote: map<string, A>): (calls: seq<Call<T>>) {
    if order == [] then [] else UpsertCall(ops, order[0], remote) + UpsertCalls(ops, order[1..], remote)
  }

  function Order<T, A>(ops: Ops<T, A>, desired: seq<T>, sortable: bool): seq<T> {
    if sortable then Sort(desired, ByKey(ops.nameOf)) else desired
  }

  // Sortable items are written in the order of their names, others in the order they were given.
  lemma OrderByName<T(!new), A(!new)>(ops: Ops<T, A>, desired: seq<T>, sortable: bool)
    requires UniqueNames(ops, desired)
    ensures !sortable ==> Order(ops, desired, sortable) == desired
    ensures sortable ==>
      var order := Order(ops, desired, sortable);
      multiset(order) == multiset(desired) && forall i, j | 0 <= i < j < |order| :: StringLess(ops.nameOf(order[i]), ops.nameOf(order[j]))
  {
    if sortable {
      var order := Sort(desired, ByKey(ops.nameOf));
      ByKeyOrder(ops.nameOf);
      SortSorted(desired, ByKey(ops.nameOf));
      DistinctUnderPermutation(desired, order, ops.nameOf);
      forall i, j | 0 <= i < j < |order| ensures StringLess(ops.nameOf(order[i]), ops.nameOf(order[j])) {
        assert !ByKey(ops.nameOf)(order[j], order[i]);
        StringLessTotal(ops.nameOf(order[i]), ops.nameOf(order[j]));
      }
    }
  }

  lemma OrderKeepsItems<T(!new), A(!new)>(ops: Ops<T, A>, desired: seq<T>, sortable: bool)
    requires UniqueNames(ops, desired)
    ensures var order := Order(ops, desired, sortable);
      && |order| == |desired| && UniqueNames(ops, order) && Names(ops, order) == Names(ops, desired)
      && (forall n, a :: Meets(ops, order, n, a) <==> Meets(ops, desired, n, a))
      && (forall d :: d in order <==> d in desired)
  {
    if sortable {
      var order := Sort(desired, ByKey(ops.nameOf));
      SameMembers(order, desired);
      forall n ensures n in Names(ops, order) <==> n in Names(ops, desired) {
        assert n in Names(ops, order) <==> exists d :: d in order && ops.nameOf(d) == n;
        assert n in Names(ops, desired) <==> exists d :: d in desired && ops.nameOf(d) == n;
      }
      forall n, a ensures Meets(ops, order, n, a) <==> Meets(ops, desired, n, a) {
        assert Meets(ops, order, n, a) <==> exists d :: d in order && ops.nameOf(d) == n && ops.equal(d, a);
        assert Meets(ops, desired, n, a) <==> exists d :: d in desired && ops.nameOf(d) == n && ops.equal(d, a);
      }
      DistinctUnderPermutation(desired, order, ops.nameOf);
    }
  }

  // ---- What holds between the calls of a pass ----

  // The log grew by the calls needed, or on failure by the first few of them.
  ghost predicate Logged<T>(was: seq<Call<T>>, now: seq<Call<T>>, needed: seq<Call<T>>, ok: bool) {
    was <= now && now[|was|..] <= needed && (ok ==> now == was + needed)
  }

  // The log on its way: rest is still to come.
  ghost predicate Toward<T>(was: seq<Call<T>>, now: seq<Call<T>>, rest: seq<Call<T>>, needed: seq<Call<T>>) {
    was <= now && now + rest == was + needed
  }

  lemma TowardStep<T>(was: seq<Call<T>>, now: seq<Call<T>>, step: seq<Call<T>>, rest: seq<Call<T>>, needed: seq<Call<T>>)
    requires Toward(was, now, step + rest, needed)
    ensures Toward(was, now + step, rest, needed)
  {
    assert now + (step + rest) == (now + step) + rest;
  }

  lemma TowardStop<T>(was: seq<Call<T>>, now: seq<Call<T>>, rest: seq<Call<T>>, needed: seq<Call<T>>)
    requires Toward(was, now, rest, needed)
    ensures Logged(was, now, needed, false)
    ensures rest == [] ==> Logged(was, now, needed, true)
  {
    assert now == was + now[|was|..];
    assert now + rest == was + (now[|was|..] + rest);
    assert now[|was|..] + rest == (now + rest)[|was|..] == (was + needed)[|was|..] == needed;
  }

  // Some undesired items are gone; nothing else differs.
  ghost predicate Deleting<A>(was: map<string, A>, s: map<string, A>, names: set<string>) {
    && s.Keys <= was.Keys && (forall n | n in s :: s[n] == was[n])
    && (forall n | n in was && n in names :: n in s)
  }

  // Each desired item is as it was or as desired; nothing else differs.
  ghost predicate Upserting<T, A>(ops: Ops<T, A>, was: map<string, A>, s: map<string, A>, desired: seq<T>) {
    && was.Keys <= s.Keys <= was.Keys + Names(ops, desired)
    && (forall n | n in s :: (n in was && s[n] == was[n]) || Meets(ops, desired, n, s[n]))
    && (forall n | n in was && n !in Names(ops, desired) :: s[n] == was[n])
  }

  method DesiredNames<T(!new), A(!new, ==)>(ops: Ops<T, A>, desired: seq<T>) returns (names: set<string>)
    ensures names == Names(ops, desired)
  {
    names := {};
    for k := 0 to |desired|
      invariant names == Names(ops, desired[..k])
    {
      names := names + {ops.nameOf(desired[k])};
      assert desired[..k + 1] == desired[..k] + [desired[k]];
      assert names == Names(ops, desired[..k + 1]) by {
        forall n ensures n in names <==> n in Names(ops, desired[..k + 1]) {
          if n in Names(ops, desired[..k]) {
            var j :| 0 <= j < k && ops.nameOf(desired[..k][j]) == n;
            assert ops.nameOf(desired[..k + 1][j]) == n;
          }
          if n == ops.nameOf(desired[k]) { assert ops.nameOf(desired[..k + 1][k]) == n; }
        }
      }
    }
    assert desired[..|desired|] == desired;
  }

  method ByName<T(!new), A(!new, ==)>(ops: Ops<T, A>, ghost items: map<string, A>, listing: seq<A>) returns (byName: map<string, A>)
    requires Lists(ops, items, listing) && WellNamed(ops, items)
    ensures byName == items
  {
    byName := map[];
    for k := 0 to |listing|
      invariant forall n | n in byName :: n in items && byName[n] == items[n]
      invariant forall j | 0 <= j < k :: ops.apiName(listing[j]) in byName
    {
      byName := byName[ops.apiName(listing[k]) := listing[k]];
    }
    forall n | n in items ensures n in byName {
      assert items[n] in listing;
    }
  }

  ghost predicate AllDeleting<A>(was: map<string, A>, states: seq<map<string, A>>, from: nat, names: set<string>) {
    forall k | from <= k < |states| :: Deleting(was, states[k], names)
  }

  ghost predicate AllUpserting<T, A>(ops: Ops<T, A>, was: map<string, A>, states: seq<map<string, A>>, from: nat, desired: seq<T>) {
    forall k | from <= k < |states| :: Upserting(ops, was, states[k], desired)
  }

  lemma TowardStart<T>(log: seq<Call<T>>, needed: seq<Call<T>>)
    ensures Toward(log, log, needed, needed)
  {
  }

  lemma DeletingStart<A>(was: map<string, A>, states: seq<map<string, A>>, names: set<string>)
    ensures Deleting(was, was, names) && AllDeleting(was, states, |states|, names)
  {
  }

  lemma UpsertingStart<T, A>(ops: Ops<T, A>, was: map<string, A>, states: seq<map<string, A>>, desired: seq<T>)
    ensures Upserting(ops, was, was, desired) && AllUpserting(ops, was, states, |states|, desired)
  {
  }

  // One deletion of a pass that started from the contents was, when the history held from states.
  method DeleteOne<T(!new), A(!new, ==)>(c: Collection<T, A>, name: string, ghost names: set<string>,
                                         ghost was: map<string, A>, ghost from: nat) returns (ok: bool)
    requires c.Valid() && name !in names
    requires Deleting(was, c.items, names) && AllDeleting(was, c.states, from, names)
    modifies c
    ensures c.Valid() && c.calls == old(c.calls) + [Call.Delete(name)] && old(c.states) <= c.states
    ensures Deleting(was, c.items, names) && AllDeleting(was, c.states, from, names)
    ensures c.items.Keys <= old(c.items.Keys) && (ok ==> name !in c.items)
    ensures c.failures == old(c.failures) + (if ok then 0 else 1)
  {
    var answer := c.Delete(name);
    ok := !answer.Failed?;
  }

  method DeletePass<T(!new), A(!new, ==)>(c: Collection<T, A>, desired: seq<T>, listing: seq<A>) returns (ok: bool)
    requires c.Valid() && Lists(c.ops, c.items, listing)
    modifies c
    ensures c.Valid() && old(c.states) <= c.states
    ensures Logged(old(c.calls), c.calls, DeleteCalls(c.ops, listing, Names(c.ops, desired)), ok)
    ensures AllDeleting(old(c.items), c.states, |old(c.states)|, Names(c.ops, desired))
    ensures Deleting(old(c.items), c.items, Names(c.ops, desired))
    ensures ok ==> c.items.Keys <= Names(c.ops, desired)
    ensures c.failures == old(c.failures) + (if ok then 0 else 1)
  {
    var names := DesiredNames(c.ops, desired);
    ghost var was, from := c.items, |c.states|;
    ghost var log, needed := c.calls, DeleteCalls<T, A>(c.ops, listing, names);
    assert listing[0..] == listing;
    hide AllDeleting, Deleting, Lawful, WellNamed, Toward, Logged;
    DeletingStart(was, c.states, names);
    TowardStart(log, needed);
    for k := 0 to |listing|
      invariant c.Valid() && old(c.states) <= c.states && c.failures == old(c.failures)
      invariant Toward(log, c.calls, DeleteCalls(c.ops, listing[k..], names), needed)
      invariant Deleting(was, c.items, names) && AllDeleting(was, c.states, from, names)
      invariant forall j | 0 <= j < k && c.ops.apiName(listing[j]) !in names :: c.ops.apiName(listing[j]) !in c.items
    {
      var name := c.ops.apiName(listing[k]);
      ghost var rest := DeleteCalls<T, A>(c.ops, listing[k + 1..], names);
      assert listing[k..][0] == listing[k] && listing[k..][1..] == listing[k + 1..];
      if name !in names {
        TowardStep(log, c.calls, [Call.Delete(name)], rest, needed);
        ok := DeleteOne(c, name, names, was, from);
        if !ok {
          TowardStop(log, c.calls, rest, needed);
          return;
        }
      }
      assert Toward(log, c.calls, rest, needed) by { assert [] + rest == rest; }
    }
    TowardStop(log, c.calls, [], needed);
    ok := true;
    forall n | n in c.items ensures n in names {
      assert was[n] in listing;
    }
  }

  // The remote form a pass leaves for an item, given what was there before.
  function Written<T, A>(ops: Ops<T, A>, item: T, remote: map<string, A>): (a: A) {
    var n := ops.nameOf(item);
    if n !in remote then ops.created(item)
    else if ops.equal(item, remote[n]) then remote[n]
    else ops.updated(item, remote[n])
  }

  ghost predicate WrittenAt<T, A>(ops: Ops<T, A>, item: T, remote: map<string, A>, s: map<string, A>) {
    ops.nameOf(item) in s && s[ops.nameOf(item)] == Written(ops, item, remote)
  }

  ghost predicate AllWritten<T, A>(ops: Ops<T, A>, desired: seq<T>, remote: map<string, A>, s: map<string, A>) {
    forall k | 0 <= k < |desired| :: WrittenAt(ops, desired[k], remote, s)
  }

  // One create or update of a pass, or neither.
  method UpsertOne<T(!new), A(!new, ==)>(c: Collection<T, A>, order: seq<T>, k: nat, remote: map<string, A>,
                                         ghost was: map<string, A>, ghost from: nat) returns (ok: bool)
    requires c.Valid() && k < |order| && SameAt(remote, c.items, c.ops.nameOf(order[k]))
    requires Upserting(c.ops, was, c.items, order) && AllUpserting(c.ops, was, c.states, from, order)
    modifies c
    ensures c.Valid() && old(c.states) <= c.states
    ensures c.calls == old(c.calls) + UpsertCall(c.ops, order[k], remote)
    ensures Upserting(c.ops, was, c.items, order) && AllUpserting(c.ops, was, c.states, from, order)
    ensures ok ==> WrittenAt(c.ops, order[k], remote, c.items)
    ensures forall n | n != c.ops.nameOf(order[k]) :: SameAt(old(c.items), c.items, n)
    ensures c.failures == old(c.failures) + (if ok then 0 else 1)
  {
    var item := order[k];
    var name := c.ops.nameOf(item);
    assert name in Names(c.ops, order);
    assert forall a | c.ops.equal(item, a) :: Meets(c.ops, order, name, a);
    ok := true;
    if name !in remote {
      ok := c.Create(item);
    } else if !c.ops.equal(item, remote[name]) {
      ok := c.Update(item);
    }
  }

  // Writing item k disturbs neither the settled items before it nor the pending ones after it.
  lemma OthersKept<T, A>(ops: Ops<T, A>, order: seq<T>, k: nat, remote: map<string, A>, before: map<string, A>, after: map<string, A>)
    requires UniqueNames(ops, order) && k < |order|
    requires forall n | n != ops.nameOf(order[k]) :: SameAt(before, after, n)
    ensures forall j | 0 <= j < k && WrittenAt(ops, order[j], remote, before) :: WrittenAt(ops, order[j], remote, after)
    ensures forall j | k < j < |order| && SameAt(remote, before, ops.nameOf(order[j])) :: SameAt(remote, after, ops.nameOf(order[j]))
  {
    hide Written;
    forall j | 0 <= j < |order| && j != k ensures SameAt(before, after, ops.nameOf(order[j])) {
      assert ops.nameOf(order[j]) != ops.nameOf(order[k]);
    }
  }

  method UpsertInOrder<T(!new), A(!new, ==)>(c: Collection<T, A>, order: seq<T>, remote: map<string, A>) returns (ok: bool)
    requires c.Valid() && UniqueNames(c.ops, order)
    requires forall n | n in Names(c.ops, order) :: SameAt(remote, c.items, n)
    modifies c
    ensures c.Valid() && old(c.states) <= c.states
    ensures Logged(old(c.calls), c.calls, UpsertCalls(c.ops, order, remote), ok)
    ensures AllUpserting(c.ops, old(c.items), c.states, |old(c.states)|, order)
    ensures Upserting(c.ops, old(c.items), c.items, order)
    ensures ok ==> AllWritten(c.ops, order, remote, c.items)
    ensures c.failures == old(c.failures) + (if ok then 0 else 1)
  {
    ghost var was, from := c.items, |c.states|;
    ghost var log, needed := c.calls, UpsertCalls(c.ops, order, remote);
    assert order[0..] == order;
    hide AllUpserting, Upserting, Lawful, WellNamed, UpsertCall, Meets, Toward, Logged, WrittenAt;
    UpsertingStart(c.ops, was, c.states, order);
    TowardStart(log, needed);
    for k := 0 to |order|
      invariant c.Valid() && old(c.states) <= c.states && c.failures == old(c.failures)
      invariant Toward(log, c.calls, UpsertCalls(c.ops, order[k..], remote), needed)
      invariant Upserting(c.ops, was, c.items, order) && AllUpserting(c.ops, was, c.states, from, order)
      invariant forall j | 0 <= j < k :: WrittenAt(c.ops, order[j], remote, c.items)
      invariant forall j | k <= j < |order| :: SameAt(remote, c.items, c.ops.nameOf(order[j]))
    {
      assert order[k..][0] == order[k] && order[k..][1..] == order[k + 1..];
      ghost var before, rest := c.items, UpsertCalls(c.ops, order[k + 1..], remote);
      TowardStep(log, c.calls, UpsertCall(c.ops, order[k], remote), rest, needed);
      ok := UpsertOne(c, order, k, remote, was, from);
      if !ok {
        TowardStop(log, c.calls, rest, needed);
        return;
      }
      OthersKept(c.ops, order, k, remote, before, c.items);
    }
    TowardStop(log, c.calls, [], needed);
    ok := true;
  }

  method UpsertPass<T(!new), A(!new, ==)>(c: Collection<T, A>, desired: seq<T>, listing: seq<A>, sortable: bool,
                                          ghost base: map<string, A>) returns (ok: bool)
    requires c.Valid() && UniqueNames(c.ops, desired)
    requires Lists(c.ops, base, listing) && WellNamed(c.ops, base)
    requires forall n | n in Names(c.ops, desired) :: SameAt(base, c.items, n)
    modifies c
    ensures c.Valid() && old(c.states) <= c.states
    ensures Logged(old(c.calls), c.calls, UpsertCalls(c.ops, Order(c.ops, desired, sortable), base), ok)
    ensures AllUpserting(c.ops, old(c.items), c.states, |old(c.states)|, desired)
    ensures Upserting(c.ops, old(c.items), c.items, desired)
    ensures ok ==> AllWritten(c.ops, desired, base, c.items)
    ensures c.failures == old(c.failures) + (if ok then 0 else 1)
  {
    var order := Order(c.ops, desired, sortable);
    OrderKeepsItems(c.ops, desired, sortable);
    var byName := ByName(c.ops, base, listing);
    ok := UpsertInOrder(c, order, byName);
    if ok {
      forall k | 0 <= k < |desired| ensures WrittenAt(c.ops, desired[k], base, c.items) {
        assert desired[k] in order;
      }
    }
  }
}
