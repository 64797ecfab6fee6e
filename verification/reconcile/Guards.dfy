// Refusing a reconcile that would silently discard data only the API holds.
module Guards {
  import opened Wrappers
  import opened Remote
  import opened Reconciler
  import opened ReconcileRun

  // What asking the API about an item's contents can come back with.
  datatype Contents = Empty | NotEmpty | Unreadable

  datatype Refusal = WouldDiscard(name: string) | CannotCheck(name: string)

  // The item a by-name map keeps: the last of its name.
  function LastNamed<T>(items: seq<T>, nameOf: T -> string, name: string): (last: Option<T>)
    ensures last.None? <==> forall k | 0 <= k < |items| :: nameOf(items[k]) != name
    ensures last.Some? ==> exists k | 0 <= k < |items| ::
      items[k] == last.value && nameOf(items[k]) == name && forall j | k < j < |items| :: nameOf(items[j]) != name
  {
    if items == [] then None
    else if nameOf(items[|items| - 1]) == name then Some(items[|items| - 1])
    else LastNamed(items[..|items| - 1], nameOf, name)
  }

  // How a resource type judges a transition.
  datatype Policy<!T> = Policy(nameOf: T -> string, forceDestroy: T -> bool, discards: (T, Option<T>) -> bool, contents: T -> Contents)

  // The previous item called name would lose data, and nothing has excused it but what it contains.
  predicate AtRisk<T>(policy: Policy<T>, previous: seq<T>, desired: seq<T>, name: string) {
    var item := LastNamed(previous, policy.nameOf, name);
    item.Some? && policy.discards(item.value, LastNamed(desired, policy.nameOf, name)) && !policy.forceDestroy(item.value)
  }

  method LastByName<T>(items: seq<T>, nameOf: T -> string) returns (byName: map<string, T>)
    ensures forall n :: (n in byName <==> LastNamed(items, nameOf, n).Some?)
    ensures forall n | n in byName :: LastNamed(items, nameOf, n) == Some(byName[n])
  {
    byName := map[];
    for k := 0 to |items|
      invariant forall n :: (n in byName <==> LastNamed(items[..k], nameOf, n).Some?)
      invariant forall n | n in byName :: LastNamed(items[..k], nameOf, n) == Some(byName[n])
    {
      assert items[..k + 1][..k] == items[..k];
      byName := byName[nameOf(items[k]) := items[k]];
    }
    assert items[..|items|] == items;
  }

  // Passes exactly when every item at risk is confirmed empty; otherwise names one that is not.
  method CheckGuards<T>(policy: Policy<T>, previous: seq<T>, desired: seq<T>) returns (refusal: Option<Refusal>)
    ensures refusal.None? <==> forall n ::
      var item, wanted := LastNamed(previous, policy.nameOf, n), LastNamed(desired, policy.nameOf, n);
      item.Some? && policy.discards(item.value, wanted) && !policy.forceDestroy(item.value) ==> policy.contents(item.value) == Empty
    ensures refusal.Some? ==>
      var item, wanted := LastNamed(previous, policy.nameOf, refusal.value.name), LastNamed(desired, policy.nameOf, refusal.value.name);
      && item.Some? && policy.discards(item.value, wanted) && !policy.forceDestroy(item.value)
      && policy.contents(item.value) == (if refusal.value.WouldDiscard? then NotEmpty else Unreadable)
  {
    var previousByName := LastByName(previous, policy.nameOf);
    var desiredByName := LastByName(desired, policy.nameOf);
    var left := previousByName.Keys;
    while left != {}
      invariant left <= previousByName.Keys
      invariant forall n | AtRisk(policy, previous, desired, n) :: n in left || policy.contents(LastNamed(previous, policy.nameOf, n).value) == Empty
      decreases |left|
    {
      var name :| name in left;
      left := left - {name};
      var item := previousByName[name];
      var wanted := if name in desiredByName then Some(desiredByName[name]) else None;
      assert LastNamed(desired, policy.nameOf, name) == wanted;
      if policy.discards(item, wanted) && !policy.forceDestroy(item) {
        assert AtRisk(policy, previous, desired, name);
        match policy.contents(item)
        case Empty =>
        case NotEmpty => return Some(WouldDiscard(name));
        case Unreadable => return Some(CannotCheck(name));
      }
    }
    refusal := None;
    assert forall n | AtRisk(policy, previous, desired, n) :: policy.contents(LastNamed(previous, policy.nameOf, n).value) == Empty;
  }

  // A guarded run issues no call at all unless every loss is excused.
  method GuardedRun<T(!new), A(!new, ==)>(c: Collection<T, A>, policy: Policy<T>, previous: seq<T>, desired: seq<T>, sortable: bool)
    returns (refusal: Option<Refusal>, ok: bool)
    requires c.Valid() && UniqueNames(c.ops, desired)
    modifies c
    ensures c.Valid()
    ensures refusal.None? <==> forall n ::
      var item, wanted := LastNamed(previous, policy.nameOf, n), LastNamed(desired, policy.nameOf, n);
      item.Some? && policy.discards(item.value, wanted) && !policy.forceDestroy(item.value) ==> policy.contents(item.value) == Empty
    ensures refusal.Some? ==> !ok && c.calls == old(c.calls) && c.items == old(c.items) && c.states == old(c.states)
    ensures refusal.Some? ==> c.failures == old(c.failures)
    ensures refusal.None? ==> c.failures == old(c.failures) + (if ok then 0 else 1)
    ensures OnlyNeeded(c.ops, old(c.items), desired, old(c.calls), c.calls)
    ensures AllSafe(c.ops, old(c.items), c.states, |old(c.states)|, desired)
    ensures ok ==> Matches(c.ops, desired, c.items)
  {
    ghost var was, log := c.items, c.calls;
    refusal := CheckGuards(policy, previous, desired);
    if refusal.Some? {
      return refusal, false;
    }
    ghost var listing;
    hide RunCalls, Reconciled, OnlyNeeded, AllSafe, Lists, Logged, Names;
    ok, listing := Run(c, desired, sortable);
    RunOnlyNeeded(c.ops, listing, was, desired, sortable, log, c.calls, ok);
    if ok {
      ReconciledMatches(c.ops, was, desired, c.items);
    }
  }
}
