// Plan-time validation of names and references: what makes a configuration safe to reconcile.
module References {
  import opened Wrappers
  import opened Sorting
  import opened Remote
  import opened Reconciler

  // A configured string; its value may not be known until apply.
  datatype Attribute = Known(value: string) | Unknown | Null

  ghost predicate Clash<T>(items: seq<T>, getName: T -> Attribute, j: nat, k: nat)
    requires j < |items| && k < |items|
  {
    j != k && getName(items[j]).Known? && getName(items[j]) == getName(items[k])
  }

  // Reports a name two items share; unknown and null names are skipped.
  method DuplicateName<T>(items: seq<T>, getName: T -> Attribute) returns (name: Option<string>)
    ensures name.None? <==> forall j, k | 0 <= j < |items| && 0 <= k < |items| :: !Clash(items, getName, j, k)
    ensures name.Some? ==> exists j, k ::
      0 <= j < |items| && 0 <= k < |items| && Clash(items, getName, j, k) && getName(items[j]).value == name.value
  {
    var seen: set<string> := {};
    for i := 0 to |items|
      invariant forall v :: v in seen <==> exists j :: 0 <= j < i && getName(items[j]) == Known(v)
      invariant forall j, k | 0 <= j < i && 0 <= k < i :: !Clash(items, getName, j, k)
    {
      match getName(items[i])
      case Unknown =>
      case Null =>
      case Known(v) =>
        if v in seen {
          var j :| 0 <= j < i && getName(items[j]) == Known(v);
          assert Clash(items, getName, j, i);
          return Some(v);
        }
        seen := seen + {v};
    }
    name := None;
  }

  method KnownNames<T>(items: seq<T>, getName: T -> Attribute) returns (names: set<string>)
    ensures forall v :: v in names <==> exists k :: 0 <= k < |items| && getName(items[k]) == Known(v)
  {
    names := {};
    for i := 0 to |items|
      invariant forall v :: v in names <==> exists k :: 0 <= k < i && getName(items[k]) == Known(v)
    {
      match getName(items[i])
      case Unknown =>
      case Null =>
      case Known(v) => names := names + {v};
    }
  }

  predicate Resolves(ref: string, names: set<string>) {
    ref == "" || ref in names
  }

  // All references of the item before this one resolve.
  ghost predicate FirstBroken(refs: seq<string>, ref: string, names: set<string>) {
    exists k :: 0 <= k < |refs| && refs[k] == ref && forall m | 0 <= m < k :: Resolves(refs[m], names)
  }

  // Reports the first reference that names nothing configured; empty references are skipped.
  method BrokenReference<T>(items: seq<T>, getRefs: T -> seq<string>, names: set<string>) returns (broken: Option<(nat, string)>)
    ensures broken.None? <==> forall i, r | 0 <= i < |items| && r in getRefs(items[i]) :: Resolves(r, names)
    ensures broken.Some? ==> broken.value.0 < |items| && broken.value.1 in getRefs(items[broken.value.0])
    ensures broken.Some? ==> !Resolves(broken.value.1, names)
    ensures broken.Some? ==> forall j, q | 0 <= j < broken.value.0 && q in getRefs(items[j]) :: Resolves(q, names)
    ensures broken.Some? ==> FirstBroken(getRefs(items[broken.value.0]), broken.value.1, names)
  {
    for i := 0 to |items|
      invariant forall j, r | 0 <= j < i && r in getRefs(items[j]) :: Resolves(r, names)
    {
      var refs := getRefs(items[i]);
      for k := 0 to |refs|
        invariant forall m | 0 <= m < k :: Resolves(refs[m], names)
      {
        if refs[k] != "" && refs[k] !in names {
          assert refs[k] in getRefs(items[i]) && !Resolves(refs[k], names);
          return Some((i, refs[k]));
        }
      }
    }
    broken := None;
  }

  // ---- What acceptance means for the reconciler ----

  // Declared references of a dependent, as names.
  ghost function RefsOf<T>(getRefs: T -> seq<string>, item: T): set<string> {
    set r | r in getRefs(item) && r != ""
  }

  ghost predicate DeclaredClosed<T>(getRefs: T -> seq<string>, dependents: seq<T>, parents: set<string>) {
    forall k | 0 <= k < |dependents| :: RefsOf(getRefs, dependents[k]) <= parents
  }

  ghost predicate NamesKnown<T, A>(ops: Ops<T, A>, items: seq<T>, getName: T -> Attribute) {
    forall k | 0 <= k < |items| :: getName(items[k]) == Known(ops.nameOf(items[k]))
  }

  // Checks a parent list and a dependent list the way the provider does before it plans.
  method Accepts<P, PA, D, DA>(parentOps: Ops<P, PA>, dependentOps: Ops<D, DA>, parents: seq<P>, dependents: seq<D>,
                               parentName: P -> Attribute, dependentName: D -> Attribute, getRefs: D -> seq<string>)
    returns (accepted: bool)
    requires NamesKnown(parentOps, parents, parentName) && NamesKnown(dependentOps, dependents, dependentName)
    ensures accepted <==>
      UniqueNames(parentOps, parents) && UniqueNames(dependentOps, dependents) &&
      DeclaredClosed(getRefs, dependents, Names(parentOps, parents))
  {
    var twice := DuplicateName(parents, parentName);
    var twiceDependent := DuplicateName(dependents, dependentName);
    var names := KnownNames(parents, parentName);
    var broken := BrokenReference(dependents, getRefs, names);
    UniqueIffNoClash(parentOps, parents, parentName);
    UniqueIffNoClash(dependentOps, dependents, dependentName);
    forall v ensures v in names <==> v in Names(parentOps, parents) {
      if v in Names(parentOps, parents) {
        var k :| 0 <= k < |parents| && parentOps.nameOf(parents[k]) == v;
        assert parentName(parents[k]) == Known(v);
      }
    }
    assert names == Names(parentOps, parents);
    accepted := twice.None? && twiceDependent.None? && broken.None?;
    ClosedIffResolved(getRefs, dependents, names);
  }

  lemma UniqueIffNoClash<T, A>(ops: Ops<T, A>, items: seq<T>, getName: T -> Attribute)
    requires NamesKnown(ops, items, getName)
    ensures UniqueNames(ops, items) <==> forall j, k | 0 <= j < |items| && 0 <= k < |items| :: !Clash(items, getName, j, k)
  {
    if forall j, k | 0 <= j < |items| && 0 <= k < |items| :: !Clash(items, getName, j, k) {
      forall j, k | 0 <= j < k < |items| ensures ops.nameOf(items[j]) != ops.nameOf(items[k]) {
        assert !Clash(items, getName, j, k);
      }
    }
  }

  lemma ClosedIffResolved<T>(getRefs: T -> seq<string>, items: seq<T>, names: set<string>)
    ensures DeclaredClosed(getRefs, items, names) <==>
      forall i, r | 0 <= i < |items| && r in getRefs(items[i]) :: Resolves(r, names)
  {
    if DeclaredClosed(getRefs, items, names) {
      forall i, r | 0 <= i < |items| && r in getRefs(items[i]) ensures Resolves(r, names) {
        assert r != "" ==> r in RefsOf(getRefs, items[i]);
      }
    }
    if forall i, r | 0 <= i < |items| && r in getRefs(items[i]) :: Resolves(r, names) {
      forall k, r | 0 <= k < |items| && r in RefsOf(getRefs, items[k]) ensures r in names {
        assert r in getRefs(items[k]) && Resolves(r, names);
      }
    }
  }
}
