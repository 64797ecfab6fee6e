// The remote collection a reconciler drives: named items behind an API whose every call may fail.
module Remote {
  import opened Wrappers

  // How a resource type reads and writes its items (T is the declared form, A the remote one).
  datatype Ops<!T, !A> = Ops(
    nameOf: T -> string,
    apiName: A -> string,
    equal: (T, A) -> bool,
    created: T -> A,
    updated: (T, A) -> A)

  // Writing an item makes the remote copy Equal to it, under the same name.
  ghost predicate Lawful<T(!new), A(!new)>(ops: Ops<T, A>) {
    && (forall d :: ops.apiName(ops.created(d)) == ops.nameOf(d) && ops.equal(d, ops.created(d)))
    && (forall d, a :: ops.apiName(ops.updated(d, a)) == ops.nameOf(d) && ops.equal(d, ops.updated(d, a)))
  }

  datatype Call<T> = Delete(name: string) | Create(item: T) | Update(item: T)

  datatype Answer = Done | NotFound | Failed

  ghost predicate WellNamed<T, A>(ops: Ops<T, A>, items: map<string, A>) {
    forall n | n in items :: ops.apiName(items[n]) == n
  }

  // A listing of a collection: every item once, in an order the API chooses.
  ghost predicate Lists<T, A>(ops: Ops<T, A>, items: map<string, A>, listing: seq<A>) {
    && (forall k | 0 <= k < |listing| :: ops.apiName(listing[k]) in items && items[ops.apiName(listing[k])] == listing[k])
    && (forall n | n in items :: items[n] in listing)
    && (forall j, k | 0 <= j < k < |listing| :: ops.apiName(listing[j]) != ops.apiName(listing[k]))
  }

  class Collection<T(!new), A(!new, ==)> {
    const ops: Ops<T, A>
    var items: map<string, A>
    // Every call issued, and the contents before the first and after each of them.
    ghost var calls: seq<Call<T>>
    ghost var states: seq<map<string, A>>
    // How many calls were answered with an error; an item that is gone already is none.
    ghost var failures: nat

    constructor (ops: Ops<T, A>, items: map<string, A>)
      ensures this.ops == ops && this.items == items && calls == [] && states == [items] && failures == 0
    {
      this.ops := ops;
      this.items := items;
      calls, states, failures := [], [items], 0;
    }

    ghost predicate Valid()
      reads this
    {
      Lawful(ops) && WellNamed(ops, items) && |states| == |calls| + 1 && states[|calls|] == items
    }

    method List() returns (listing: Option<seq<A>>)
      requires Valid()
      modifies this`failures
      ensures Valid() && failures == old(failures) + (if listing.None? then 1 else 0)
      ensures listing.Some? ==> Lists(ops, items, listing.value)
    {
      if * {
        failures := failures + 1;
        return None;
      }
      var left, out := items.Keys, [];
      while left != {}
        invariant left <= items.Keys
        invariant forall k | 0 <= k < |out| :: ops.apiName(out[k]) in items && items[ops.apiName(out[k])] == out[k]
        invariant forall k | 0 <= k < |out| :: ops.apiName(out[k]) !in left
        invariant forall n | n in items :: n in left || items[n] in out
        invariant forall j, k | 0 <= j < k < |out| :: ops.apiName(out[j]) != ops.apiName(out[k])
        decreases |left|
      {
        var n :| n in left;
        left, out := left - {n}, out + [items[n]];
      }
      return Some(out);
    }

    // A failed call may still have taken effect; NotFound means someone else removed the item.
    method Delete(name: string) returns (answer: Answer)
      requires Valid()
      modifies this
      ensures Valid() && calls == old(calls) + [Call.Delete(name)] && states == old(states) + [items]
      ensures items == old(items) || items == old(items) - {name}
      ensures !answer.Failed? ==> items == old(items) - {name}
      ensures failures == old(failures) + (if answer.Failed? then 1 else 0)
    {
      if * {
        answer := Failed;
        if * {
          items := items - {name};
        }
      } else {
        answer := if name in items then Done else NotFound;
        if * {
          answer := NotFound;
        }
        items := items - {name};
      }
      failures := failures + (if answer.Failed? then 1 else 0);
      calls, states := calls + [Call.Delete(name)], states + [items];
    }

    method Create(item: T) returns (ok: bool)
      requires Valid()
      modifies this
      ensures Valid() && calls == old(calls) + [Call.Create(item)] && states == old(states) + [items]
      ensures items == old(items) || items == old(items)[ops.nameOf(item) := ops.created(item)]
      ensures ok ==> items == old(items)[ops.nameOf(item) := ops.created(item)]
      ensures failures == old(failures) + (if ok then 0 else 1)
    {
      ok := ops.nameOf(item) !in items;
      if ok {
        var applied := true;
        if * {
          ok, applied := false, *;
        }
        if applied {
          items := items[ops.nameOf(item) := ops.created(item)];
        }
      }
      failures := failures + (if ok then 0 else 1);
      calls, states := calls + [Call.Create(item)], states + [items];
    }

    method Update(item: T) returns (ok: bool)
      requires Valid()
      modifies this
      ensures Valid() && calls == old(calls) + [Call.Update(item)] && states == old(states) + [items]
      ensures items == old(items) ||
        (ops.nameOf(item) in old(items) &&
         items == old(items)[ops.nameOf(item) := ops.updated(item, old(items)[ops.nameOf(item)])])
      ensures ok ==> ops.nameOf(item) in old(items)
      ensures ok ==> items == old(items)[ops.nameOf(item) := ops.updated(item, old(items)[ops.nameOf(item)])]
      ensures failures == old(failures) + (if ok then 0 else 1)
    {
      ok := ops.nameOf(item) in items;
      if ok {
        var applied := true;
        if * {
          ok, applied := false, *;
        }
        if applied {
          items := items[ops.nameOf(item) := ops.updated(item, items[ops.nameOf(item)])];
        }
      }
      failures := failures + (if ok then 0 else 1);
      calls, states := calls + [Call.Update(item)], states + [items];
    }
  }
}
