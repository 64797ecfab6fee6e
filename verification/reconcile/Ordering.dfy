// Putting API results back in the order a configuration lists them, and comparing model lists.
module Ordering {
  import opened Sorting

  // The first position of a name in the order, or its length when it is absent.
  function Rank<T>(order: seq<T>, nameOf: T -> string, name: string): (k: nat)
    ensures k <= |order|
    ensures k < |order| ==> nameOf(order[k]) == name
    ensures forall j | 0 <= j < k :: nameOf(order[j]) != name
  {
    if order == [] then 0
    else if nameOf(order[0]) == name then 0
    else 1 + Rank(order[1..], nameOf, name)
  }

  // Listed items come first, in listed order; the others follow by name.
  function Before<T>(order: seq<T>, nameOf: T -> string): (T, T) -> bool {
    (x: T, y: T) =>
      var i, j := Rank(order, nameOf, nameOf(x)), Rank(order, nameOf, nameOf(y));
      i < j || (i == j == |order| && StringLess(nameOf(x), nameOf(y)))
  }

  lemma BeforeIsOrder<T(!new)>(order: seq<T>, nameOf: T -> string)
    ensures IsOrder(Before(order, nameOf))
  {
    StringOrder();
  }

  lemma DistinctAreSeparated<T(!new)>(items: seq<T>, order: seq<T>, nameOf: T -> string)
    requires DistinctKeys(items, nameOf)
    ensures Separated(items, Before(order, nameOf))
    ensures Separated(items, ByKey(nameOf))
  {
    StringOrder();
    forall i, j | 0 <= i < |items| && 0 <= j < |items| && i != j
      ensures Before(order, nameOf)(items[i], items[j]) || Before(order, nameOf)(items[j], items[i])
      ensures StringLess(nameOf(items[i]), nameOf(items[j])) || StringLess(nameOf(items[j]), nameOf(items[i]))
    {
      assert nameOf(items[i]) != nameOf(items[j]);
    }
  }

  function Arranged<T>(items: seq<T>, order: seq<T>, nameOf: T -> string): seq<T> {
    Sort(items, Before(order, nameOf))
  }

  // The arrangement keeps every item, depends on the items alone and not on how they arrived, and
  // arranging again changes nothing.
  lemma ArrangementIsCanonical<T(!new)>(items: seq<T>, shuffled: seq<T>, order: seq<T>, nameOf: T -> string)
    requires DistinctKeys(items, nameOf) && multiset(shuffled) == multiset(items)
    ensures multiset(Arranged(items, order, nameOf)) == multiset(items)
    ensures Arranged(shuffled, order, nameOf) == Arranged(items, order, nameOf)
    ensures Arranged(Arranged(items, order, nameOf), order, nameOf) == Arranged(items, order, nameOf)
  {
    var less := Before(order, nameOf);
    BeforeIsOrder(order, nameOf);
    var a := Arranged(items, order, nameOf);
    SortSorted(items, less);
    SortSorted(shuffled, less);
    SortSorted(a, less);
    DistinctUnderPermutation(items, a, nameOf);
    DistinctAreSeparated(a, order, nameOf);
    SortedIsUnique(a, Arranged(shuffled, order, nameOf), less);
    SortedIsUnique(a, Arranged(a, order, nameOf), less);
  }

  ghost predicate Indexed<T>(items: seq<T>, nameOf: T -> string, byName: map<string, T>) {
    && (forall n | n in byName :: byName[n] in items && nameOf(byName[n]) == n)
    && (forall k | 0 <= k < |items| :: nameOf(items[k]) in byName && byName[nameOf(items[k])] == items[k])
  }

  method IndexByName<T>(items: seq<T>, nameOf: T -> string) returns (byName: map<string, T>)
    requires DistinctKeys(items, nameOf)
    ensures Indexed(items, nameOf, byName)
  {
    byName := map[];
    for i := 0 to |items|
      invariant Indexed(items[..i], nameOf, byName)
    {
      assert items[..i + 1] == items[..i] + [items[i]];
      byName := byName[nameOf(items[i]) := items[i]];
    }
    assert items[..|items|] == items;
  }

  // The index by name finds the only item of a name, if there is one.
  lemma OneOfName<T>(items: seq<T>, nameOf: T -> string, byName: map<string, T>, name: string)
    requires DistinctKeys(items, nameOf) && Indexed(items, nameOf, byName)
    ensures name in byName ==> byName[name] in items && nameOf(byName[name]) == name && forall x | x in items && nameOf(x) == name :: x == byName[name]
    ensures name !in byName ==> forall x | x in items :: nameOf(x) != name
  {
    forall x | x in items && nameOf(x) == name ensures name in byName && x == byName[name] {
      var k :| 0 <= k < |items| && items[k] == x;
    }
  }

  // What has been picked up after the first i names of the order.
  ghost predicate ListedSoFar<T>(items: seq<T>, order: seq<T>, nameOf: T -> string, result: seq<T>, seen: set<string>, i: nat) {
    && (forall x | x in result :: x in items && nameOf(x) in seen && Rank(order, nameOf, nameOf(x)) < i)
    && (forall j, k | 0 <= j < k < |result| :: Rank(order, nameOf, nameOf(result[j])) < Rank(order, nameOf, nameOf(result[k])))
    && (forall x | x in items :: nameOf(x) in seen <==> x in result)
    && (forall x | x in items :: nameOf(x) in seen <==> Rank(order, nameOf, nameOf(x)) < i)
  }

  lemma ListOne<T>(items: seq<T>, order: seq<T>, nameOf: T -> string, result: seq<T>, seen: set<string>, i: nat, item: T)
    requires ListedSoFar(items, order, nameOf, result, seen, i)
    requires item in items && Rank(order, nameOf, nameOf(item)) == i
    requires forall x | x in items && (nameOf(x) == nameOf(item) || Rank(order, nameOf, nameOf(x)) == i) :: x == item
    ensures ListedSoFar(items, order, nameOf, result + [item], seen + {nameOf(item)}, i + 1)
  {
    hide Rank;
    var longer := result + [item];
    assert forall x :: x in longer <==> x in result || x == item;
    forall j, k | 0 <= j < k < |longer| ensures Rank(order, nameOf, nameOf(longer[j])) < Rank(order, nameOf, nameOf(longer[k])) {
      assert j < |result| && longer[j] == result[j] && result[j] in result;
      assert if k < |result| then longer[k] == result[k] else longer[k] == item;
    }
  }

  lemma ListNone<T>(items: seq<T>, order: seq<T>, nameOf: T -> string, result: seq<T>, seen: set<string>, i: nat)
    requires ListedSoFar(items, order, nameOf, result, seen, i)
    requires forall x | x in items :: Rank(order, nameOf, nameOf(x)) != i
    ensures ListedSoFar(items, order, nameOf, result, seen, i + 1)
  {
    hide Rank;
  }

  lemma ListNext<T>(items: seq<T>, order: seq<T>, nameOf: T -> string, byName: map<string, T>, result: seq<T>, seen: set<string>, i: nat)
    requires DistinctKeys(items, nameOf) && DistinctKeys(order, nameOf) && Indexed(items, nameOf, byName)
    requires i < |order| && ListedSoFar(items, order, nameOf, result, seen, i)
    ensures var name := nameOf(order[i]);
      if name in byName then ListedSoFar(items, order, nameOf, result + [byName[name]], seen + {name}, i + 1)
      else ListedSoFar(items, order, nameOf, result, seen, i + 1)
  {
    var name := nameOf(order[i]);
    RankOfOwn(order, nameOf, i);
    OneOfName(items, nameOf, byName, name);
    hide Rank, DistinctKeys, Indexed, ListedSoFar;
    if name in byName {
      ListOne(items, order, nameOf, result, seen, i, byName[name]);
    } else {
      ListNone(items, order, nameOf, result, seen, i);
    }
  }

  // Items named by the order, in its order.
  method Listed<T(!new)>(items: seq<T>, order: seq<T>, nameOf: T -> string) returns (result: seq<T>, seen: set<string>)
    requires DistinctKeys(items, nameOf) && DistinctKeys(order, nameOf)
    ensures ListedSoFar(items, order, nameOf, result, seen, |order|)
  {
    var byName := IndexByName(items, nameOf);
    result, seen := [], {};
    hide Rank, DistinctKeys, Indexed;
    for i := 0 to |order|
      invariant ListedSoFar(items, order, nameOf, result, seen, i)
    {
      var name := nameOf(order[i]);
      ListNext(items, order, nameOf, byName, result, seen, i);
      hide ListedSoFar;
      if name in byName {
        result, seen := result + [byName[name]], seen + {name};
      }
    }
  }

  lemma RankOfOwn<T>(order: seq<T>, nameOf: T -> string, i: nat)
    requires DistinctKeys(order, nameOf) && i < |order|
    ensures Rank(order, nameOf, nameOf(order[i])) == i
    ensures forall n :: Rank(order, nameOf, n) == i ==> n == nameOf(order[i])
  {
  }

  method MatchOrder<T(!new)>(items: seq<T>, order: seq<T>, nameOf: T -> string) returns (result: seq<T>)
    requires DistinctKeys(items, nameOf) && DistinctKeys(order, nameOf)
    ensures result == Arranged(items, order, nameOf)
  {
    var listed, seen := Listed(items, order, nameOf);
    var rest: seq<T> := [];
    for i := 0 to |items|
      invariant forall x :: x in rest <==> x in items[..i] && nameOf(x) !in seen
      invariant DistinctKeys(rest, nameOf)
    {
      assert items[..i + 1] == items[..i] + [items[i]];
      if nameOf(items[i]) !in seen {
        forall x | x in rest ensures nameOf(x) != nameOf(items[i]) {
          var k :| 0 <= k < i && items[k] == x;
        }
        rest := rest + [items[i]];
      }
    }
    assert items[..|items|] == items;
    var byName := Sort(rest, ByKey(nameOf));
    result := listed + byName;
    JoinIsArranged(items, order, nameOf, listed, rest);
  }

  lemma JoinIsArranged<T(!new)>(items: seq<T>, order: seq<T>, nameOf: T -> string, listed: seq<T>, rest: seq<T>)
    requires DistinctKeys(items, nameOf) && DistinctKeys(rest, nameOf)
    requires forall k | 0 <= k < |listed| :: Rank(order, nameOf, nameOf(listed[k])) < |order|
    requires forall j, k | 0 <= j < k < |listed| :: Rank(order, nameOf, nameOf(listed[j])) < Rank(order, nameOf, nameOf(listed[k]))
    requires forall x | x in rest :: Rank(order, nameOf, nameOf(x)) == |order|
    requires forall x :: x in items <==> x in listed || x in rest
    ensures listed + Sort(rest, ByKey(nameOf)) == Arranged(items, order, nameOf)
  {
    var less, tail := Before(order, nameOf), Sort(rest, ByKey(nameOf));
    var result := listed + tail;
    ByKeyOrder(nameOf);
    BeforeIsOrder(order, nameOf);
    SortSorted(rest, ByKey(nameOf));
    SortSorted(items, less);
    SameMembers(tail, rest);
    DistinctUnderPermutation(rest, tail, nameOf);
    assert forall k | 0 <= k < |tail| :: tail[k] in rest;
    assert Sorted(result, less) by {
      forall i, j | 0 <= i < j < |result| ensures !less(result[j], result[i]) {
        if i >= |listed| {
          assert !ByKey(nameOf)(tail[j - |listed|], tail[i - |listed|]);
        }
      }
    }
    assert DistinctKeys(result, nameOf) by {
      forall i, j | 0 <= i < j < |result| ensures nameOf(result[i]) != nameOf(result[j]) {
        if i >= |listed| {
          assert nameOf(tail[i - |listed|]) != nameOf(tail[j - |listed|]);
        }
      }
    }
    SameSetSameBag(items, result, nameOf);
    DistinctAreSeparated(result, order, nameOf);
    SortedIsUnique(result, Arranged(items, order, nameOf), less);
  }

  // What the arrangement looks like: listed names first and in listed order, the rest by name.
  lemma ArrangedFollowsOrder<T(!new)>(items: seq<T>, order: seq<T>, nameOf: T -> string, i: nat, j: nat)
    requires DistinctKeys(items, nameOf) && i < j < |items|
    ensures var a := Arranged(items, order, nameOf);
      var p, q := Rank(order, nameOf, nameOf(a[i])), Rank(order, nameOf, nameOf(a[j]));
      p < q || (p == q == |order| && StringLess(nameOf(a[i]), nameOf(a[j])))
  {
    var less := Before(order, nameOf);
    var a := Arranged(items, order, nameOf);
    BeforeIsOrder(order, nameOf);
    SortSorted(items, less);
    DistinctUnderPermutation(items, a, nameOf);
    DistinctAreSeparated(a, order, nameOf);
    assert !less(a[j], a[i]);
  }

  // ---- Comparing model lists ----

  function InNameOrder<T>(items: seq<T>, nameOf: T -> string, sortable: bool): seq<T> {
    if sortable then Sort(items, ByKey(nameOf)) else items
  }

  predicate PairwiseEqual<T>(a: seq<T>, b: seq<T>, equals: (T, T) -> bool) {
    |a| == |b| && forall k | 0 <= k < |a| :: equals(a[k], b[k])
  }

  method ModelsEqual<T>(a: seq<T>, b: seq<T>, nameOf: T -> string, equals: (T, T) -> bool, sortable: bool) returns (same: bool)
    ensures same == PairwiseEqual(InNameOrder(a, nameOf, sortable), InNameOrder(b, nameOf, sortable), equals)
    ensures !sortable ==> (same <==> |a| == |b| && forall k | 0 <= k < |a| :: equals(a[k], b[k]))
    ensures sortable ==>
      var x, y := Sort(a, ByKey(nameOf)), Sort(b, ByKey(nameOf));
      same <==> |x| == |y| && forall k | 0 <= k < |x| :: equals(x[k], y[k])
  {
    var x, y := InNameOrder(a, nameOf, sortable), InNameOrder(b, nameOf, sortable);
    if |x| != |y| {
      return false;
    }
    for i := 0 to |x|
      invariant forall k | 0 <= k < i :: equals(x[k], y[k])
    {
      if !equals(x[i], y[i]) {
        return false;
      }
    }
    same := true;
  }

  lemma NameOrderIsCanonical<T(!new)>(a: seq<T>, shuffled: seq<T>, nameOf: T -> string)
    requires DistinctKeys(a, nameOf) && multiset(a) == multiset(shuffled)
    ensures InNameOrder(a, nameOf, true) == InNameOrder(shuffled, nameOf, true)
  {
    ByKeyOrder(nameOf);
    SortSorted(a, ByKey(nameOf));
    SortSorted(shuffled, ByKey(nameOf));
    var s := Sort(a, ByKey(nameOf));
    DistinctUnderPermutation(a, s, nameOf);
    DistinctAreSeparated(s, [], nameOf);
    SortedIsUnique(s, Sort(shuffled, ByKey(nameOf)), ByKey(nameOf));
  }

  // When equal models share their name, a sortable comparison decides whether the two lists hold
  // equal models under equal names; the order of neither list matters.
  lemma SortableComparison<T(!new)>(a: seq<T>, b: seq<T>, nameOf: T -> string, equals: (T, T) -> bool)
    requires DistinctKeys(a, nameOf) && DistinctKeys(b, nameOf)
    requires forall x, y :: equals(x, y) ==> nameOf(x) == nameOf(y)
    ensures PairwiseEqual(InNameOrder(a, nameOf, true), InNameOrder(b, nameOf, true), equals) <==>
      |a| == |b| && forall x | x in a :: exists y :: y in b && equals(x, y)
  {
    var less := ByKey(nameOf);
    var s, t := Sort(a, less), Sort(b, less);
    SameMembers(s, a);
    SameMembers(t, b);
    if PairwiseEqual(s, t, equals) {
      forall x | x in a ensures exists y :: y in b && equals(x, y) {
        var k :| 0 <= k < |s| && s[k] == x;
        assert t[k] in b;
      }
    }
    if |a| == |b| && forall x | x in a :: exists y :: y in b && equals(x, y) {
      StrictlySorted(a, nameOf);
      StrictlySorted(b, nameOf);
      forall x | x in s ensures exists y :: y in t && equals(x, y) {
        var y :| y in b && equals(x, y);
      }
      MatchInOrder(s, t, nameOf, equals);
    }
  }

  ghost predicate NamesIncrease<T>(s: seq<T>, nameOf: T -> string) {
    forall i, j | 0 <= i < j < |s| :: StringLess(nameOf(s[i]), nameOf(s[j]))
  }

  lemma StrictlySorted<T(!new)>(a: seq<T>, nameOf: T -> string)
    requires DistinctKeys(a, nameOf)
    ensures NamesIncrease(Sort(a, ByKey(nameOf)), nameOf)
  {
    var s := Sort(a, ByKey(nameOf));
    ByKeyOrder(nameOf);
    SortSorted(a, ByKey(nameOf));
    DistinctUnderPermutation(a, s, nameOf);
    DistinctAreSeparated(s, [], nameOf);
    forall i, j | 0 <= i < j < |s| ensures StringLess(nameOf(s[i]), nameOf(s[j])) {
      assert !ByKey(nameOf)(s[j], s[i]);
    }
  }

  // Two lists in name order, of one length, each item of the first matched somewhere in the second:
  // they are matched position by position.
  lemma {:induction false} MatchInOrder<T(!new)>(s: seq<T>, t: seq<T>, nameOf: T -> string, equals: (T, T) -> bool)
    requires NamesIncrease(s, nameOf) && NamesIncrease(t, nameOf) && |s| == |t|
    requires forall x, y :: equals(x, y) ==> nameOf(x) == nameOf(y)
    requires forall x | x in s :: exists y :: y in t && equals(x, y)
    ensures PairwiseEqual(s, t, equals)
  {
    StringOrder();
    forall k | 0 <= k < |s| ensures equals(s[k], t[k]) {
      AtLeastAsFar(s, t, nameOf, equals, k);
    }
  }

  // The partner of position k stands at k: k items before it need k partners before its own, and
  // as many after.
  lemma AtLeastAsFar<T(!new)>(s: seq<T>, t: seq<T>, nameOf: T -> string, equals: (T, T) -> bool, k: nat)
    requires NamesIncrease(s, nameOf) && NamesIncrease(t, nameOf) && |s| == |t| && k < |s|
    requires forall x, y :: equals(x, y) ==> nameOf(x) == nameOf(y)
    requires forall x | x in s :: exists y :: y in t && equals(x, y)
    ensures equals(s[k], t[k])
  {
    var lo := PartnerFrom(s, t, nameOf, equals, k);
    var hi := PartnerTo(s, t, nameOf, equals, k);
    StringOrder();
    assert lo == hi by {
      assert nameOf(t[lo]) == nameOf(t[hi]);
    }
  }

  lemma {:induction false} PartnerFrom<T(!new)>(s: seq<T>, t: seq<T>, nameOf: T -> string, equals: (T, T) -> bool, k: nat) returns (m: nat)
    requires NamesIncrease(s, nameOf) && NamesIncrease(t, nameOf) && |s| == |t| && k < |s|
    requires forall x, y :: equals(x, y) ==> nameOf(x) == nameOf(y)
    requires forall x | x in s :: exists y :: y in t && equals(x, y)
    ensures k <= m < |t| && equals(s[k], t[m])
  {
    assert s[k] in s;
    var y :| y in t && equals(s[k], y);
    m :| 0 <= m < |t| && t[m] == y;
    if k > 0 {
      var p := PartnerFrom(s, t, nameOf, equals, k - 1);
      hide StringLess;
      assert StringLess(nameOf(t[p]), nameOf(t[m]));
      StringLessTotal(nameOf(t[m]), nameOf(t[p]));
      assert p < m;
    }
  }

  lemma {:induction false} PartnerTo<T(!new)>(s: seq<T>, t: seq<T>, nameOf: T -> string, equals: (T, T) -> bool, k: nat) returns (m: nat)
    requires NamesIncrease(s, nameOf) && NamesIncrease(t, nameOf) && |s| == |t| && k < |s|
    requires forall x, y :: equals(x, y) ==> nameOf(x) == nameOf(y)
    requires forall x | x in s :: exists y :: y in t && equals(x, y)
    ensures m <= k && m < |t| && equals(s[k], t[m])
    decreases |s| - k
  {
    assert s[k] in s;
    var y :| y in t && equals(s[k], y);
    m :| 0 <= m < |t| && t[m] == y;
    if k < |s| - 1 {
      var p := PartnerTo(s, t, nameOf, equals, k + 1);
      hide StringLess;
      assert StringLess(nameOf(t[m]), nameOf(t[p]));
      StringLessTotal(nameOf(t[m]), nameOf(t[p]));
      assert m < p;
    }
  }
}
