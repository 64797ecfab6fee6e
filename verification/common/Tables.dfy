// Lookup tables filled from a list of rules.
module Tables {

  // The table with every rule entered, later ones over earlier ones.
  function Extended<R, K(==), V>(table: map<K, V>, rules: seq<R>, key: R -> K, value: R -> V): map<K, V>
    decreases |rules|
  {
    if rules == [] then table else Extended(table[key(rules[0]) := value(rules[0])], rules[1..], key, value)
  }

  function Mapped<R, C>(rules: seq<R>, f: R -> C): (r: seq<C>)
    ensures |r| == |rules|
  {
    if rules == [] then [] else [f(rules[0])] + Mapped(rules[1..], f)
  }

  // No two rules of the list say different things about one key.
  ghost predicate Agreeing<R, K, V>(rules: seq<R>, key: R -> K, value: R -> V) {
    forall r | r in rules :: key(r) in Extended(map[], rules, key, value) && Extended(map[], rules, key, value)[key(r)] == value(r)
  }

  lemma {:induction false} ExtendedKeys<R(!new), K, V>(table: map<K, V>, rules: seq<R>, key: R -> K, value: R -> V, k: K)
    ensures k in Extended(table, rules, key, value) <==> k in table || exists r | r in rules :: key(r) == k
    decreases |rules|
  {
    if rules != [] {
      ExtendedKeys(table[key(rules[0]) := value(rules[0])], rules[1..], key, value, k);
      assert forall r :: r in rules <==> r == rules[0] || r in rules[1..];
    }
  }

  lemma {:induction false} ExtendedValue<R(!new), K, V>(table: map<K, V>, rules: seq<R>, key: R -> K, value: R -> V, k: K)
    requires k in Extended(table, rules, key, value)
    ensures var v := Extended(table, rules, key, value)[k];
      (k in table && v == table[k]) || exists r | r in rules :: key(r) == k && value(r) == v
    decreases |rules|
  {
    if rules != [] {
      ExtendedValue(table[key(rules[0]) := value(rules[0])], rules[1..], key, value, k);
      assert forall r :: r in rules <==> r == rules[0] || r in rules[1..];
    }
  }

  // Only which rules there are matters for the table.
  lemma SameTable<R(!new), K(!new), V>(rules: seq<R>, other: seq<R>, key: R -> K, value: R -> V)
    requires Agreeing(rules, key, value) && forall r :: r in rules <==> r in other
    ensures Agreeing(other, key, value) && Extended(map[], other, key, value) == Extended(map[], rules, key, value)
  {
    var x, y := Extended(map[], rules, key, value), Extended(map[], other, key, value);
    forall k ensures k in x <==> k in y
      ensures k in y ==> x[k] == y[k]
    {
      ExtendedKeys(map[], rules, key, value, k);
      ExtendedKeys(map[], other, key, value, k);
      if k in y {
        ExtendedValue(map[], other, key, value, k);
      }
    }
    assert x == y;
  }
}
