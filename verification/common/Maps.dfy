// Comparing maps key by key.
module Maps {

  ghost predicate SameAt<K, V>(f: map<K, V>, g: map<K, V>, k: K) {
    (k in f <==> k in g) && (k in f ==> f[k] == g[k])
  }

  ghost predicate Within<K, V>(f: map<K, V>, g: map<K, V>) {
    forall k | k in f :: k in g && g[k] == f[k]
  }
}
