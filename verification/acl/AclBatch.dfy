// The batch that brings the entries of an access control list to their desired form.
module AclBatch {
  import opened Maps
  import opened Wrappers
  import opened Sorting

  type Entries = map<string, string>

  datatype Op = Delete(prefix: string) | Create(prefix: string, action: string) | Update(prefix: string, action: string)

  // ---- Sets of prefixes in the order of their sorting ----

  ghost function Enumerated(prefixes: set<string>): (s: seq<string>)
    ensures IsEnumeration(prefixes, s)
  {
    if prefixes == {} then []
    else
      var p :| p in prefixes;
      [p] + Enumerated(prefixes - {p})
  }

  ghost predicate IsEnumeration(prefixes: set<string>, s: seq<string>) {
    (forall p :: p in s <==> p in prefixes) && forall i, j | 0 <= i < j < |s| :: s[i] != s[j]
  }

  ghost function Listed(prefixes: set<string>): seq<string> {
    Sort(Enumerated(prefixes), StringLess)
  }

  function Itself(p: string): string {
    p
  }

  // Whatever order a map yields its keys in, sorting them gives the one sorted list.
  lemma ListedIsUnique(prefixes: set<string>, s: seq<string>)
    requires IsEnumeration(prefixes, s)
    ensures Sort(s, StringLess) == Listed(prefixes)
  {
    var e := Enumerated(prefixes);
    SameSetSameBag(s, e, Itself);
    StringOrder();
    SortSorted(s, StringLess);
    SortSorted(e, StringLess);
    var sorted := Sort(s, StringLess);
    DistinctUnderPermutation(s, sorted, Itself);
    assert Separated(sorted, StringLess) by {
      forall i, j | 0 <= i < |sorted| && 0 <= j < |sorted| && i != j
        ensures StringLess(sorted[i], sorted[j]) || StringLess(sorted[j], sorted[i])
      {
        assert Itself(sorted[i]) != Itself(sorted[j]);
      }
    }
    SortedIsUnique(sorted, Sort(e, StringLess), StringLess);
  }

  lemma ListedIsEnumeration(prefixes: set<string>)
    ensures IsEnumeration(prefixes, Listed(prefixes))
  {
    var e := Enumerated(prefixes);
    SameMembers(e, Listed(prefixes));
    DistinctUnderPermutation(e, Listed(prefixes), Itself);
    var s := Listed(prefixes);
    forall i, j | 0 <= i < j < |s| ensures s[i] != s[j] {
      assert Itself(s[i]) != Itself(s[j]);
    }
  }

  // ---- The batch ----

  function StaleAmong(prefixes: set<string>, remote: Entries, desired: Entries): set<string> {
    set p | p in prefixes && p !in desired && p in remote
  }

  // Managed prefixes that are no longer desired and still exist.
  function Stale(remote: Entries, managed: Entries, desired: Entries): set<string> {
    StaleAmong(managed.Keys, remote, desired)
  }

  function DeleteOps(prefixes: seq<string>): seq<Op> {
    if prefixes == [] then [] else [Delete(prefixes[0])] + DeleteOps(prefixes[1..])
  }

  // What a desired entry needs: creation, a new action, or nothing.
  function UpsertOp(remote: Entries, p: string, action: string): Option<Op> {
    if p !in remote then Some(Create(p, action))
    else if remote[p] != action then Some(Update(p, action))
    else None
  }

  function UpsertOps(remote: Entries, desired: Entries, prefixes: seq<string>): seq<Op>
    requires forall p | p in prefixes :: p in desired
  {
    if prefixes == [] then []
    else
      (match UpsertOp(remote, prefixes[0], desired[prefixes[0]]) case None => [] case Some(op) => [op]) +
      UpsertOps(remote, desired, prefixes[1..])
  }

  ghost function BatchFor(remote: Entries, managed: Entries, desired: Entries): seq<Op> {
    ListedIsEnumeration(desired.Keys);
    DeleteOps(Listed(Stale(remote, managed, desired))) + UpsertOps(remote, desired, Listed(desired.Keys))
  }

  lemma ListedAscends(prefixes: set<string>)
    ensures var s := Listed(prefixes); forall i, j | 0 <= i < j < |s| :: StringLess(s[i], s[j])
  {
    var s := Listed(prefixes);
    StringOrder();
    SortSorted(Enumerated(prefixes), StringLess);
    ListedIsEnumeration(prefixes);
    forall i, j | 0 <= i < j < |s| ensures StringLess(s[i], s[j]) {
      assert !StringLess(s[j], s[i]);
      StringLessTotal(s[i], s[j]);
    }
  }

  ghost predicate AscendingPrefixes(ops: seq<Op>) {
    forall i, j | 0 <= i < j < |ops| :: StringLess(ops[i].prefix, ops[j].prefix)
  }

  lemma {:induction false} DeletionsAscend(prefixes: seq<string>)
    requires forall i, j | 0 <= i < j < |prefixes| :: StringLess(prefixes[i], prefixes[j])
    ensures var ops := DeleteOps(prefixes);
      |ops| == |prefixes| && (forall k | 0 <= k < |ops| :: ops[k] == Delete(prefixes[k])) && AscendingPrefixes(ops)
  {
    hide StringLess;
    if prefixes != [] { DeletionsAscend(prefixes[1..]); }
  }

  lemma {:induction false} UpsertsAscend(remote: Entries, desired: Entries, prefixes: seq<string>)
    requires forall p | p in prefixes :: p in desired
    requires forall i, j | 0 <= i < j < |prefixes| :: StringLess(prefixes[i], prefixes[j])
    ensures var ops := UpsertOps(remote, desired, prefixes);
      AscendingPrefixes(ops) && forall op | op in ops :: !op.Delete? && op.prefix in prefixes
  {
    hide StringLess;
    if prefixes != [] {
      UpsertsAscend(remote, desired, prefixes[1..]);
      var rest := UpsertOps(remote, desired, prefixes[1..]);
      forall op | op in rest ensures StringLess(prefixes[0], op.prefix) {
        var k :| 0 <= k < |prefixes| - 1 && prefixes[1..][k] == op.prefix;
      }
    }
  }

  // Deletions come first, and each half is in the order of its prefixes.
  lemma BatchOrder(remote: Entries, managed: Entries, desired: Entries)
    ensures var batch := BatchFor(remote, managed, desired);
      forall i, j | 0 <= i < j < |batch| ::
        (batch[j].Delete? ==> batch[i].Delete?) && (batch[i].Delete? == batch[j].Delete? ==> StringLess(batch[i].prefix, batch[j].prefix))
  {
    ListedAscends(Stale(remote, managed, desired));
    ListedAscends(desired.Keys);
    ListedIsEnumeration(desired.Keys);
    DeletionsAscend(Listed(Stale(remote, managed, desired)));
    UpsertsAscend(remote, desired, Listed(desired.Keys));
    hide DeleteOps, UpsertOps, Stale, Listed, StringLess;
  }

  // Collects the keys that qualify, in whatever order the map yields them, and sorts them.
  method CollectStale(remote: Entries, managed: Entries, desired: Entries) returns (prefixes: seq<string>)
    ensures prefixes == Listed(Stale(remote, managed, desired))
  {
    var found: seq<string> := [];
    var left, done := managed.Keys, {};
    hide Sort, StringLess, Listed;
    while left != {}
      invariant left + done == managed.Keys && left !! done
      invariant IsEnumeration(StaleAmong(done, remote, desired), found)
      decreases |left|
    {
      var p :| p in left;
      OneMoreStale(done, remote, desired, p, found);
      left, done := left - {p}, done + {p};
      if p !in desired && p in remote {
        found := found + [p];
      }
    }
    assert done == managed.Keys;
    ListedIsUnique(Stale(remote, managed, desired), found);
    prefixes := Sort(found, StringLess);
  }

  lemma OneMoreStale(done: set<string>, remote: Entries, desired: Entries, p: string, found: seq<string>)
    requires p !in done && IsEnumeration(StaleAmong(done, remote, desired), found)
    ensures IsEnumeration(StaleAmong(done + {p}, remote, desired), if p !in desired && p in remote then found + [p] else found)
  {
    var before, after := StaleAmong(done, remote, desired), StaleAmong(done + {p}, remote, desired);
    if p !in desired && p in remote {
      assert after == before + {p} && p !in found;
      assert forall q :: q in found + [p] <==> q in found || q == p;
    } else {
      assert after == before;
    }
  }

  method CollectDesired(desired: Entries) returns (prefixes: seq<string>)
    ensures prefixes == Listed(desired.Keys)
  {
    var found: seq<string> := [];
    var left, done := desired.Keys, {};
    hide Sort, StringLess, Listed;
    while left != {}
      invariant left + done == desired.Keys && left !! done
      invariant IsEnumeration(done, found)
      decreases |left|
    {
      var p :| p in left;
      OneMoreKey(done, p, found);
      left, done := left - {p}, done + {p};
      found := found + [p];
    }
    assert done == desired.Keys;
    ListedIsUnique(desired.Keys, found);
    prefixes := Sort(found, StringLess);
  }

  lemma OneMoreKey(done: set<string>, p: string, found: seq<string>)
    requires p !in done && IsEnumeration(done, found)
    ensures IsEnumeration(done + {p}, found + [p])
  {
    assert p !in found;
    assert forall q :: q in found + [p] <==> q in found || q == p;
  }

  method DeleteAll(stale: seq<string>) returns (batch: seq<Op>)
    ensures batch == DeleteOps(stale)
  {
    batch := [];
    assert stale[0..] == stale && [] + DeleteOps(stale) == DeleteOps(stale);
    for i := 0 to |stale|
      invariant batch + DeleteOps(stale[i..]) == DeleteOps(stale)
    {
      assert stale[i..][0] == stale[i] && stale[i..][1..] == stale[i + 1..];
      batch := batch + [Delete(stale[i])];
    }
  }

  method UpsertAll(remote: Entries, desired: Entries, prefixes: seq<string>) returns (batch: seq<Op>)
    requires forall p | p in prefixes :: p in desired
    ensures batch == UpsertOps(remote, desired, prefixes)
  {
    batch := [];
    ghost var all := UpsertOps(remote, desired, prefixes);
    assert prefixes[0..] == prefixes && [] + all == all;
    hide UpsertOp, UpsertOps;
    for i := 0 to |prefixes|
      invariant batch + UpsertOps(remote, desired, prefixes[i..]) == all
    {
      assert prefixes[i] in prefixes;
      var op := UpsertOp(remote, prefixes[i], desired[prefixes[i]]);
      NextUpsert(remote, desired, prefixes[i..], batch);
      assert prefixes[i..][1..] == prefixes[i + 1..];
      if op.Some? {
        batch := batch + [op.value];
      }
    }
    NoUpserts(remote, desired, prefixes[|prefixes|..], batch);
  }

  lemma NoUpserts(remote: Entries, desired: Entries, rest: seq<string>, batch: seq<Op>)
    requires rest == []
    ensures batch + UpsertOps(remote, desired, rest) == batch
  {
  }

  lemma NextUpsert(remote: Entries, desired: Entries, rest: seq<string>, batch: seq<Op>)
    requires rest != [] && forall p | p in rest :: p in desired
    ensures rest[0] in rest && forall p | p in rest[1..] :: p in desired
    ensures var op := UpsertOp(remote, rest[0], desired[rest[0]]);
      batch + UpsertOps(remote, desired, rest) ==
      (if op.Some? then batch + [op.value] else batch) + UpsertOps(remote, desired, rest[1..])
  {
    hide UpsertOp;
    var op, later := UpsertOp(remote, rest[0], desired[rest[0]]), UpsertOps(remote, desired, rest[1..]);
    if op.Some? {
      assert batch + ([op.value] + later) == (batch + [op.value]) + later;
    } else {
      assert [] + later == later;
    }
  }

  method BuildBatch(remote: Entries, managed: Entries, desired: Entries) returns (batch: seq<Op>)
    ensures batch == BatchFor(remote, managed, desired)
  {
    hide Listed, Stale, DeleteOps, UpsertOps;
    var stale := CollectStale(remote, managed, desired);
    var deletes := DeleteAll(stale);
    var prefixes := CollectDesired(desired);
    ListedIsEnumeration(desired.Keys);
    var upserts := UpsertAll(remote, desired, prefixes);
    batch := deletes + upserts;
  }

  // ---- What the batch does ----

  function AppliedOp(remote: Entries, op: Op): Entries {
    match op
    case Delete(p) => remote - {p}
    case Create(p, action) => remote[p := action]
    case Update(p, action) => remote[p := action]
  }

  function AppliedBatch(remote: Entries, batch: seq<Op>): Entries
    decreases |batch|
  {
    if batch == [] then remote else AppliedBatch(AppliedOp(remote, batch[0]), batch[1..])
  }

  // The managed prefixes no longer desired are gone, the desired ones are as desired, and everything
  // else is as it was.
  function Target(remote: Entries, managed: Entries, desired: Entries): Entries {
    remote - (managed.Keys - desired.Keys) + desired
  }

  // An operation that does what the target asks for, where there is something to do.
  predicate Useful(remote: Entries, target: Entries, op: Op) {
    match op
    case Delete(p) => p in remote && p !in target
    case Create(p, action) => p !in remote && p in target && target[p] == action
    case Update(p, action) => p in remote && remote[p] != action && p in target && target[p] == action
  }

  ghost predicate Prefixes(batch: seq<Op>, prefixes: set<string>) {
    && (forall p :: p in prefixes <==> exists op | op in batch :: op.prefix == p)
    && (forall i, j | 0 <= i < j < |batch| :: batch[i].prefix != batch[j].prefix)
  }

  // The prefixes at which two states of the list differ.
  function Differing(x: Entries, y: Entries): set<string> {
    set p | p in x.Keys + y.Keys && !(p in x && p in y && x[p] == y[p])
  }

  lemma {:induction false} DeletesUseful(remote: Entries, target: Entries, prefixes: seq<string>)
    requires forall i, j | 0 <= i < j < |prefixes| :: prefixes[i] != prefixes[j]
    requires forall p | p in prefixes :: p in remote && p !in target
    ensures |DeleteOps(prefixes)| == |prefixes|
    ensures forall i | 0 <= i < |prefixes| :: DeleteOps(prefixes)[i] == Delete(prefixes[i])
    ensures forall op | op in DeleteOps(prefixes) :: Useful(remote, target, op)
  {
    if prefixes != [] {
      var rest := prefixes[1..];
      assert forall p | p in rest :: p in prefixes;
      DeletesUseful(remote, target, rest);
      assert prefixes[0] in prefixes;
      forall i | 0 <= i < |prefixes| ensures DeleteOps(prefixes)[i] == Delete(prefixes[i]) {
        if i > 0 { assert DeleteOps(prefixes)[i] == DeleteOps(rest)[i - 1] && rest[i - 1] == prefixes[i]; }
      }
    }
  }

  lemma {:induction false} UpsertsUseful(remote: Entries, target: Entries, desired: Entries, prefixes: seq<string>)
    requires forall i, j | 0 <= i < j < |prefixes| :: prefixes[i] != prefixes[j]
    requires forall p | p in prefixes :: p in desired && p in target && target[p] == desired[p]
    ensures forall op | op in UpsertOps(remote, desired, prefixes) :: Useful(remote, target, op) && op.prefix in prefixes && !op.Delete?
    ensures forall i, j | 0 <= i < j < |UpsertOps(remote, desired, prefixes)| ::
      UpsertOps(remote, desired, prefixes)[i].prefix != UpsertOps(remote, desired, prefixes)[j].prefix
    ensures forall p | p in prefixes && !(p in remote && remote[p] == desired[p]) ::
      exists op | op in UpsertOps(remote, desired, prefixes) :: op.prefix == p
  {
    if prefixes != [] {
      var p, rest := prefixes[0], prefixes[1..];
      UpsertsUseful(remote, target, desired, rest);
      assert p !in rest;
      var op := UpsertOp(remote, p, desired[p]);
      if op.Some? {
        assert op.value in UpsertOps(remote, desired, prefixes);
        forall q | q in rest && !(q in remote && remote[q] == desired[q])
          ensures exists op | op in UpsertOps(remote, desired, prefixes) :: op.prefix == q
        {
          var o :| o in UpsertOps(remote, desired, rest) && o.prefix == q;
          assert o in UpsertOps(remote, desired, prefixes);
        }
      }
    }
  }

  // Every operation is needed, no prefix occurs twice, and together they are for exactly the prefixes
  // at which the remote list differs from the target.
  lemma BatchIsExact(remote: Entries, managed: Entries, desired: Entries)
    ensures var batch, target := BatchFor(remote, managed, desired), Target(remote, managed, desired);
      && (forall op | op in batch :: Useful(remote, target, op))
      && Prefixes(batch, Differing(remote, target))
  {
    var target := Target(remote, managed, desired);
    var stale, wanted := Listed(Stale(remote, managed, desired)), Listed(desired.Keys);
    ListedIsEnumeration(Stale(remote, managed, desired));
    ListedIsEnumeration(desired.Keys);
    hide Listed;
    DeletesUseful(remote, target, stale);
    UpsertsUseful(remote, target, desired, wanted);
    BatchPrefixes(remote, managed, desired, stale, wanted);
  }

  lemma BatchPrefixes(remote: Entries, managed: Entries, desired: Entries, stale: seq<string>, wanted: seq<string>)
    requires IsEnumeration(Stale(remote, managed, desired), stale) && IsEnumeration(desired.Keys, wanted)
    ensures Prefixes(DeleteOps(stale) + UpsertOps(remote, desired, wanted), Differing(remote, Target(remote, managed, desired)))
  {
    var target := Target(remote, managed, desired);
    DeletesUseful(remote, target, stale);
    UpsertsUseful(remote, target, desired, wanted);
    var deletes, upserts := DeleteOps(stale), UpsertOps(remote, desired, wanted);
    assert forall op | op in deletes :: op.prefix in stale;
    PrefixesApart(deletes, upserts, stale, wanted);
    forall p ensures p in Differing(remote, target) <==> exists op | op in deletes + upserts :: op.prefix == p {
      PrefixCovered(remote, managed, desired, stale, wanted, p);
    }
  }

  lemma PrefixesApart(deletes: seq<Op>, upserts: seq<Op>, stale: seq<string>, wanted: seq<string>)
    requires forall i, j | 0 <= i < j < |deletes| :: deletes[i].prefix != deletes[j].prefix
    requires forall i, j | 0 <= i < j < |upserts| :: upserts[i].prefix != upserts[j].prefix
    requires (forall op | op in deletes :: op.prefix in stale) && forall op | op in upserts :: op.prefix in wanted
    requires forall p | p in stale :: p !in wanted
    ensures forall i, j | 0 <= i < j < |deletes + upserts| :: (deletes + upserts)[i].prefix != (deletes + upserts)[j].prefix
  {
    var batch := deletes + upserts;
    forall i, j | 0 <= i < j < |batch| ensures batch[i].prefix != batch[j].prefix {
      if i < |deletes| <= j { assert batch[i] in deletes && batch[j] in upserts; }
    }
  }

  lemma PrefixCovered(remote: Entries, managed: Entries, desired: Entries, stale: seq<string>, wanted: seq<string>, p: string)
    requires IsEnumeration(Stale(remote, managed, desired), stale) && IsEnumeration(desired.Keys, wanted)
    ensures p in Differing(remote, Target(remote, managed, desired)) <==>
      exists op | op in DeleteOps(stale) + UpsertOps(remote, desired, wanted) :: op.prefix == p
  {
    var target := Target(remote, managed, desired);
    DeletesUseful(remote, target, stale);
    UpsertsUseful(remote, target, desired, wanted);
    var deletes, upserts := DeleteOps(stale), UpsertOps(remote, desired, wanted);
    hide DeleteOps, UpsertOps;
    if p in Differing(remote, target) && p in desired {
      var op :| op in upserts && op.prefix == p;
      assert op in deletes + upserts;
    } else if p in Differing(remote, target) {
      assert p in Stale(remote, managed, desired) && p in stale;
      var i :| 0 <= i < |stale| && stale[i] == p;
      assert deletes[i] in deletes + upserts;
    }
    if op :| op in deletes + upserts && op.prefix == p { assert Useful(remote, target, op); }
  }

  // The effect of a batch without repetitions, prefix by prefix.
  lemma {:induction false} AppliedAt(remote: Entries, batch: seq<Op>, p: string)
    requires forall i, j | 0 <= i < j < |batch| :: batch[i].prefix != batch[j].prefix
    ensures (forall op | op in batch :: op.prefix != p) ==>
      (p in AppliedBatch(remote, batch) <==> p in remote) && (p in remote ==> AppliedBatch(remote, batch)[p] == remote[p])
    ensures forall op | op in batch && op.prefix == p ::
      if op.Delete? then p !in AppliedBatch(remote, batch) else p in AppliedBatch(remote, batch) && AppliedBatch(remote, batch)[p] == op.action
    decreases |batch|
  {
    if batch != [] {
      assert forall op :: op in batch <==> op == batch[0] || op in batch[1..];
      AppliedAt(AppliedOp(remote, batch[0]), batch[1..], p);
    }
  }

  // Applying the batch gives the target, whatever the remote list held.
  lemma BatchReachesTarget(remote: Entries, managed: Entries, desired: Entries)
    ensures AppliedBatch(remote, BatchFor(remote, managed, desired)) == Target(remote, managed, desired)
  {
    var batch, target := BatchFor(remote, managed, desired), Target(remote, managed, desired);
    var after := AppliedBatch(remote, batch);
    BatchIsExact(remote, managed, desired);
    hide BatchFor, Target;
    forall p ensures p in after <==> p in target
      ensures p in after ==> after[p] == target[p]
    {
      AppliedAt(remote, batch, p);
      if p in Differing(remote, target) {
        var op :| op in batch && op.prefix == p;
        assert Useful(remote, target, op);
      }
    }
  }

  // The batch is empty exactly when the remote list is at its target already.
  lemma EmptyBatchIff(remote: Entries, managed: Entries, desired: Entries)
    ensures BatchFor(remote, managed, desired) == [] <==> remote == Target(remote, managed, desired)
  {
    var batch, target := BatchFor(remote, managed, desired), Target(remote, managed, desired);
    BatchIsExact(remote, managed, desired);
    BatchReachesTarget(remote, managed, desired);
    hide BatchFor, Target;
    if remote == target { assert FirstOp(batch).None?; }
  }

  function FirstOp(batch: seq<Op>): (op: Option<Op>)
    ensures op.None? <==> batch == []
    ensures op.Some? ==> op.value in batch
  {
    if batch == [] then None else Some(batch[0])
  }

  // Building again after the batch was applied, for the old or the new set of managed prefixes, finds
  // nothing to do.
  lemma RebuildIsEmpty(remote: Entries, managed: Entries, desired: Entries)
    ensures var after := AppliedBatch(remote, BatchFor(remote, managed, desired));
      BatchFor(after, managed, desired) == [] && BatchFor(after, desired, desired) == []
  {
    var after := AppliedBatch(remote, BatchFor(remote, managed, desired));
    BatchReachesTarget(remote, managed, desired);
    EmptyBatchIff(after, managed, desired);
    EmptyBatchIff(after, desired, desired);
    hide BatchFor;
    assert Target(after, managed, desired) == after;
    assert Target(after, desired, desired) == after;
  }

  // ---- Convergence ----

  predicate Reflects(remote: Entries, op: Op) {
    match op
    case Delete(p) => p !in remote
    case Create(p, action) => p in remote && remote[p] == action
    case Update(p, action) => p in remote && remote[p] == action
  }

  predicate Converged(remote: Entries, batch: seq<Op>) {
    forall op | op in batch :: Reflects(remote, op)
  }

  method EntriesConverged(remote: Entries, batch: seq<Op>) returns (converged: bool)
    ensures converged <==> Converged(remote, batch)
  {
    for i := 0 to |batch|
      invariant forall k | 0 <= k < i :: Reflects(remote, batch[k])
    {
      var op := batch[i];
      if op.Delete? {
        if op.prefix in remote {
          assert !Reflects(remote, batch[i]);
          return false;
        }
      } else if op.prefix !in remote || remote[op.prefix] != op.action {
        assert !Reflects(remote, batch[i]);
        return false;
      }
    }
    converged := true;
  }

  // A list has converged exactly when it matches the target on every prefix of the batch.
  lemma ConvergedIff(seen: Entries, remote: Entries, managed: Entries, desired: Entries)
    ensures var batch, target := BatchFor(remote, managed, desired), Target(remote, managed, desired);
      Converged(seen, batch) <==> forall op | op in batch :: SameAt(seen, target, op.prefix)
  {
    BatchIsExact(remote, managed, desired);
    var batch, target := BatchFor(remote, managed, desired), Target(remote, managed, desired);
    hide BatchFor, Target, Prefixes;
    forall op | op in batch ensures Reflects(seen, op) <==> SameAt(seen, target, op.prefix) {
      assert Useful(remote, target, op);
    }
  }

  // The managed prefixes the remote list still holds, with their remote actions.
  function FilterManaged(remote: Entries, managed: Entries): (r: Entries)
    ensures r.Keys == remote.Keys * managed.Keys
    ensures forall p | p in r :: r[p] == remote[p]
  {
    map p | p in managed && p in remote :: remote[p]
  }
}
