// The life of an entries resource: create, read, update and delete against a remote list that others
// may change between any two calls, and whose batches take effect at any later time or not at all.
module AclEntries {
  import opened Maps
  import opened Wrappers
  import opened AclBatch

  // The remote entries, and the entries in the state when the resource exists.
  datatype World = World(remote: Entries, state: Option<Entries>)

  // What a listing came to: the entries of its pages need not have existed together.
  datatype Listing = ListFailed | ListNotFound | Pages(entries: Entries)

  datatype Reply = Accepted | Refused | Gone

  // What happens after the batch call: the service carries out an operation it was sent, someone else
  // changes the list, or the resource polls it.
  datatype Step = Carried(op: Op) | Foreign(remote: Entries) | Polled(list: Listing)

  // How the service answers one operation of the resource: the first listing, the remote entries by
  // the time of the batch call, the reply to it, and what happens from then on.
  datatype Answer = Answer(list: Listing, before: Entries, reply: Reply, steps: seq<Step>)

  // Done comes with the listing that showed it.
  datatype Outcome = Done(seen: Entries) | Failed | Vanished

  datatype Event =
    | Created(desired: Entries, answer: Answer)
    | Refreshed(list: Listing)
    | Updated(desired: Entries, answer: Answer)
    | Deleted(answer: Answer)
    | Drifted(remote: Entries)

  function Stepped(remote: Entries, batch: seq<Op>, step: Step): Entries {
    match step
    case Carried(op) => if op in batch then AppliedOp(remote, op) else remote
    case Foreign(entries) => entries
    case Polled(_) => remote
  }

  // What a poll decides; None means to wait and poll again.
  function Verdict(batch: seq<Op>, step: Step): Option<Outcome> {
    match step
    case Polled(ListFailed) => Some(Failed)
    case Polled(ListNotFound) => Some(Vanished)
    case Polled(Pages(entries)) => if Converged(entries, batch) then Some(Done(entries)) else None
    case _ => None
  }

  // Polls until a listing reflects every operation or fails; when nothing more happens, time is up.
  function Waited(remote: Entries, batch: seq<Op>, steps: seq<Step>): (Entries, Outcome)
    decreases |steps|
  {
    if steps == [] then (remote, Failed)
    else
      var verdict := Verdict(batch, steps[0]);
      if verdict.Some? then (remote, verdict.value) else Waited(Stepped(remote, batch, steps[0]), batch, steps[1..])
  }

  // Where the list is once all the steps have happened.
  function Evolved(remote: Entries, batch: seq<Op>, steps: seq<Step>): Entries
    decreases |steps|
  {
    if steps == [] then remote else Evolved(Stepped(remote, batch, steps[0]), batch, steps[1..])
  }

  // An empty batch is not sent. A refused one may have been carried out all the same.
  function Sent(remote: Entries, listed: Entries, batch: seq<Op>, answer: Answer): (Entries, Outcome) {
    if batch == [] then (remote, Done(listed))
    else
      match answer.reply
      case Accepted => Waited(answer.before, batch, answer.steps)
      case Refused => (Evolved(answer.before, batch, answer.steps), Failed)
      case Gone => (Evolved(answer.before, batch, answer.steps), Vanished)
  }

  function Managed(w: World): Entries {
    match w.state case None => map[] case Some(entries) => entries
  }

  // The batch an event sends, if its listing allows one.
  ghost function BatchOf(w: World, event: Event): seq<Op> {
    match event
    case Created(desired, answer) => if answer.list.Pages? then BatchFor(answer.list.entries, map[], desired) else []
    case Updated(desired, answer) => if answer.list.Pages? then BatchFor(answer.list.entries, Managed(w), desired) else []
    case Deleted(answer) => if answer.list.Pages? then BatchFor(answer.list.entries, Managed(w), map[]) else []
    case _ => []
  }

  ghost function Next(w: World, event: Event): World {
    match event
    case Created(desired, answer) =>
      if !answer.list.Pages? then w
      else
        var (after, outcome) := Sent(w.remote, answer.list.entries, BatchOf(w, event), answer);
        World(after, if outcome.Done? then Some(desired) else w.state)
    case Refreshed(list) =>
      match list {
        case ListFailed => w
        case ListNotFound => w.(state := None)
        case Pages(entries) => if w.state.None? then w else w.(state := Some(FilterManaged(entries, w.state.value)))
      }
    case Updated(desired, answer) =>
      match answer.list {
        case ListFailed => w
        case ListNotFound => w.(state := None)
        case Pages(entries) =>
          var (after, outcome) := Sent(w.remote, entries, BatchOf(w, event), answer);
          World(after, if outcome.Done? then Some(desired) else w.state)
      }
    case Deleted(answer) =>
      match answer.list {
        case ListFailed => w
        case ListNotFound => w.(state := None)
        case Pages(entries) =>
          var (after, outcome) := Sent(w.remote, entries, BatchOf(w, event), answer);
          World(after, if outcome.Failed? then w.state else None)
      }
    case Drifted(remote) => w.(remote := remote)
  }

  // ---- What a batch may change ----

  // Every operation of a batch is for a prefix the resource manages or is to have: it deletes one that
  // is managed and no longer desired, or gives one that is desired its desired action.
  lemma BatchNamesOwn(listed: Entries, managed: Entries, desired: Entries, op: Op)
    requires op in BatchFor(listed, managed, desired)
    ensures if op.Delete? then op.prefix in managed && op.prefix !in desired && op.prefix in listed
            else op.prefix in desired && op.action == desired[op.prefix]
  {
    BatchIsExact(listed, managed, desired);
    hide BatchFor;
    assert Useful(listed, Target(listed, managed, desired), op);
  }

  // The same steps with the operations of the resource left out.
  function OthersOnly(steps: seq<Step>): seq<Step> {
    if steps == [] then [] else (if steps[0].Carried? then [] else [steps[0]]) + OthersOnly(steps[1..])
  }

  // How an event would have gone had the service carried out none of the operations it was sent.
  function Muted(event: Event): Event {
    match event
    case Created(desired, answer) => Created(desired, answer.(steps := OthersOnly(answer.steps)))
    case Updated(desired, answer) => Updated(desired, answer.(steps := OthersOnly(answer.steps)))
    case Deleted(answer) => Deleted(answer.(steps := OthersOnly(answer.steps)))
    case _ => event
  }

  lemma StepAtOther(remote: Entries, other: Entries, batch: seq<Op>, step: Step, p: string)
    requires SameAt(remote, other, p) && forall op | op in batch :: op.prefix != p
    ensures SameAt(Stepped(remote, batch, step), if step.Carried? then other else Stepped(other, batch, step), p)
  {
  }

  // What operations were carried out decides neither the outcome nor the contents at a prefix that is
  // not in the batch.
  lemma {:induction false} WaitAtOther(remote: Entries, other: Entries, batch: seq<Op>, steps: seq<Step>, p: string)
    requires SameAt(remote, other, p) && forall op | op in batch :: op.prefix != p
    ensures SameAt(Waited(remote, batch, steps).0, Waited(other, batch, OthersOnly(steps)).0, p)
    ensures SameAt(Evolved(remote, batch, steps), Evolved(other, batch, OthersOnly(steps)), p)
    decreases |steps|
  {
    if steps != [] {
      var step, later := steps[0], OthersOnly(steps[1..]);
      StepAtOther(remote, other, batch, step, p);
      WaitAtOther(Stepped(remote, batch, step), if step.Carried? then other else Stepped(other, batch, step), batch, steps[1..], p);
      assert [] + later == later && ([step] + later)[1..] == later;
      hide SameAt, Converged;
    }
  }

  lemma {:induction false} OutcomeOfOthers(remote: Entries, other: Entries, batch: seq<Op>, steps: seq<Step>)
    ensures Waited(remote, batch, steps).1 == Waited(other, batch, OthersOnly(steps)).1
    decreases |steps|
  {
    if steps != [] {
      var step, later := steps[0], OthersOnly(steps[1..]);
      OutcomeOfOthers(Stepped(remote, batch, step), if step.Carried? then other else Stepped(other, batch, step), batch, steps[1..]);
      assert [] + later == later && ([step] + later)[1..] == later;
      hide Converged;
    }
  }

  lemma SentAtOther(remote: Entries, other: Entries, listed: Entries, batch: seq<Op>, answer: Answer, p: string)
    requires SameAt(remote, other, p) && forall op | op in batch :: op.prefix != p
    ensures var muted := answer.(steps := OthersOnly(answer.steps));
      SameAt(Sent(remote, listed, batch, answer).0, Sent(other, listed, batch, muted).0, p)
  {
    WaitAtOther(answer.before, answer.before, batch, answer.steps, p);
  }

  lemma SentOutcome(remote: Entries, other: Entries, listed: Entries, batch: seq<Op>, answer: Answer)
    ensures Sent(remote, listed, batch, answer).1 == Sent(other, listed, batch, answer.(steps := OthersOnly(answer.steps))).1
  {
    OutcomeOfOthers(answer.before, answer.before, batch, answer.steps);
  }

  // ---- What success means ----

  // Done means a listing was seen that reflects every operation sent.
  lemma {:induction false} DoneMeansConverged(remote: Entries, batch: seq<Op>, steps: seq<Step>)
    requires Waited(remote, batch, steps).1.Done?
    ensures Converged(Waited(remote, batch, steps).1.seen, batch)
    ensures Polled(Pages(Waited(remote, batch, steps).1.seen)) in steps
    decreases |steps|
  {
    if Verdict(batch, steps[0]).None? {
      DoneMeansConverged(Stepped(remote, batch, steps[0]), batch, steps[1..]);
    }
    hide Converged;
  }

  // Whatever others do meanwhile: when an operation of the resource counts as done, a listing matched
  // the target at every prefix at which the first listing did not.
  lemma DoneSawTarget(remote: Entries, listed: Entries, managed: Entries, desired: Entries, answer: Answer, p: string)
    requires Sent(remote, listed, BatchFor(listed, managed, desired), answer).1.Done?
    requires p in Differing(listed, Target(listed, managed, desired))
    ensures SameAt(Sent(remote, listed, BatchFor(listed, managed, desired), answer).1.seen, Target(listed, managed, desired), p)
  {
    var batch := BatchFor(listed, managed, desired);
    BatchIsExact(listed, managed, desired);
    hide BatchFor, Target, Differing, Useful, SameAt, Waited, Evolved;
    var op :| op in batch && op.prefix == p;
    var seen := Sent(remote, listed, batch, answer).1.seen;
    DoneMeansConverged(answer.before, batch, answer.steps);
    ConvergedIff(seen, listed, managed, desired);
  }

  // ---- Success and failure, by what the service answers ----

  // A poll that ends the waiting: it fails, or its listing reflects every operation.
  predicate Decides(batch: seq<Op>, step: Step) {
    step.Polled? && (step.list.Pages? ==> Converged(step.list.entries, batch))
  }

  predicate IsShown(list: Listing) {
    list.Pages?
  }

  predicate IsMissing(list: Listing) {
    list == ListNotFound
  }

  predicate EndsAt(batch: seq<Op>, step: Step, done: Listing -> bool) {
    Decides(batch, step) && done(step.list)
  }

  // The first poll that ends the waiting is of this kind.
  ghost predicate EndsWith(batch: seq<Op>, steps: seq<Step>, done: Listing -> bool) {
    exists i | 0 <= i < |steps| :: EndsAt(batch, steps[i], done) && forall j | 0 <= j < i :: !Decides(batch, steps[j])
  }

  // The batch was taken, and a poll shows it carried out before any poll fails.
  ghost predicate Confirms(batch: seq<Op>, answer: Answer) {
    batch == [] || (answer.reply == Accepted && EndsWith(batch, answer.steps, IsShown))
  }

  // The list is gone, by the reply to the batch or by the first poll that ends the waiting.
  ghost predicate FindsGone(batch: seq<Op>, answer: Answer) {
    batch != [] && (answer.reply == Gone || (answer.reply == Accepted && EndsWith(batch, answer.steps, IsMissing)))
  }

  lemma EndsLater(batch: seq<Op>, steps: seq<Step>, done: Listing -> bool)
    requires steps != []
    ensures EndsWith(batch, steps, done) <==>
      if Decides(batch, steps[0]) then done(steps[0].list) else EndsWith(batch, steps[1..], done)
  {
    var rest := steps[1..];
    hide Converged;
    if !Decides(batch, steps[0]) {
      if EndsWith(batch, rest, done) {
        var i :| 0 <= i < |rest| && EndsAt(batch, rest[i], done) && forall j | 0 <= j < i :: !Decides(batch, rest[j]);
        assert steps[i + 1] == rest[i];
        assert forall j | 0 < j < i + 1 :: steps[j] == rest[j - 1];
      }
      if EndsWith(batch, steps, done) {
        var i :| 0 <= i < |steps| && EndsAt(batch, steps[i], done) && forall j | 0 <= j < i :: !Decides(batch, steps[j]);
        assert rest[i - 1] == steps[i];
        assert forall j | 0 <= j < i - 1 :: rest[j] == steps[j + 1];
      }
    }
  }

  lemma {:induction false} WaitIff(remote: Entries, batch: seq<Op>, steps: seq<Step>)
    ensures Waited(remote, batch, steps).1.Done? <==> EndsWith(batch, steps, IsShown)
    ensures Waited(remote, batch, steps).1.Vanished? <==> EndsWith(batch, steps, IsMissing)
    decreases |steps|
  {
    if steps != [] {
      EndsLater(batch, steps, IsShown);
      EndsLater(batch, steps, IsMissing);
      WaitIff(Stepped(remote, batch, steps[0]), batch, steps[1..]);
      hide EndsWith, Converged;
    }
  }

  // The outcome follows from the answers alone, and from nothing else.
  lemma SentIff(remote: Entries, listed: Entries, batch: seq<Op>, answer: Answer)
    ensures Sent(remote, listed, batch, answer).1.Done? <==> Confirms(batch, answer)
    ensures Sent(remote, listed, batch, answer).1.Vanished? <==> FindsGone(batch, answer)
  {
    WaitIff(answer.before, batch, answer.steps);
    hide EndsWith, Waited;
  }

  // ---- Without interference ----

  // Nobody else changes the list, and every poll shows it as it is.
  predicate Alone(remote: Entries, batch: seq<Op>, steps: seq<Step>)
    decreases |steps|
  {
    steps != [] ==>
      && !steps[0].Foreign?
      && (steps[0].Polled? && steps[0].list.Pages? ==> steps[0].list.entries == remote)
      && Alone(Stepped(remote, batch, steps[0]), batch, steps[1..])
  }

  predicate Undisturbed(remote: Entries, batch: seq<Op>, answer: Answer) {
    answer.list == Pages(remote) && answer.before == remote && Alone(remote, batch, answer.steps)
  }

  // At each prefix the list is as it was or as the batch makes it.
  ghost predicate OnTheWay(remote: Entries, listed: Entries, batch: seq<Op>) {
    forall p ::
      || SameAt(remote, listed, p)
      || exists op | op in batch :: op.prefix == p && Reflects(remote, op)
  }

  lemma CarriedOnTheWay(remote: Entries, listed: Entries, batch: seq<Op>, op: Op)
    requires OnTheWay(remote, listed, batch) && op in batch
    ensures OnTheWay(AppliedOp(remote, op), listed, batch)
  {
    var after := AppliedOp(remote, op);
    forall p ensures SameAt(after, listed, p) || exists o | o in batch :: o.prefix == p && Reflects(after, o) {
      if p == op.prefix {
        assert Reflects(after, op);
      } else if !SameAt(remote, listed, p) {
        var o :| o in batch && o.prefix == p && Reflects(remote, o);
        assert Reflects(after, o);
      }
    }
  }

  lemma {:induction false} AloneOnTheWay(remote: Entries, listed: Entries, batch: seq<Op>, steps: seq<Step>)
    requires OnTheWay(remote, listed, batch) && Alone(remote, batch, steps)
    ensures var (after, outcome) := Waited(remote, batch, steps);
      OnTheWay(after, listed, batch) && (outcome.Done? ==> outcome.seen == after)
    decreases |steps|
  {
    if steps != [] && Verdict(batch, steps[0]).None? {
      var step := steps[0];
      if step.Carried? && step.op in batch { CarriedOnTheWay(remote, listed, batch, step.op); }
      hide OnTheWay, Converged;
      AloneOnTheWay(Stepped(remote, batch, step), listed, batch, steps[1..]);
    }
    hide OnTheWay, Converged;
  }

  lemma DoneAt(after: Entries, listed: Entries, managed: Entries, desired: Entries, p: string)
    requires OnTheWay(after, listed, BatchFor(listed, managed, desired)) && Converged(after, BatchFor(listed, managed, desired))
    ensures SameAt(after, Target(listed, managed, desired), p)
  {
    var batch, target := BatchFor(listed, managed, desired), Target(listed, managed, desired);
    BatchIsExact(listed, managed, desired);
    ConvergedIff(after, listed, managed, desired);
    hide BatchFor, Target, Useful, Converged, Reflects;
    assert SameAt(after, listed, p) || exists op | op in batch :: op.prefix == p && Reflects(after, op);
    hide OnTheWay;
    if forall op | op in batch :: op.prefix != p {
      assert p !in Differing(listed, target);
      assert SameAt(listed, target, p);
    }
  }

  lemma SameEverywhere(x: Entries, y: Entries)
    requires forall p :: SameAt(x, y, p)
    ensures x == y
  {
    forall p ensures p in x <==> p in y
      ensures p in x ==> x[p] == y[p]
    {
      assert SameAt(x, y, p);
    }
  }

  lemma ConvergedAlone(after: Entries, listed: Entries, managed: Entries, desired: Entries)
    requires OnTheWay(after, listed, BatchFor(listed, managed, desired)) && Converged(after, BatchFor(listed, managed, desired))
    ensures after == Target(listed, managed, desired)
  {
    hide OnTheWay, Converged, SameAt, BatchFor, Target;
    forall p ensures SameAt(after, Target(listed, managed, desired), p) {
      DoneAt(after, listed, managed, desired, p);
    }
    SameEverywhere(after, Target(listed, managed, desired));
  }

  // Undisturbed, an operation that counts as done has brought the whole list to its target, in
  // whatever order and however often the service carried the operations out.
  lemma DoneReachesTarget(remote: Entries, managed: Entries, desired: Entries, answer: Answer)
    requires Undisturbed(remote, BatchFor(remote, managed, desired), answer)
    ensures var (after, outcome) := Sent(remote, remote, BatchFor(remote, managed, desired), answer);
      outcome.Done? ==> after == Target(remote, managed, desired) && outcome.seen == after
  {
    var batch := BatchFor(remote, managed, desired);
    hide BatchFor, Target, Waited, Evolved, Alone, OnTheWay, Converged;
    if batch == [] {
      EmptyBatchIff(remote, managed, desired);
    } else if answer.reply.Accepted? && Waited(remote, batch, answer.steps).1.Done? {
      StartOnTheWay(remote, batch);
      AloneOnTheWay(remote, remote, batch, answer.steps);
      DoneMeansConverged(remote, batch, answer.steps);
      ConvergedAlone(Waited(remote, batch, answer.steps).0, remote, managed, desired);
    }
  }

  lemma StartOnTheWay(remote: Entries, batch: seq<Op>)
    ensures OnTheWay(remote, remote, batch)
  {
  }

  // ---- Whole runs ----

  function Declares(event: Event): set<string> {
    match event
    case Created(desired, _) => desired.Keys
    case Updated(desired, _) => desired.Keys
    case _ => {}
  }

  // Nothing the state holds was never declared.
  ghost predicate Owned(w: World, declared: set<string>) {
    Managed(w).Keys <= declared
  }

  lemma StepKeepsOwned(w: World, event: Event, declared: set<string>)
    requires Owned(w, declared)
    ensures Owned(Next(w, event), declared + Declares(event))
  {
    hide BatchFor, Sent;
    match event
    case Created(_, _) =>
    case Refreshed(_) => hide FilterManaged;
    case Updated(_, _) =>
    case Deleted(_) =>
    case Drifted(_) =>
  }

  lemma BatchIsDeclared(w: World, event: Event, declared: set<string>, p: string)
    requires Owned(w, declared) && p !in declared && p !in Declares(event)
    ensures forall op | op in BatchOf(w, event) :: op.prefix != p
  {
    hide BatchFor;
    forall op | op in BatchOf(w, event) ensures op.prefix != p {
      match event
      case Created(desired, answer) => BatchNamesOwn(answer.list.entries, map[], desired, op);
      case Updated(desired, answer) => BatchNamesOwn(answer.list.entries, Managed(w), desired, op);
      case Deleted(answer) => BatchNamesOwn(answer.list.entries, Managed(w), map[], op);
    }
  }

  // Two runs that differ in what the service carried out stay together at an undeclared prefix.
  lemma StepMuted(w: World, v: World, event: Event, declared: set<string>, p: string)
    requires w.state == v.state && SameAt(w.remote, v.remote, p)
    requires Owned(w, declared) && p !in declared && p !in Declares(event)
    ensures Next(w, event).state == Next(v, Muted(event)).state
    ensures SameAt(Next(w, event).remote, Next(v, Muted(event)).remote, p)
  {
    hide BatchFor, Sent, FilterManaged, SameAt;
    BatchIsDeclared(w, event, declared, p);
    match event
    case Created(desired, answer) => CreatedMuted(w, v, desired, answer, p);
    case Updated(desired, answer) => UpdatedMuted(w, v, desired, answer, p);
    case Deleted(answer) => DeletedMuted(w, v, answer, p);
    case Refreshed(_) =>
    case Drifted(remote) => SameAsItself(remote, p);
  }

  lemma CreatedMuted(w: World, v: World, desired: Entries, answer: Answer, p: string)
    requires w.state == v.state && SameAt(w.remote, v.remote, p)
    requires forall op | op in BatchOf(w, Created(desired, answer)) :: op.prefix != p
    ensures var event := Created(desired, answer); var x, y := Next(w, event), Next(v, Muted(event)); x.state == y.state && SameAt(x.remote, y.remote, p)
  {
    hide BatchFor, Sent, SameAt;
    if answer.list.Pages? { SentMuted(w, v, Created(desired, answer), answer, p); }
  }

  lemma UpdatedMuted(w: World, v: World, desired: Entries, answer: Answer, p: string)
    requires w.state == v.state && SameAt(w.remote, v.remote, p)
    requires forall op | op in BatchOf(w, Updated(desired, answer)) :: op.prefix != p
    ensures var event := Updated(desired, answer); var x, y := Next(w, event), Next(v, Muted(event)); x.state == y.state && SameAt(x.remote, y.remote, p)
  {
    hide BatchFor, Sent, SameAt;
    if answer.list.Pages? { SentMuted(w, v, Updated(desired, answer), answer, p); }
  }

  lemma DeletedMuted(w: World, v: World, answer: Answer, p: string)
    requires w.state == v.state && SameAt(w.remote, v.remote, p)
    requires forall op | op in BatchOf(w, Deleted(answer)) :: op.prefix != p
    ensures var event := Deleted(answer); var x, y := Next(w, event), Next(v, Muted(event)); x.state == y.state && SameAt(x.remote, y.remote, p)
  {
    hide BatchFor, Sent, SameAt;
    if answer.list.Pages? { SentMuted(w, v, Deleted(answer), answer, p); }
  }

  lemma SameAsItself(x: Entries, p: string)
    ensures SameAt(x, x, p)
  {
  }

  lemma SentMuted(w: World, v: World, event: Event, answer: Answer, p: string)
    requires SameAt(w.remote, v.remote, p) && answer.list.Pages? && forall op | op in BatchOf(w, event) :: op.prefix != p
    ensures var batch, muted := BatchOf(w, event), answer.(steps := OthersOnly(answer.steps));
      var sent, other := Sent(w.remote, answer.list.entries, batch, answer), Sent(v.remote, answer.list.entries, batch, muted);
      SameAt(sent.0, other.0, p) && sent.1 == other.1
  {
    hide BatchOf, Sent;
    SentAtOther(w.remote, v.remote, answer.list.entries, BatchOf(w, event), answer, p);
    SentOutcome(w.remote, v.remote, answer.list.entries, BatchOf(w, event), answer);
  }

  ghost function After(w: World, events: seq<Event>): World
    decreases |events|
  {
    if events == [] then w else Next(After(w, events[..|events| - 1]), events[|events| - 1])
  }

  function AllMuted(events: seq<Event>): (r: seq<Event>)
    ensures |r| == |events|
    decreases |events|
  {
    if events == [] then [] else AllMuted(events[..|events| - 1]) + [Muted(events[|events| - 1])]
  }

  function AllDeclared(events: seq<Event>): set<string>
    decreases |events|
  {
    if events == [] then {} else AllDeclared(events[..|events| - 1]) + Declares(events[|events| - 1])
  }

  lemma {:induction false} RunKeepsOwned(w: World, events: seq<Event>)
    requires w.state.None?
    ensures Owned(After(w, events), AllDeclared(events))
    decreases |events|
  {
    if events != [] {
      var before := events[..|events| - 1];
      RunKeepsOwned(w, before);
      StepKeepsOwned(After(w, before), events[|events| - 1], AllDeclared(before));
    }
  }

  // Over any run that starts without the resource, with any failures and any changes by others before,
  // between and after its calls: at a prefix that is never declared the list ends as it would have,
  // had the service carried out none of the operations of the resource.
  lemma {:induction false} NeverTouched(w: World, events: seq<Event>, p: string)
    requires w.state.None? && p !in AllDeclared(events)
    ensures SameAt(After(w, events).remote, After(w, AllMuted(events)).remote, p)
    ensures After(w, events).state == After(w, AllMuted(events)).state
    decreases |events|
  {
    if events == [] {
      SameAsItself(w.remote, p);
    } else {
      var before, last := events[..|events| - 1], events[|events| - 1];
      NeverTouched(w, before, p);
      RunKeepsOwned(w, before);
      assert AllMuted(events)[..|events| - 1] == AllMuted(before);
      hide Next, SameAt;
      StepMuted(After(w, before), After(w, AllMuted(before)), last, AllDeclared(before), p);
    }
  }

  // ---- What single steps promise ----

  // A create or update that succeeded undisturbed leaves exactly its target, and right after it there
  // is nothing left to do: a refresh keeps the state and the same update sends no batch.
  lemma SuccessIsStable(w: World, desired: Entries, managed: Entries, answer: Answer)
    requires Undisturbed(w.remote, BatchFor(w.remote, managed, desired), answer)
    requires Sent(w.remote, w.remote, BatchFor(w.remote, managed, desired), answer).1.Done?
    ensures var remote := Sent(w.remote, w.remote, BatchFor(w.remote, managed, desired), answer).0;
      var after := World(remote, Some(desired));
      && remote == Target(w.remote, managed, desired)
      && Next(after, Refreshed(Pages(remote))) == after
      && BatchFor(remote, desired, desired) == []
  {
    hide BatchFor, Sent, Target, FilterManaged, Alone;
    DoneReachesTarget(w.remote, managed, desired, answer);
    TargetIsStable(w.remote, managed, desired);
  }

  lemma TargetIsStable(remote: Entries, managed: Entries, desired: Entries)
    ensures FilterManaged(Target(remote, managed, desired), desired) == desired
    ensures BatchFor(Target(remote, managed, desired), desired, desired) == []
  {
    BatchReachesTarget(remote, managed, desired);
    RebuildIsEmpty(remote, managed, desired);
    hide BatchFor;
    assert FilterManaged(Target(remote, managed, desired), desired) == desired;
  }

  // Deleting undoes creating exactly when none of the declared prefixes was there before; those that
  // were are removed with the others.
  lemma DeleteUndoesCreate(remote: Entries, desired: Entries)
    ensures Target(Target(remote, map[], desired), desired, map[]) == remote - desired.Keys
    ensures Target(Target(remote, map[], desired), desired, map[]) == remote <==> remote.Keys !! desired.Keys
  {
    var end := Target(Target(remote, map[], desired), desired, map[]);
    assert end == remote - desired.Keys;
    if remote.Keys !! desired.Keys {
      assert end == remote;
    }
    if end == remote {
      assert forall p | p in remote :: p in end && p !in desired;
    }
  }

  // A listing that agrees with the target wherever the first listing did not.
  ghost predicate SawTarget(seen: Entries, listed: Entries, managed: Entries, desired: Entries) {
    forall p | p in Differing(listed, Target(listed, managed, desired)) :: SameAt(seen, Target(listed, managed, desired), p)
  }

  // What a create or update that succeeded has seen before it stored the entries.
  ghost predicate Confirmed(remote: Entries, listed: Entries, managed: Entries, desired: Entries, answer: Answer) {
    var outcome := Sent(remote, listed, BatchFor(listed, managed, desired), answer).1;
    outcome.Done? && SawTarget(outcome.seen, listed, managed, desired)
  }

  lemma DoneSawAll(remote: Entries, listed: Entries, managed: Entries, desired: Entries, answer: Answer)
    ensures var outcome := Sent(remote, listed, BatchFor(listed, managed, desired), answer).1;
      outcome.Done? ==> SawTarget(outcome.seen, listed, managed, desired)
  {
    hide BatchFor, Sent, Target, Differing, SameAt;
    if Sent(remote, listed, BatchFor(listed, managed, desired), answer).1.Done? {
      forall p | p in Differing(listed, Target(listed, managed, desired))
        ensures SameAt(Sent(remote, listed, BatchFor(listed, managed, desired), answer).1.seen, Target(listed, managed, desired), p)
      {
        DoneSawTarget(remote, listed, managed, desired, answer, p);
      }
    }
  }

  // ---- The resource ----

  class EntriesResource {
    var remote: Entries
    var state: Option<Entries>

    constructor (entries: Entries)
      ensures Here() == World(entries, None)
    {
      remote, state := entries, None;
    }

    function Here(): World
      reads this
    {
      World(remote, state)
    }

    // The service or someone else acts on the list.
    method Happen(batch: seq<Op>, step: Step)
      modifies this`remote
      ensures remote == Stepped(old(remote), batch, step)
    {
      match step {
        case Carried(op) =>
          if op in batch {
            remote := AppliedOp(remote, op);
          }
        case Foreign(entries) =>
          remote := entries;
        case Polled(_) =>
      }
    }

    method LetHappen(batch: seq<Op>, steps: seq<Step>)
      modifies this`remote
      ensures remote == Evolved(old(remote), batch, steps)
    {
      assert steps[0..] == steps;
      hide Stepped;
      for i := 0 to |steps|
        invariant Evolved(remote, batch, steps[i..]) == Evolved(old(remote), batch, steps)
      {
        assert steps[i..][0] == steps[i] && steps[i..][1..] == steps[i + 1..];
        Happen(batch, steps[i]);
      }
    }

    // Polls the list until it reflects the batch, a listing fails, or time is up.
    method WaitForEntries(batch: seq<Op>, steps: seq<Step>) returns (outcome: Outcome)
      modifies this`remote
      ensures (remote, outcome) == Waited(old(remote), batch, steps)
    {
      assert steps[0..] == steps;
      hide Stepped, Converged;
      for i := 0 to |steps|
        invariant Waited(remote, batch, steps[i..]) == Waited(old(remote), batch, steps)
      {
        assert steps[i..][0] == steps[i] && steps[i..][1..] == steps[i + 1..];
        if steps[i].Polled? {
          match steps[i].list {
            case ListFailed => return Failed;
            case ListNotFound => return Vanished;
            case Pages(entries) =>
              var converged := EntriesConverged(entries, batch);
              if converged {
                return Done(entries);
              }
          }
        }
        Happen(batch, steps[i]);
      }
      outcome := Failed;
    }

    method ApplyBatch(listed: Entries, batch: seq<Op>, answer: Answer) returns (outcome: Outcome)
      modifies this`remote
      ensures (remote, outcome) == Sent(old(remote), listed, batch, answer)
    {
      if batch == [] {
        return Done(listed);
      }
      remote := answer.before;
      match answer.reply {
        case Refused =>
          LetHappen(batch, answer.steps);
          outcome := Failed;
        case Gone =>
          LetHappen(batch, answer.steps);
          outcome := Vanished;
        case Accepted =>
          outcome := WaitForEntries(batch, answer.steps);
      }
    }

    // Builds the batch from a listing and the managed prefixes, and applies it.
    method Reconcile(managed: Entries, desired: Entries, listed: Entries, answer: Answer) returns (outcome: Outcome)
      requires answer.list == Pages(listed)
      modifies this`remote
      ensures (remote, outcome) == Sent(old(remote), listed, BatchFor(listed, managed, desired), answer)
      ensures outcome.Done? ==> SawTarget(outcome.seen, listed, managed, desired)
      ensures outcome.Done? && Undisturbed(old(remote), BatchFor(listed, managed, desired), answer) ==>
        remote == Target(old(remote), managed, desired)
    {
      hide BatchFor, Target, Sent, SawTarget, Alone;
      DoneSawAll(remote, listed, managed, desired, answer);
      if Undisturbed(remote, BatchFor(listed, managed, desired), answer) {
        DoneReachesTarget(remote, managed, desired, answer);
      }
      var batch := BuildBatch(listed, managed, desired);
      outcome := ApplyBatch(listed, batch, answer);
    }

    method Create(desired: Entries, answer: Answer) returns (ok: bool)
      modifies this
      ensures Here() == Next(old(Here()), Created(desired, answer))
      ensures ok ==> answer.list.Pages? && state == Some(desired) && Confirmed(old(remote), answer.list.entries, map[], desired, answer)
      ensures ok && Undisturbed(old(remote), BatchFor(old(remote), map[], desired), answer) ==> remote == Target(old(remote), map[], desired)
      ensures ok <==> answer.list.Pages? && Confirms(BatchFor(answer.list.entries, map[], desired), answer)
      ensures !ok ==> state == old(state)
    {
      hide BatchFor, Sent, Target, FilterManaged, SawTarget, Alone, Confirms;
      ok := answer.list.Pages?;
      if ok {
        SentIff(remote, answer.list.entries, BatchFor(answer.list.entries, map[], desired), answer);
        var outcome := Reconcile(map[], desired, answer.list.entries, answer);
        ok := outcome.Done?;
        if ok {
          state := Some(desired);
        }
      }
    }

    method Read(list: Listing) returns (ok: bool)
      modifies this`state
      ensures Here() == Next(old(Here()), Refreshed(list))
      ensures list.Pages? && old(state).Some? ==>
        state.Some? && state.value.Keys == old(state).value.Keys * list.entries.Keys && forall p | p in state.value :: state.value[p] == list.entries[p]
      ensures ok <==> list != ListFailed
    {
      match list {
        case ListFailed =>
          return false;
        case ListNotFound =>
          state := None;
        case Pages(entries) =>
          if state.Some? {
            state := Some(FilterManaged(entries, state.value));
          }
      }
      ok := true;
    }

    method Update(desired: Entries, answer: Answer) returns (ok: bool)
      requires state.Some?
      modifies this
      ensures Here() == Next(old(Here()), Updated(desired, answer))
      ensures ok && answer.list.Pages? ==>
        state == Some(desired) && Confirmed(old(remote), answer.list.entries, old(state).value, desired, answer)
      ensures ok && Undisturbed(old(remote), BatchFor(old(remote), old(state).value, desired), answer) ==>
        remote == Target(old(remote), old(state).value, desired)
      ensures ok <==>
        || answer.list == ListNotFound
        || (answer.list.Pages? && Confirms(BatchFor(answer.list.entries, old(state).value, desired), answer))
      ensures ok && answer.list == ListNotFound ==> state == None
      ensures !ok ==> state == old(state)
    {
      hide BatchFor, Sent, Target, FilterManaged, SawTarget, Alone, Confirms;
      if answer.list.Pages? {
        SentIff(remote, answer.list.entries, BatchFor(answer.list.entries, state.value, desired), answer);
        var outcome := Reconcile(state.value, desired, answer.list.entries, answer);
        ok := outcome.Done?;
        if ok {
          state := Some(desired);
        }
      } else {
        ok := answer.list == ListNotFound;
        if ok {
          state := None;
        }
      }
    }

    method Delete(answer: Answer) returns (ok: bool)
      requires state.Some?
      modifies this
      ensures Here() == Next(old(Here()), Deleted(answer))
      ensures ok <==> state.None?
      ensures ok && NeverGone(answer) && Undisturbed(old(remote), BatchFor(old(remote), old(state).value, map[]), answer) ==>
        remote == old(remote) - old(state).value.Keys
      ensures var batch := if answer.list.Pages? then BatchFor(answer.list.entries, old(state).value, map[]) else [];
        ok <==> answer.list == ListNotFound || (answer.list.Pages? && (Confirms(batch, answer) || FindsGone(batch, answer)))
      ensures !ok ==> state == old(state)
    {
      hide BatchFor, Sent, Target, FilterManaged, SawTarget, Alone, Confirms, FindsGone;
      if answer.list.Pages? {
        SentIff(remote, answer.list.entries, BatchFor(answer.list.entries, state.value, map[]), answer);
        OnlyManagedGo(remote, state.value);
        NotVanished(remote, answer.list.entries, BatchFor(answer.list.entries, state.value, map[]), answer);
        var outcome := Reconcile(state.value, map[], answer.list.entries, answer);
        ok := !outcome.Failed?;
      } else {
        ok := answer.list == ListNotFound;
      }
      if ok {
        state := None;
      }
    }
  }

  lemma OnlyManagedGo(remote: Entries, managed: Entries)
    ensures Target(remote, managed, map[]) == remote - managed.Keys
  {
  }

  // The list itself exists all along.
  predicate NeverGone(answer: Answer) {
    answer.reply != Gone && Polled(ListNotFound) !in answer.steps
  }

  lemma {:induction false} WaitNotVanished(remote: Entries, batch: seq<Op>, steps: seq<Step>)
    requires Polled(ListNotFound) !in steps
    ensures !Waited(remote, batch, steps).1.Vanished?
    decreases |steps|
  {
    if steps != [] {
      WaitNotVanished(Stepped(remote, batch, steps[0]), batch, steps[1..]);
    }
  }

  lemma NotVanished(remote: Entries, listed: Entries, batch: seq<Op>, answer: Answer)
    ensures NeverGone(answer) ==> !Sent(remote, listed, batch, answer).1.Vanished?
  {
    if NeverGone(answer) { WaitNotVanished(answer.before, batch, answer.steps); }
  }
}
