// Independence is what makes the order of edits irrelevant: two rules that break it can be told apart.
module Commute {
  import opened Wrappers
  import opened Identifier
  import opened Tree
  import opened Translate
  import opened TranslateAll

  // A rule that may be compiled on its own, and changes something.
  ghost predicate Sound(rule: Rule) {
    && Independent(map[KeyOf(rule) := rule.action])
    && match rule.action
       case Drop => true
       case To(name) => name != rule.attr && ValidIdentifier(name)
       case Into(target) => ValidIdentifier(target)
  }

  // The first rule makes or takes what the second one looks for.
  predicate Conflict(r: Rule, s: Rule) {
    && r.path == s.path
    && ((r.action.To? && (s.attr == r.action.name || (s.action.To? && s.action.name == r.action.name)))
        || (r.action.Into? && s.action.Into? && r.action.target == s.action.target))
  }

  // ---- A body matched at one place only ----

  function Chain(path: seq<string>, body: Body): Body {
    if path == [] then body else Body(map[], [Block(path[0], [], Chain(path[1..], body))])
  }

  lemma {:induction false} ChainMatches(path: seq<string>, body: Body, f: Body -> Option<Body>)
    ensures Matching(Chain(path, body), path) == [body]
    ensures At(Chain(path, body), path, f) == match f(body) case None => None case Some(b) => Some(Chain(path, b))
  {
    if path != [] {
      var rest := Chain(path[1..], body);
      var block := Block(path[0], [], rest);
      ChainMatches(path[1..], body, f);
      assert [block][1..] == [];
      assert MatchingIn([block], path) == Matching(rest, path[1..]) + MatchingIn([], path);
      assert AtBlocks([block][1..], path, f) == Some([]);
      var below := At(rest, path[1..], f);
      assert AtBlock(block, path, f) == match below case None => None case Some(b) => Some(Block(path[0], [], b));
      assert AtBlocks([block], path, f) == match below case None => None case Some(b) => Some([Block(path[0], [], b)] + []);
      assert forall b :: [Block(path[0], [], b)] + [] == [Block(path[0], [], b)];
    }
  }

  lemma {:induction false} ChainInjective(path: seq<string>, x: Body, y: Body)
    requires Chain(path, x) == Chain(path, y)
    ensures x == y
  {
    if path != [] {
      assert Chain(path, x).blocks[0].body == Chain(path[1..], x) && Chain(path, y).blocks[0].body == Chain(path[1..], y);
      ChainInjective(path[1..], x, y);
    }
  }

  function Both(body: Body, r: Rule, s: Rule): Option<Body> {
    match EditBody(body, ToChange(r))
    case None => None
    case Some(b) => EditBody(b, ToChange(s))
  }

  lemma ChainEdits(body: Body, r: Rule)
    requires Sound(r)
    ensures Applied(Chain(r.path, body), ToChange(r)) ==
      match EditBody(body, ToChange(r)) case None => None case Some(b) => Some(Chain(r.path, b))
  {
    ChainMatches(r.path, body, Editor(ToChange(r)));
    assert r.action.Into? ==> KeyOf(r).0 == [];
    assert ValidIdentifier(SETTINGS);
    hide Chain, EditBody, Matching, At, ValidIdentifier;
  }

  lemma ChainRuns(body: Body, r: Rule, s: Rule)
    requires Sound(r) && Sound(s) && r.path == s.path
    ensures RunChanges(Chain(r.path, body), ToChanges([r, s])) ==
      match Both(body, r, s) case None => None case Some(b) => Some(Chain(r.path, b))
  {
    TwoChanges(Chain(r.path, body), r, s);
    ChainEdits(body, r);
    var next := EditBody(body, ToChange(r));
    if next.Some? { ChainEdits(next.value, s); }
    hide Chain, EditBody, Applied, Sound, RunChanges, ToChanges;
  }

  lemma TwoChanges(body: Body, r: Rule, s: Rule)
    ensures RunChanges(body, ToChanges([r, s])) ==
      match Applied(body, ToChange(r)) case None => None case Some(b) => Applied(b, ToChange(s))
  {
    hide Applied, ToChange;
    var changes := ToChanges([r, s]);
    assert [r, s][1..] == [s] && [s][1..] == [];
    assert ToChanges([s]) == [ToChange(s)] + ToChanges([]);
    assert changes == [ToChange(r)] + ToChanges([s]);
    assert changes == [ToChange(r), ToChange(s)] && changes[1..] == [ToChange(s)] && changes[1..][1..] == [];
    var next := Applied(body, ToChange(r));
    if next.Some? {
      assert RunChanges(next.value, [ToChange(s)]) == Applied(next.value, ToChange(s)) by {
        var last := Applied(next.value, ToChange(s));
        if last.Some? { assert RunChanges(last.value, [ToChange(s)][1..]) == last; }
      }
    }
  }

  // ---- Rules that conflict ----

  // A body with one attribute.
  function Lone(a: string): Body {
    Body(map[a := ""], [])
  }

  function Settings(target: string): Body {
    Body(map[], [Block(SETTINGS, [], Lone(target))])
  }

  lemma LonesDiffer(a: string, b: string)
    requires a != b
    ensures Lone(a) != Lone(b) && Lone(a) != Body(map[], [])
  {
    assert a in Lone(a).attrs && a !in Lone(b).attrs;
  }

  lemma LoneEdits(a: string, rule: Rule)
    requires Sound(rule)
    ensures EditBody(Lone(a), ToChange(rule)) ==
      match rule.action
      case Drop => Some(if a == rule.attr then Body(map[], []) else Lone(a))
      case To(name) => if a == rule.attr then Some(Lone(name)) else if a == name then Some(Lone(a)) else None
      case Into(target) => if a == rule.attr then Some(Settings(target)) else None
  {
    hide ValidIdentifier;
    match rule.action
    case Drop =>
      assert map[a := ""] - {rule.attr} == if a == rule.attr then map[] else map[a := ""];
    case To(name) =>
      assert (map[a := ""] - {a})[name := ""] == map[name := ""];
    case Into(target) =>
      assert KeyOf(rule) in map[KeyOf(rule) := rule.action] && target != "";
      assert map[a := ""] - {a} == map[] && map[target := ""] == Lone(target).attrs;
      assert [] + [Block(SETTINGS, [], Lone(target))] == Settings(target).blocks;
  }

  lemma SettingsEdits(target: string, rule: Rule)
    requires Sound(rule) && rule.action == Into(target)
    ensures EditBody(Settings(target), ToChange(rule)) == Some(Settings(target))
  {
    hide ValidIdentifier;
    assert KeyOf(rule) in map[KeyOf(rule) := rule.action] && target != "";
    var blocks := Settings(target).blocks;
    assert blocks[1..] == [] && blocks[0].typ == SETTINGS && target in blocks[0].body.attrs;
    assert Count(blocks, SETTINGS) == 1 + Count(blocks[1..], SETTINGS) == 1;
    assert Nested(blocks, SETTINGS, target);
  }

  // On a body with just the attribute of the first rule, one order does what the other cannot.
  lemma ConflictShowsHere(r: Rule, s: Rule)
    requires Sound(r) && Sound(s) && KeyOf(r) != KeyOf(s) && Conflict(r, s)
    ensures Both(Lone(r.attr), r, s) != Both(Lone(r.attr), s, r)
  {
    hide EditBody, Independent, ValidIdentifier, ToChange;
    LoneEdits(r.attr, r);
    LoneEdits(r.attr, s);
    assert s.attr != r.attr;
    if r.action.Into? {
      SettingsEdits(r.action.target, s);
    } else {
      LoneEdits(r.action.name, s);
      LonesDiffer(r.action.name, r.attr);
    }
  }

  lemma ConflictShows(r: Rule, s: Rule)
    requires Sound(r) && Sound(s) && KeyOf(r) != KeyOf(s) && Conflict(r, s)
    ensures exists body :: RunChanges(body, ToChanges([r, s])) != RunChanges(body, ToChanges([s, r]))
  {
    var body := Lone(r.attr);
    ConflictShowsHere(r, s);
    ChainRuns(body, r, s);
    ChainRuns(body, s, r);
    hide Both, Sound, Chain, RunChanges, ToChanges;
    var x, y := Both(body, r, s), Both(body, s, r);
    if x.Some? && y.Some? && Chain(r.path, x.value) == Chain(r.path, y.value) {
      ChainInjective(r.path, x.value, y.value);
    }
    assert RunChanges(Chain(r.path, body), ToChanges([r, s])) != RunChanges(Chain(r.path, body), ToChanges([s, r]));
  }

  function PairTable(r: Rule, s: Rule): Table {
    map[KeyOf(r) := r.action, KeyOf(s) := s.action]
  }

  lemma DependentConflicts(r: Rule, s: Rule)
    requires Sound(r) && Sound(s) && KeyOf(r) != KeyOf(s)
    ensures Independent(PairTable(r, s)) <==> !Conflict(r, s) && !Conflict(s, r)
  {
    hide ValidIdentifier;
    var table, one, other := PairTable(r, s), map[KeyOf(r) := r.action], map[KeyOf(s) := s.action];
    assert table[KeyOf(r)] == r.action && table[KeyOf(s)] == s.action;
    assert KeyOf(r) in one && KeyOf(s) in other;
    assert r.action.Into? ==> r.path == [];
    assert s.action.Into? ==> s.path == [];
    if Independent(table) {
      assert NoShare(table, KeyOf(r), KeyOf(s)) && NoShare(table, KeyOf(s), KeyOf(r));
    }
  }

  lemma PairExtended(r: Rule, s: Rule)
    requires KeyOf(r) != KeyOf(s)
    ensures Extended(map[], [r, s]) == PairTable(r, s) && Agreeing([r, s])
  {
    var empty: Table := map[];
    assert [r, s][1..] == [s] && [s][1..] == [];
    assert Extended(empty, [r, s]) == Extended(empty[KeyOf(r) := r.action], [s]) ==
      Extended(empty[KeyOf(r) := r.action][KeyOf(s) := s.action], []);
    assert empty[KeyOf(r) := r.action][KeyOf(s) := s.action] == PairTable(r, s);
  }

  // Two rules, each fine by itself, may be swapped on every body exactly when they are independent.
  lemma SwappableIffIndependent(r: Rule, s: Rule)
    requires Sound(r) && Sound(s) && KeyOf(r) != KeyOf(s)
    ensures Independent(PairTable(r, s)) <==>
      forall body :: RunChanges(body, ToChanges([r, s])) == RunChanges(body, ToChanges([s, r]))
  {
    DependentConflicts(r, s);
    PairExtended(r, s);
    hide Sound, Independent, PairTable, RunChanges, ToChanges, Agreeing, Extended;
    if Independent(PairTable(r, s)) {
      forall body ensures RunChanges(body, ToChanges([r, s])) == RunChanges(body, ToChanges([s, r])) {
        OrderIsIrrelevant([r, s], [s, r], body);
      }
    } else if Conflict(r, s) {
      ConflictShows(r, s);
    } else {
      ConflictShows(s, r);
    }
  }
}
