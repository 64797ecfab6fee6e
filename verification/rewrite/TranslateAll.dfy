// The attribute edits of a resource, applied one after the other, against translating by all rules at once.
module TranslateAll {
  import opened Maps
  import opened Wrappers
  import opened Identifier
  import opened Tree
  import opened Translate
  import Tables

  // ---- Edits away from the settings block do not see it ----

  // Attributes go into the first block of the type, wherever it is, or make one at the end.
  lemma InsertedFirst(blocks: seq<Block>, typ: string, attrs: map<string, string>)
    requires blocks != []
    ensures Inserted(blocks, typ, attrs) ==
      if blocks[0].typ == typ then [blocks[0].(body := blocks[0].body.(attrs := blocks[0].body.attrs + attrs))] + blocks[1..]
      else [blocks[0]] + Inserted(blocks[1..], typ, attrs)
  {
    var i := First(blocks, typ);
    if blocks[0].typ != typ {
      assert First(blocks[1..], typ) == i - 1;
      assert blocks == [blocks[0]] + blocks[1..];
    }
  }

  lemma {:induction false} MatchingInserted(blocks: seq<Block>, typ: string, attrs: map<string, string>, path: seq<string>)
    requires path != [] && path[0] != typ
    ensures MatchingIn(Inserted(blocks, typ, attrs), path) == MatchingIn(blocks, path)
    decreases |blocks|
  {
    var all := Inserted(blocks, typ, attrs);
    if blocks == [] {
      assert all == [Block(typ, [], Body(attrs, []))] && all[1..] == [];
    } else {
      InsertedFirst(blocks, typ, attrs);
      if blocks[0].typ == typ {
        assert all[1..] == blocks[1..];
      } else {
        MatchingInserted(blocks[1..], typ, attrs, path);
        assert all[1..] == Inserted(blocks[1..], typ, attrs);
      }
    }
  }

  lemma {:induction false} AtInserted(blocks: seq<Block>, typ: string, attrs: map<string, string>, path: seq<string>, f: Body -> Option<Body>)
    requires path != [] && path[0] != typ
    ensures AtBlocks(Inserted(blocks, typ, attrs), path, f) ==
      match AtBlocks(blocks, path, f) case None => None case Some(r) => Some(Inserted(r, typ, attrs))
    decreases |blocks|
  {
    var all := Inserted(blocks, typ, attrs);
    if blocks == [] {
      assert all == [Block(typ, [], Body(attrs, []))] && all[1..] == [];
      assert AtBlocks(all[1..], path, f) == Some([]);
      assert AtBlock(all[0], path, f) == Some(all[0]) && [all[0]] + [] == all;
    } else {
      InsertedFirst(blocks, typ, attrs);
      hide Inserted, At;
      var rest := AtBlocks(blocks[1..], path, f);
      if blocks[0].typ == typ {
        assert all[1..] == blocks[1..];
        if rest.Some? { InsertedFirst([blocks[0]] + rest.value, typ, attrs); }
      } else {
        AtInserted(blocks[1..], typ, attrs, path, f);
        assert all[1..] == Inserted(blocks[1..], typ, attrs);
        var first := AtBlock(blocks[0], path, f);
        if first.Some? && rest.Some? {
          var r := [first.value] + rest.value;
          assert r[1..] == rest.value && r[0].typ == blocks[0].typ;
          InsertedFirst(r, typ, attrs);
        }
      }
    }
  }

  // ---- Translation keeps the shape of the tree ----

  lemma {:induction false} SameMatches(table: Table, path: seq<string>, body: Body, rest: seq<string>)
    ensures |Matching(NewBody(table, path, body), rest)| == |Matching(body, rest)|
    decreases |rest|, |body.blocks| + 1
  {
    if rest != [] { SameMatchesIn(table, path, body.blocks, rest); }
  }

  lemma {:induction false} SameMatchesIn(table: Table, path: seq<string>, blocks: seq<Block>, rest: seq<string>)
    requires rest != []
    ensures |MatchingIn(NewBlocks(table, path, blocks), rest)| == |MatchingIn(blocks, rest)|
    decreases |rest|, |blocks|
  {
    if blocks != [] {
      var new0 := NewBlock(table, path, blocks[0]);
      assert NewBlocks(table, path, blocks)[0] == new0 && NewBlocks(table, path, blocks)[1..] == NewBlocks(table, path, blocks[1..]);
      SameMatchesIn(table, path, blocks[1..], rest);
      if blocks[0].typ == rest[0] {
        SameMatches(table, path + [blocks[0].typ], blocks[0].body, rest[1..]);
      }
    }
  }

  lemma {:induction false} SameFirst(table: Table, path: seq<string>, blocks: seq<Block>, typ: string)
    ensures First(NewBlocks(table, path, blocks), typ) == First(blocks, typ)
    ensures Count(NewBlocks(table, path, blocks), typ) == Count(blocks, typ)
    decreases |blocks|
  {
    if blocks != [] {
      var new0 := NewBlock(table, path, blocks[0]);
      assert NewBlocks(table, path, blocks)[0] == new0 && NewBlocks(table, path, blocks)[1..] == NewBlocks(table, path, blocks[1..]);
      SameFirst(table, path, blocks[1..], typ);
    }
  }

  lemma {:induction false} NewBlockAt(table: Table, path: seq<string>, blocks: seq<Block>, i: nat)
    requires i < |blocks|
    ensures NewBlocks(table, path, blocks)[i] == NewBlock(table, path, blocks[i])
    decreases |blocks|
  {
    if i > 0 { NewBlockAt(table, path, blocks[1..], i - 1); }
  }

  // Attributes of a body no rule is for stay as they are.
  lemma NoRulesHere(attrs: map<string, string>)
    ensures NewAttrs(map[], attrs) == attrs
  {
    var local: Local := map[];
    forall a | a in attrs ensures a in NewAttrs(local, attrs) && NewAttrs(local, attrs)[a] == attrs[a] {
      NewAttrsHas(local, attrs, a);
    }
    forall a | a in NewAttrs(local, attrs) ensures a in attrs {
      NewAttrsOnly(local, attrs, a);
    }
  }

  // A block none of whose paths has a rule is carried over unchanged.
  lemma {:induction false} UntouchedBody(table: Table, path: seq<string>, body: Body)
    requires forall p: seq<string> | path <= p :: AtPath(table, p) == map[]
    ensures NewBody(table, path, body) == body
    decreases body
  {
    NoRulesHere(body.attrs);
    UntouchedBlocks(table, path, body.blocks);
    hide NewBlocks, NewAttrs;
    assert AtPath(table, path) == map[];
  }

  lemma {:induction false} UntouchedBlocks(table: Table, path: seq<string>, blocks: seq<Block>)
    requires forall p: seq<string> | path <= p :: AtPath(table, p) == map[]
    ensures NewBlocks(table, path, blocks) == blocks
    decreases blocks
  {
    if blocks != [] {
      forall p: seq<string> | path + [blocks[0].typ] <= p ensures AtPath(table, p) == map[] {
        assert path <= p;
      }
      UntouchedBody(table, path + [blocks[0].typ], blocks[0].body);
      UntouchedBlocks(table, path, blocks[1..]);
    }
  }

  // ---- The settings block ----

  lemma NoSettingsRules(table: Table)
    requires Independent(table)
    ensures AtPath(table, [] + [SETTINGS]) == map[]
  {
    var path: seq<string> := [] + [SETTINGS];
    assert path[0] == SETTINGS;
    forall a ensures (path, a) !in table {
      assert (path, a).0 == path;
    }
    hide AtPath;
  }

  lemma SettingsUntouched(table: Table, blocks: seq<Block>, target: string)
    requires Independent(table)
    ensures Nested(NewBlocks(table, [], blocks), SETTINGS, target) <==> Nested(blocks, SETTINGS, target)
  {
    var i := First(blocks, SETTINGS);
    SameFirst(table, [], blocks, SETTINGS);
    if i < |blocks| {
      NewBlockAt(table, [], blocks, i);
      NoSettingsRules(table);
      NoRulesHere(blocks[i].body.attrs);
      hide AtPath, Independent, NewAttrs, NewBlocks, First;
      assert NewBody(table, [] + [SETTINGS], blocks[i].body).attrs == blocks[i].body.attrs;
    }
  }

  lemma InsertedShape(blocks: seq<Block>, typ: string, attrs: map<string, string>, target: string)
    ensures Count(Inserted(blocks, typ, attrs), typ) == if Count(blocks, typ) == 0 then 1 else Count(blocks, typ)
    ensures Nested(Inserted(blocks, typ, attrs), typ, target) <==> Nested(blocks, typ, target) || target in attrs
    decreases |blocks|
  {
    var all := Inserted(blocks, typ, attrs);
    if blocks == [] {
      assert all == [Block(typ, [], Body(attrs, []))] && all[1..] == [];
    } else {
      InsertedFirst(blocks, typ, attrs);
      if blocks[0].typ == typ {
        assert all[1..] == blocks[1..];
      } else {
        InsertedShape(blocks[1..], typ, attrs, target);
        assert all[1..] == Inserted(blocks[1..], typ, attrs);
      }
    }
  }

  lemma InsertedTwice(blocks: seq<Block>, typ: string, x: map<string, string>, y: map<string, string>)
    ensures Inserted(Inserted(blocks, typ, x), typ, y) == Inserted(blocks, typ, x + y)
    decreases |blocks|
  {
    var once := Inserted(blocks, typ, x);
    if blocks == [] {
      assert once == [Block(typ, [], Body(x, []))];
      InsertedFirst(once, typ, y);
      assert once[1..] == [];
    } else {
      InsertedFirst(blocks, typ, x);
      InsertedFirst(blocks, typ, x + y);
      InsertedFirst(once, typ, y);
      var first := blocks[0].body.attrs;
      if blocks[0].typ == typ {
        assert (first + x) + y == first + (x + y);
        assert once[1..] == blocks[1..];
      } else {
        InsertedTwice(blocks[1..], typ, x, y);
        assert once[1..] == Inserted(blocks[1..], typ, x);
      }
    }
  }

  lemma IncomingHas(local: Local, attrs: map<string, string>, a: string)
    requires LocalIndependent(local) && a in attrs && a in local && local[a].Into?
    ensures local[a].target in Incoming(local, attrs) && Incoming(local, attrs)[local[a].target] == attrs[a]
  {
    var target := local[a].target;
    assert target in Targets(local, attrs);
    var b := Source(local, attrs, target);
    assert b != a ==> !NoShareHere(local, a, b);
  }

  // A new rule that moves nothing in, or moves one attribute in.
  lemma IncomingStep(local: Local, attrs: map<string, string>, a: string, action: Action)
    requires LocalIndependent(local[a := action]) && (a !in local || local[a] == action)
    ensures Incoming(local[a := action], attrs) ==
      if action.Into? && a in attrs then Incoming(local, attrs)[action.target := attrs[a]] else Incoming(local, attrs)
  {
    var local' := local[a := action];
    SmallerIndependent(local, a, action);
    var before, after := Incoming(local, attrs), Incoming(local', attrs);
    var expected := if action.Into? && a in attrs then before[action.target := attrs[a]] else before;
    forall t ensures t in after <==> t in expected
      ensures t in after ==> after[t] == expected[t]
    {
      IncomingAt(local, attrs, a, action, t);
    }
  }

  lemma IncomingAt(local: Local, attrs: map<string, string>, a: string, action: Action, t: string)
    requires LocalIndependent(local[a := action]) && LocalIndependent(local) && (a !in local || local[a] == action)
    ensures var before, after := Incoming(local, attrs), Incoming(local[a := action], attrs);
      var expected := if action.Into? && a in attrs then before[action.target := attrs[a]] else before;
      (t in after <==> t in expected) && (t in after ==> after[t] == expected[t])
  {
    var local' := local[a := action];
    var before, after := Incoming(local, attrs), Incoming(local', attrs);
    if t in after {
      var b := Source(local', attrs, t);
      IncomingHas(local', attrs, b);
      if b != a {
        IncomingHas(local, attrs, b);
        if action.Into? { assert NoShareHere(local', a, b); }
      }
    }
    if t in before {
      var b := Source(local, attrs, t);
      IncomingHas(local, attrs, b);
      IncomingHas(local', attrs, b);
    }
    if action.Into? && a in attrs { IncomingHas(local', attrs, a); }
  }

  // ---- One edit on a translated body ----

  function Settled(body: Option<Body>, incoming: map<string, string>): Option<Body> {
    match body case None => None case Some(b) => Some(WithSettings(b, incoming))
  }

  // Renaming or removing attributes elsewhere leaves the settings block alone.
  lemma SettingsStandAside(body: Body, incoming: map<string, string>, change: Change)
    requires change.RenameAttribute? || change.RemoveAttribute?
    requires change.path == [] || change.path[0] != SETTINGS
    ensures At(WithSettings(body, incoming), change.path, Editor(change)) == Settled(At(body, change.path, Editor(change)), incoming)
    ensures |Matching(WithSettings(body, incoming), change.path)| == |Matching(body, change.path)|
  {
    if change.path != [] && incoming != map[] {
      AtInserted(body.blocks, SETTINGS, incoming, change.path, Editor(change));
      MatchingInserted(body.blocks, SETTINGS, incoming, change.path);
      hide AtBlocks, MatchingIn, Inserted;
    }
  }

  lemma StepInPlace(table: Table, rule: Rule, body: Body)
    requires Addable(table, rule) && InPlaceRule(rule) && TableFits(table, body)
    ensures Applied(Translated(table, body), ToChange(rule)) ==
      if Fits(rule, body) then Some(Translated(table[KeyOf(rule) := rule.action], body)) else None
  {
    hide WithSettings, NewBody, Incoming, AtPath, At, Matching, Independent, TableFits, Addable, AllHaveOne, ValidIdentifier;
    StepInBody(table, rule, body);
    IncomingKept(table, rule, body.attrs);
    SettingsStandAside(NewBody(table, [], body), Incoming(AtPath(table, []), body.attrs), ToChange(rule));
  }

  lemma StepInBody(table: Table, rule: Rule, body: Body)
    requires Addable(table, rule) && InPlaceRule(rule) && TableFits(table, body)
    ensures rule.path == [] || rule.path[0] != SETTINGS
    ensures At(NewBody(table, [], body), rule.path, Editor(ToChange(rule))) ==
      if Good(rule, Matching(body, rule.path)) then Some(NewBody(table[KeyOf(rule) := rule.action], [], body)) else None
    ensures |Matching(NewBody(table, [], body), rule.path)| == |Matching(body, rule.path)|
  {
    assert KeyOf(rule) in table[KeyOf(rule) := rule.action];
    SameMatches(table, [], body, rule.path);
    FitsBelowRoot(table, body);
    assert rule.path[0..] == rule.path;
    StepAt(table, rule, [], body);
  }

  lemma IncomingKept(table: Table, rule: Rule, attrs: map<string, string>)
    requires Addable(table, rule) && InPlaceRule(rule)
    ensures Incoming(AtPath(table[KeyOf(rule) := rule.action], []), attrs) == Incoming(AtPath(table, []), attrs)
  {
    IndependentAt(table[KeyOf(rule) := rule.action], []);
    OnePathChanges(table, KeyOf(rule), rule.action, []);
    if rule.path == [] {
      KnownLocally(table, rule);
      IncomingStep(AtPath(table, []), attrs, rule.attr, rule.action);
    }
  }

  // Renaming an attribute to itself adds a rule that changes nothing.
  lemma StepIdle(table: Table, rule: Rule, body: Body)
    requires Addable(table, rule) && rule.action == To(rule.attr)
    ensures Applied(Translated(table, body), ToChange(rule)) ==
      if Fits(rule, body) then Some(Translated(table[KeyOf(rule) := rule.action], body)) else None
  {
    hide NewBody, AtPath, Agree, Independent, Incoming, WithSettings, At, Matching, AllHaveOne, ValidIdentifier;
    var table' := table[KeyOf(rule) := rule.action];
    AgreesElsewhere(table, KeyOf(rule), rule.action, []);
    BodyAgrees(table, table', [], body);
    OnePathChanges(table, KeyOf(rule), rule.action, []);
  }

  // Moving an attribute into the settings block, wherever earlier moves left that block.
  lemma StepInto(table: Table, rule: Rule, body: Body)
    requires Addable(table, rule) && rule.action.Into? && TableFits(table, body)
    ensures Applied(Translated(table, body), ToChange(rule)) ==
      if Fits(rule, body) then Some(Translated(table[KeyOf(rule) := rule.action], body)) else None
  {
    IntoIsTopLevel(table, rule);
    hide Translated, TableFits, Addable, Independent, ValidIdentifier, Inserted, Nested, Count;
    NestedNow(table, rule, body);
    NestedNext(table, rule, body);
    MoveApplied(Translated(table, body), rule);
    if KeyOf(rule) in table { TableRuleFits(table, rule, body); }
  }

  lemma IntoIsTopLevel(table: Table, rule: Rule)
    requires Addable(table, rule) && rule.action.Into?
    ensures rule.path == [] && rule.action.target != ""
  {
    assert KeyOf(rule) in table[KeyOf(rule) := rule.action];
  }

  lemma TableRuleFits(table: Table, rule: Rule, body: Body)
    requires Addable(table, rule) && TableFits(table, body) && KeyOf(rule) in table
    ensures Fits(rule, body) && table[KeyOf(rule) := rule.action] == table
  {
    assert Fits(Rule(KeyOf(rule).0, KeyOf(rule).1, table[KeyOf(rule)]), body);
  }

  lemma MoveApplied(y: Body, rule: Rule)
    requires rule.action.Into? && rule.path == [] && rule.action.target != ""
    ensures Applied(y, ToChange(rule)) ==
      if ValidIdentifier(rule.action.target) then NestIn(y, rule.attr, SETTINGS, rule.action.target) else None
  {
    assert ValidIdentifier(SETTINGS);
    hide ValidIdentifier, NestIn;
    assert Matching(y, []) == [y];
  }

  // What the next move finds: the same settings block count and the same attribute, unless its own
  // rule was applied before.
  lemma NestedNow(table: Table, rule: Rule, body: Body)
    requires Addable(table, rule) && rule.action.Into? && rule.path == [] && TableFits(table, body)
    ensures var y, target := Translated(table, body), rule.action.target;
      && (Count(y.blocks, SETTINGS) > 1 <==> Count(body.blocks, SETTINGS) > 1)
      && (KeyOf(rule) !in table ==>
            (Nested(y.blocks, SETTINGS, target) <==> Nested(body.blocks, SETTINGS, target))
            && (rule.attr in y.attrs <==> rule.attr in body.attrs))
      && (KeyOf(rule) in table ==> rule.attr !in y.attrs && Nested(y.blocks, SETTINGS, target))
  {
    var local, target := AtPath(table, []), rule.action.target;
    IntoParts(table, rule, body);
    TranslatedParts(table, body, target);
    hide Addable, TableFits, Independent, AtPath, NewAttrs, Incoming, Translated, Count, Nested, ValidIdentifier;
    SmallerIndependent(local, rule.attr, rule.action);
    TakeStep(local, body.attrs, rule.attr, rule.action);
    hide LocalIndependent, LocalFits;
    if KeyOf(rule) in table {
      TableRuleFits(table, rule, body);
      if rule.attr in body.attrs { IncomingHas(local, body.attrs, rule.attr); }
    } else {
      TargetIsNew(local, body.attrs, rule.attr, target);
    }
  }

  lemma TranslatedParts(table: Table, body: Body, target: string)
    requires Independent(table)
    ensures var y, local := Translated(table, body), AtPath(table, []);
      && y.attrs == NewAttrs(local, body.attrs)
      && (Count(y.blocks, SETTINGS) > 1 <==> Count(body.blocks, SETTINGS) > 1)
      && (Nested(y.blocks, SETTINGS, target) <==> Nested(body.blocks, SETTINGS, target) || target in Incoming(local, body.attrs))
  {
    var incoming, blocks := Incoming(AtPath(table, []), body.attrs), NewBlocks(table, [], body.blocks);
    SettingsUntouched(table, body.blocks, target);
    SameFirst(table, [], body.blocks, SETTINGS);
    InsertedShape(blocks, SETTINGS, incoming, target);
    hide NewAttrs, NewBlocks, Incoming, AtPath, Independent, Inserted, Count, Nested;
  }

  lemma TargetIsNew(local: Local, attrs: map<string, string>, a: string, target: string)
    requires LocalIndependent(local[a := Into(target)]) && a !in local
    ensures target !in Incoming(local, attrs)
  {
    var local' := local[a := Into(target)];
    forall b | b in local && local[b].Into? ensures local[b].target != target {
      assert NoShareHere(local', a, b);
    }
  }

  lemma IntoParts(table: Table, rule: Rule, body: Body)
    requires Addable(table, rule) && rule.action.Into? && rule.path == [] && TableFits(table, body)
    ensures var local := AtPath(table, []);
      && (rule.attr in local <==> KeyOf(rule) in table) && (rule.attr in local ==> local[rule.attr] == rule.action)
      && LocalIndependent(local[rule.attr := rule.action]) && LocalFits(local, body.attrs)
      && AtPath(table[KeyOf(rule) := rule.action], []) == local[rule.attr := rule.action]
    ensures Independent(table)
  {
    IndependentAt(table[KeyOf(rule) := rule.action], []);
    OnePathChanges(table, KeyOf(rule), rule.action, []);
    FitsBelowRoot(table, body);
    FitsHere(table, [], body);
    SmallerTable(table, rule);
  }

  lemma SmallerTable(table: Table, rule: Rule)
    requires Addable(table, rule)
    ensures Independent(table)
  {
    var table' := table[KeyOf(rule) := rule.action];
    assert forall k | k in table :: k in table' && table'[k] == table[k];
    forall k, m | k in table && m in table && k != m ensures NoShare(table, k, m) {
      assert NoShare(table', k, m);
    }
  }

  // What the next move makes of it.
  lemma NestedNext(table: Table, rule: Rule, body: Body)
    requires Addable(table, rule) && rule.action.Into? && rule.path == [] && TableFits(table, body)
    ensures var y, y' := Translated(table, body), Translated(table[KeyOf(rule) := rule.action], body);
      && (KeyOf(rule) in table || rule.attr !in body.attrs ==> y' == y)
      && (KeyOf(rule) !in table && rule.attr in body.attrs ==>
            rule.attr in y.attrs
            && y' == Body(y.attrs - {rule.attr}, Inserted(y.blocks, SETTINGS, map[rule.action.target := y.attrs[rule.attr]])))
  {
    var local, target := AtPath(table, []), rule.action.target;
    var table' := table[KeyOf(rule) := rule.action];
    var blocks := NewBlocks(table, [], body.blocks);
    hide Addable, TableFits, Independent, AtPath, NewBody, NewBlocks, NewAttrs, Incoming, Inserted, WithSettings, LocalIndependent, LocalFits;
    IntoParts(table, rule, body);
    NextBodies(table, rule, body);
    var local' := local[rule.attr := rule.action];
    assert Translated(table, body) == WithSettings(Body(NewAttrs(local, body.attrs), blocks), Incoming(local, body.attrs));
    assert Translated(table', body) == WithSettings(Body(NewAttrs(local', body.attrs), blocks), Incoming(local', body.attrs));
    hide Translated;
    MoveMade(local, body.attrs, blocks, rule);
    if KeyOf(rule) in table { assert table' == table; }
  }

  // Only the attributes of the resource itself differ.
  lemma NextBodies(table: Table, rule: Rule, body: Body)
    requires Addable(table, rule) && rule.action.Into? && rule.path == []
    ensures var local, blocks := AtPath(table, []), NewBlocks(table, [], body.blocks);
      && NewBody(table, [], body) == Body(NewAttrs(local, body.attrs), blocks)
      && NewBody(table[KeyOf(rule) := rule.action], [], body) == Body(NewAttrs(local[rule.attr := rule.action], body.attrs), blocks)
  {
    OnePathChanges(table, KeyOf(rule), rule.action, []);
    BlocksElsewhere(table, rule, [], body.blocks);
    hide Addable, AtPath, NewBlocks, NewAttrs;
  }

  lemma MoveMade(local: Local, attrs: map<string, string>, blocks: seq<Block>, rule: Rule)
    requires rule.action.Into? && (rule.attr in local ==> local[rule.attr] == rule.action)
    requires LocalIndependent(local[rule.attr := rule.action]) && LocalFits(local, attrs)
    ensures var local' := local[rule.attr := rule.action];
      var y, y' := WithSettings(Body(NewAttrs(local, attrs), blocks), Incoming(local, attrs)),
        WithSettings(Body(NewAttrs(local', attrs), blocks), Incoming(local', attrs));
      && (rule.attr in local || rule.attr !in attrs ==> y' == y)
      && (rule.attr !in local && rule.attr in attrs ==>
            rule.attr in y.attrs
            && y' == Body(y.attrs - {rule.attr}, Inserted(y.blocks, SETTINGS, map[rule.action.target := y.attrs[rule.attr]])))
  {
    var local' := local[rule.attr := rule.action];
    TakeStep(local, attrs, rule.attr, rule.action);
    IncomingStep(local, attrs, rule.attr, rule.action);
    hide NewAttrs, Incoming, LocalIndependent, LocalFits, Inserted, WithSettings;
    if rule.attr in local {
      assert local' == local;
    } else if rule.attr in attrs {
      OneMoreIncoming(NewAttrs(local, attrs), blocks, Incoming(local, attrs), rule.attr, rule.action.target);
    } else {
      assert NewAttrs(local, attrs) - {rule.attr} == NewAttrs(local, attrs);
    }
  }

  lemma OneMoreIncoming(attrs: map<string, string>, blocks: seq<Block>, incoming: map<string, string>, a: string, target: string)
    requires a in attrs
    ensures var y := WithSettings(Body(attrs, blocks), incoming);
      y.attrs == attrs && WithSettings(Body(attrs - {a}, blocks), incoming[target := attrs[a]]) ==
      Body(attrs - {a}, Inserted(y.blocks, SETTINGS, map[target := attrs[a]]))
  {
    var more := map[target := attrs[a]];
    InsertedTwice(blocks, SETTINGS, incoming, more);
    assert incoming + more == incoming[target := attrs[a]];
    assert target in incoming + more;
    if incoming == map[] { assert incoming + more == more; }
    hide Inserted;
  }

  // ---- All edits of a resource ----

  function ToChanges(rules: seq<Rule>): (changes: seq<Change>)
    ensures |changes| == |rules|
  {
    Tables.Mapped(rules, ToChange)
  }

  // No two rules of the list say different things about one attribute.
  ghost predicate Agreeing(rules: seq<Rule>) {
    Tables.Agreeing(rules, KeyOf, ActionOf)
  }

  predicate AllFit(rules: seq<Rule>, body: Body) {
    forall r | r in rules :: Fits(r, body)
  }

  lemma PartIndependent(table: Table, full: Table)
    requires Independent(full) && Within(table, full)
    ensures Independent(table)
  {
    forall k, m | k in table && m in table && k != m ensures NoShare(table, k, m) {
      assert NoShare(full, k, m);
    }
  }

  lemma Step(table: Table, rule: Rule, body: Body)
    requires Addable(table, rule) && TableFits(table, body)
    ensures Applied(Translated(table, body), ToChange(rule)) ==
      if Fits(rule, body) then Some(Translated(table[KeyOf(rule) := rule.action], body)) else None
  {
    hide Addable, TableFits, Translated, Fits, Applied;
    if rule.action.Into? {
      StepInto(table, rule, body);
    } else if rule.action == To(rule.attr) {
      StepIdle(table, rule, body);
    } else {
      StepInPlace(table, rule, body);
    }
  }

  lemma {:induction false} RunFrom(table: Table, rules: seq<Rule>, full: Table, body: Body)
    requires Independent(full) && Within(table, full) && TableFits(table, body)
    requires forall r | r in rules :: KeyOf(r) in full && full[KeyOf(r)] == r.action
    ensures RunChanges(Translated(table, body), ToChanges(rules)) ==
      if AllFit(rules, body) then Some(Translated(Extended(table, rules), body)) else None
    decreases |rules|
  {
    hide Independent, Fits, Translated, Applied, ToChange;
    if rules != [] {
      var rule, table' := rules[0], table[KeyOf(rules[0]) := rules[0].action];
      assert rule in rules;
      FirstRule(table, rule, full, body);
      Step(table, rule, body);
      assert ToChanges(rules)[0] == ToChange(rule) && ToChanges(rules)[1..] == ToChanges(rules[1..]);
      assert forall r :: r in rules <==> r == rule || r in rules[1..];
      assert AllFit(rules, body) <==> Fits(rule, body) && AllFit(rules[1..], body);
      hide AllFit, TableFits, Within;
      if Fits(rule, body) {
        RunFrom(table', rules[1..], full, body);
      }
    }
  }

  lemma FirstRule(table: Table, rule: Rule, full: Table, body: Body)
    requires Independent(full) && Within(table, full) && TableFits(table, body)
    requires KeyOf(rule) in full && full[KeyOf(rule)] == rule.action
    ensures var table' := table[KeyOf(rule) := rule.action];
      Addable(table, rule) && Within(table', full) && (Fits(rule, body) ==> TableFits(table', body))
  {
    hide Fits;
    assert Rule(rule.path, rule.attr, rule.action) == rule;
    PartIndependent(table[KeyOf(rule) := rule.action], full);
    hide Independent;
  }

  lemma NothingTranslated(body: Body)
    ensures Translated(map[], body) == body
  {
    hide NewBody, AtPath;
    assert forall p :: AtPath(map[], p) == map[];
    UntouchedBody(map[], [], body);
    NoneIncoming(body.attrs);
  }

  lemma NoneIncoming(attrs: map<string, string>)
    ensures Incoming(map[], attrs) == map[]
  {
    var local: Local := map[];
    assert Targets(local, attrs) == {};
  }

  // The attribute edits of a resource, one after the other, in whatever order and however often each
  // occurs: they go through exactly when every rule fits the body they started from, and then they
  // amount to translating by all rules at once.
  lemma RulesTranslate(rules: seq<Rule>, body: Body)
    requires Agreeing(rules) && Independent(Extended(map[], rules))
    ensures RunChanges(body, ToChanges(rules)) ==
      if AllFit(rules, body) then Some(Translated(Extended(map[], rules), body)) else None
  {
    NothingTranslated(body);
    hide Independent, Translated, Fits;
    RunFrom(map[], rules, Extended(map[], rules), body);
  }

  // The order in which the rules arrive, and repetitions, leave no trace.
  lemma OrderIsIrrelevant(rules: seq<Rule>, other: seq<Rule>, body: Body)
    requires Agreeing(rules) && Independent(Extended(map[], rules))
    requires forall r :: r in rules <==> r in other
    ensures RunChanges(body, ToChanges(rules)) == RunChanges(body, ToChanges(other))
  {
    Tables.SameTable(rules, other, KeyOf, ActionOf);
    RulesTranslate(rules, body);
    RulesTranslate(other, body);
  }
}
