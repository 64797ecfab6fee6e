// Translating the attributes of a resource body by many rules at once, and why the edits, one after
// the other and in any order, come to the same.
module Translate {
  import opened Wrappers
  import opened Identifier
  import opened Tree
  import Tables

  const SETTINGS := "settings"

  // What becomes of an attribute at a path: dropped, renamed, or moved into the settings block.
  datatype Action = Drop | To(name: string) | Into(target: string)

  type Key = (seq<string>, string)
  type Table = map<Key, Action>
  type Local = map<string, Action>

  // The rules for the attributes at one path that change something.
  function AtPath(table: Table, path: seq<string>): (local: Local)
    ensures forall a :: a in local <==> (path, a) in table && table[(path, a)] != To(a)
    ensures forall a | a in local :: local[a] == table[(path, a)]
  {
    map k: Key | k in table && k.0 == path && table[k] != To(k.1) :: k.1 := table[k]
  }

  datatype Rule = Rule(path: seq<string>, attr: string, action: Action)

  function KeyOf(rule: Rule): Key {
    (rule.path, rule.attr)
  }

  function ActionOf(rule: Rule): Action {
    rule.action
  }

  function ToChange(rule: Rule): Change {
    match rule.action
    case Drop => RemoveAttribute(rule.path, rule.attr)
    case To(name) => RenameAttribute(rule.path, rule.attr, name)
    case Into(target) => NestAttribute(rule.path, rule.attr, SETTINGS, target)
  }

  // ---- All rules at once ----

  // The name an attribute keeps in its own body, if it stays there.
  function Image(local: Local, attr: string): Option<string> {
    if attr !in local then Some(attr)
    else
      match local[attr]
      case Drop => None
      case To(name) => Some(name)
      case Into(_) => None
  }

  ghost function NewAttrs(local: Local, attrs: map<string, string>): map<string, string> {
    map name | name in Names(local, attrs) :: attrs[Origin(local, attrs, name)]
  }

  ghost function Names(local: Local, attrs: map<string, string>): set<string> {
    set a | a in attrs && Image(local, a).Some? :: Image(local, a).value
  }

  ghost function Origin(local: Local, attrs: map<string, string>, name: string): (a: string)
    requires name in Names(local, attrs)
    ensures a in attrs && Image(local, a) == Some(name)
  {
    var a :| a in attrs && Image(local, a) == Some(name);
    a
  }

  ghost function NewBody(table: Table, path: seq<string>, body: Body): Body
    decreases body
  {
    Body(NewAttrs(AtPath(table, path), body.attrs), NewBlocks(table, path, body.blocks))
  }

  ghost function NewBlocks(table: Table, path: seq<string>, blocks: seq<Block>): (r: seq<Block>)
    ensures |r| == |blocks|
    decreases blocks
  {
    if blocks == [] then [] else [NewBlock(table, path, blocks[0])] + NewBlocks(table, path, blocks[1..])
  }

  ghost function NewBlock(table: Table, path: seq<string>, block: Block): Block
    decreases block
  {
    Block(block.typ, block.labels, NewBody(table, path + [block.typ], block.body))
  }

  // What the rules move into the settings block.
  ghost function Incoming(local: Local, attrs: map<string, string>): map<string, string> {
    map t | t in Targets(local, attrs) :: attrs[Source(local, attrs, t)]
  }

  ghost function Targets(local: Local, attrs: map<string, string>): set<string> {
    set a | a in attrs && a in local && local[a].Into? :: local[a].target
  }

  ghost function Source(local: Local, attrs: map<string, string>, target: string): (a: string)
    requires target in Targets(local, attrs)
    ensures a in attrs && a in local && local[a] == Into(target)
  {
    var a :| a in attrs && a in local && local[a] == Into(target);
    a
  }

  // The translation of a whole resource body.
  ghost function Translated(table: Table, body: Body): Body {
    WithSettings(NewBody(table, [], body), Incoming(AtPath(table, []), body.attrs))
  }

  function WithSettings(body: Body, incoming: map<string, string>): Body {
    if incoming == map[] then body else Body(body.attrs, Inserted(body.blocks, SETTINGS, incoming))
  }

  // ---- Which tables translate, and which bodies they fit ----

  // No rule feeds another: targets are new names, no two rules share one, only top-level attributes
  // move into the settings block, and no rule looks inside that block.
  ghost predicate Independent(table: Table) {
    && (forall k | k in table :: (k.0 != [] ==> k.0[0] != SETTINGS) && (table[k].Into? ==> k.0 == [] && table[k].target != ""))
    && (forall k | k in table && table[k].To? :: table[k].name == k.1 || (k.0, table[k].name) !in table)
    && (forall k, m | k in table && m in table && k != m :: NoShare(table, k, m))
  }

  predicate NoShare(table: Table, k: Key, m: Key)
    requires k in table && m in table
  {
    && (table[k].To? && table[m].To? && k.0 == m.0 ==> table[k].name != table[m].name)
    && (table[k].Into? && table[m].Into? ==> table[k].target != table[m].target)
  }

  // A rule fits a body when something matches its path, and each matched body has the attribute
  // either under its old name or under its new one.
  predicate Fits(rule: Rule, body: Body) {
    match rule.action
    case Drop => Matching(body, rule.path) != []
    case To(name) =>
      && ValidIdentifier(name)
      && (rule.attr == name || (Matching(body, rule.path) != [] && AllHaveOne(Matching(body, rule.path), rule.attr, name)))
    case Into(target) =>
      && rule.path == [] && ValidIdentifier(target) && Count(body.blocks, SETTINGS) <= 1
      && (rule.attr in body.attrs) != Nested(body.blocks, SETTINGS, target)
  }

  predicate HasOne(body: Body, from: string, to: string) {
    (from in body.attrs) != (to in body.attrs)
  }

  predicate AllHaveOne(bodies: seq<Body>, from: string, to: string) {
    forall b | b in bodies :: HasOne(b, from, to)
  }

  // Every rule of the table fits.
  ghost predicate TableFits(table: Table, body: Body) {
    forall k | k in table :: Fits(Rule(k.0, k.1, table[k]), body)
  }

  function Extended(table: Table, rules: seq<Rule>): Table {
    Tables.Extended(table, rules, KeyOf, ActionOf)
  }

  // ---- Names and values after translation ----

  // Renamed attributes do not meet their new name in the same body.
  predicate LocalFits(local: Local, attrs: map<string, string>) {
    forall a | a in local && local[a].To? && local[a].name != a :: (a in attrs) != (local[a].name in attrs)
  }

  ghost predicate LocalIndependent(local: Local) {
    && (forall a | a in local && local[a].To? :: local[a].name == a || local[a].name !in local)
    && (forall a, b | a in local && b in local && a != b :: NoShareHere(local, a, b))
  }

  predicate NoShareHere(local: Local, a: string, b: string)
    requires a in local && b in local
  {
    && (local[a].To? && local[b].To? ==> local[a].name != local[b].name)
    && (local[a].Into? && local[b].Into? ==> local[a].target != local[b].target)
  }

  lemma IndependentAt(table: Table, path: seq<string>)
    requires Independent(table)
    ensures LocalIndependent(AtPath(table, path))
  {
    var local := AtPath(table, path);
    forall a, b | a in local && b in local && a != b ensures NoShareHere(local, a, b) {
      assert NoShare(table, (path, a), (path, b));
    }
    forall a | a in local && local[a].To? ensures local[a].name == a || local[a].name !in local {
      assert (path, a) in table;
    }
  }

  // An attribute that stays is found under its image, with its own expression.
  lemma NewAttrsHas(local: Local, attrs: map<string, string>, a: string)
    requires LocalIndependent(local) && LocalFits(local, attrs)
    requires a in attrs && Image(local, a).Some?
    ensures Image(local, a).value in NewAttrs(local, attrs) && NewAttrs(local, attrs)[Image(local, a).value] == attrs[a]
  {
    var name := Image(local, a).value;
    assert name in Names(local, attrs);
    var b := Origin(local, attrs, name);
    OnlyOneImage(local, attrs, a, b);
  }

  lemma OnlyOneImage(local: Local, attrs: map<string, string>, a: string, b: string)
    requires LocalIndependent(local) && LocalFits(local, attrs) && a in attrs && b in attrs
    ensures a != b && Image(local, a).Some? ==> Image(local, a) != Image(local, b)
  {
    if a != b && a in local && b in local { assert NoShareHere(local, a, b); }
  }

  // Where a name in the translation comes from.
  lemma NewAttrsOnly(local: Local, attrs: map<string, string>, name: string)
    requires LocalIndependent(local) && LocalFits(local, attrs) && name in NewAttrs(local, attrs)
    ensures exists a | a in attrs :: Image(local, a) == Some(name) && NewAttrs(local, attrs)[name] == attrs[a]
  {
    var a := Origin(local, attrs, name);
    NewAttrsHas(local, attrs, a);
  }

  // A name no rule touches is in the translation exactly when it was there before.
  lemma Untouched(local: Local, attrs: map<string, string>, name: string)
    requires LocalIndependent(local) && LocalFits(local, attrs)
    requires name !in local && forall a | a in local && local[a].To? :: local[a].name != name
    ensures name in NewAttrs(local, attrs) <==> name in attrs
    ensures name in attrs ==> NewAttrs(local, attrs)[name] == attrs[name]
  {
    if name in attrs { NewAttrsHas(local, attrs, name); }
    if name in NewAttrs(local, attrs) { NewAttrsOnly(local, attrs, name); }
  }

  // One more rule, for an attribute the body has: it leaves its name, and takes its expression along.
  lemma OneImageChanges(local: Local, attrs: map<string, string>, from: string, action: Action)
    requires from !in local && from in attrs
    requires LocalIndependent(local[from := action]) && LocalFits(local[from := action], attrs)
    requires LocalIndependent(local) && LocalFits(local, attrs)
    ensures from in NewAttrs(local, attrs) && NewAttrs(local, attrs)[from] == attrs[from]
    ensures NewAttrs(local[from := action], attrs) == Changed(NewAttrs(local, attrs), from, action, attrs[from])
  {
    var local' := local[from := action];
    var before, after := NewAttrs(local, attrs), NewAttrs(local', attrs);
    var expected := Changed(before, from, action, attrs[from]);
    NoTargetIsSource(local, from, action);
    Untouched(local, attrs, from);
    forall name ensures name in expected <==> name in after
      ensures name in after ==> expected[name] == after[name]
    {
      NameChanges(local, attrs, from, action, name);
    }
  }

  // What the rule for an attribute does to a translation that does not know it yet.
  function Changed(before: map<string, string>, from: string, action: Action, value: string): map<string, string> {
    if action.To? then (before - {from})[action.name := value] else before - {from}
  }

  lemma NameChanges(local: Local, attrs: map<string, string>, from: string, action: Action, name: string)
    requires from !in local && from in attrs
    requires LocalIndependent(local[from := action]) && LocalFits(local[from := action], attrs)
    requires LocalIndependent(local) && LocalFits(local, attrs)
    requires forall a | a in local && local[a].To? :: local[a].name != from
    ensures var after, expected := NewAttrs(local[from := action], attrs), Changed(NewAttrs(local, attrs), from, action, attrs[from]);
      && (name in expected <==> name in after)
      && (name in after ==> expected[name] == after[name])
  {
    var local' := local[from := action];
    var before, after := NewAttrs(local, attrs), NewAttrs(local', attrs);
    if name in after {
      NewAttrsOnly(local', attrs, name);
      var a :| a in attrs && Image(local', a) == Some(name) && after[name] == attrs[a];
      hide NewAttrs;
      OnlyOneImage(local', attrs, a, from);
      if a != from {
        NewAttrsHas(local, attrs, a);
      }
    }
    if action.To? && name == action.name {
      NewAttrsHas(local', attrs, from);
    } else if name in before && name != from {
      NewAttrsOnly(local, attrs, name);
      var a :| a in attrs && Image(local, a) == Some(name);
      NewAttrsHas(local', attrs, a);
    }
  }

  lemma NoTargetIsSource(local: Local, from: string, action: Action)
    requires from !in local && LocalIndependent(local[from := action])
    ensures forall a | a in local && local[a].To? :: local[a].name != from
  {
    var local' := local[from := action];
    assert forall a | a in local :: a in local' && local'[a] == local[a];
  }

  // One more rule, for an attribute the body does not have: nothing changes.
  lemma NoImageChanges(local: Local, attrs: map<string, string>, from: string, action: Action)
    requires from !in local && from !in attrs
    requires LocalIndependent(local[from := action]) && LocalFits(local[from := action], attrs)
    requires LocalIndependent(local) && LocalFits(local, attrs)
    ensures from !in NewAttrs(local, attrs)
    ensures NewAttrs(local[from := action], attrs) == NewAttrs(local, attrs)
  {
    var local' := local[from := action];
    NoTargetIsSource(local, from, action);
    Untouched(local, attrs, from);
    assert forall a | a in attrs :: Image(local, a) == Image(local', a);
    assert Names(local, attrs) == Names(local', attrs);
    forall name | name in Names(local, attrs) ensures NewAttrs(local', attrs)[name] == NewAttrs(local, attrs)[name] {
      NewAttrsHas(local, attrs, Origin(local, attrs, name));
      NewAttrsHas(local', attrs, Origin(local, attrs, name));
    }
  }

  lemma SmallerIndependent(local: Local, from: string, action: Action)
    requires LocalIndependent(local[from := action]) && (from !in local || local[from] == action)
    ensures LocalIndependent(local)
  {
    var local' := local[from := action];
    assert forall a | a in local :: a in local' && local'[a] == local[a];
    forall a, b | a in local && b in local && a != b ensures NoShareHere(local, a, b) {
      assert NoShareHere(local', a, b);
    }
  }

  // An attribute some rule takes away is no longer there under its old name.
  lemma SourceGone(local: Local, attrs: map<string, string>, from: string)
    requires LocalIndependent(local) && LocalFits(local, attrs) && from in local && local[from] != To(from)
    ensures from !in NewAttrs(local, attrs)
  {
    forall a ensures Image(local, a) != Some(from) {
      if a in local && local[a].To? { assert local[a].name == a || local[a].name !in local; }
    }
  }

  // Renaming an attribute of a translated body adds the rule to the translation, or fails exactly when
  // the untranslated body had both names or neither.
  lemma RenameStep(local: Local, attrs: map<string, string>, from: string, to: string, blocks: seq<Block>)
    requires from != to && (from !in local || local[from] == To(to))
    requires LocalIndependent(local[from := To(to)]) && LocalFits(local, attrs)
    ensures RenameIn(Body(NewAttrs(local, attrs), blocks), from, to) ==
      if (from in attrs) != (to in attrs) then Some(Body(NewAttrs(local[from := To(to)], attrs), blocks)) else None
  {
    var local' := local[from := To(to)];
    SmallerIndependent(local, from, To(to));
    if from in local {
      assert local' == local;
      SourceGone(local, attrs, from);
      if from in attrs { NewAttrsHas(local, attrs, from); } else { NewAttrsHas(local, attrs, to); }
    } else {
      forall a | a in local && local[a].To? ensures local[a].name != to { assert NoShareHere(local', a, from); }
      Untouched(local, attrs, to);
      NoTargetIsSource(local, from, To(to));
      Untouched(local, attrs, from);
      if (from in attrs) != (to in attrs) {
        if from in attrs { OneImageChanges(local, attrs, from, To(to)); } else { NoImageChanges(local, attrs, from, To(to)); }
      }
    }
  }

  // Taking an attribute away, to drop or to move it.
  lemma TakeStep(local: Local, attrs: map<string, string>, from: string, action: Action)
    requires !action.To? && (from !in local || local[from] == action)
    requires LocalIndependent(local[from := action]) && LocalFits(local, attrs)
    ensures NewAttrs(local, attrs) - {from} == NewAttrs(local[from := action], attrs)
    ensures from in local ==> from !in NewAttrs(local, attrs)
    ensures from !in local ==> (from in NewAttrs(local, attrs) <==> from in attrs)
    ensures from !in local && from in attrs ==> NewAttrs(local, attrs)[from] == attrs[from]
  {
    SmallerIndependent(local, from, action);
    if from in local {
      assert local[from := action] == local;
      SourceGone(local, attrs, from);
    } else {
      StillFits(local, attrs, from, action);
      if from in attrs { OneImageChanges(local, attrs, from, action); } else { NoImageChanges(local, attrs, from, action); }
    }
    hide NewAttrs;
  }

  lemma StillFits(local: Local, attrs: map<string, string>, from: string, action: Action)
    requires !action.To? && from !in local && LocalFits(local, attrs)
    ensures LocalFits(local[from := action], attrs)
  {
    var local' := local[from := action];
    assert forall a | a in local' && local'[a].To? :: a in local && local[a] == local'[a];
  }

  // ---- Tables that agree below a path ----

  ghost predicate Agree(table: Table, other: Table, path: seq<string>) {
    forall p: seq<string> | path <= p :: AtPath(table, p) == AtPath(other, p)
  }

  lemma {:induction false} BodyAgrees(table: Table, other: Table, path: seq<string>, body: Body)
    requires Agree(table, other, path)
    ensures NewBody(table, path, body) == NewBody(other, path, body)
    decreases body
  {
    BlocksAgree(table, other, path, body.blocks);
    assert AtPath(table, path) == AtPath(other, path);
    hide NewBlocks, NewAttrs, AtPath;
  }

  lemma {:induction false} BlocksAgree(table: Table, other: Table, path: seq<string>, blocks: seq<Block>)
    requires forall i | 0 <= i < |blocks| :: Agree(table, other, path + [blocks[i].typ])
    ensures NewBlocks(table, path, blocks) == NewBlocks(other, path, blocks)
    decreases blocks
  {
    hide Agree, AtPath;
    if blocks != [] {
      assert Agree(table, other, path + [blocks[0].typ]);
      assert forall i | 0 <= i < |blocks| - 1 :: blocks[1..][i] == blocks[i + 1];
      BodyAgrees(table, other, path + [blocks[0].typ], blocks[0].body);
      BlocksAgree(table, other, path, blocks[1..]);
      hide NewBody;
    }
  }

  // Adding one rule changes what is known at its own path only.
  lemma OnePathChanges(table: Table, key: Key, action: Action, path: seq<string>)
    requires key !in table || table[key] == action
    ensures AtPath(table[key := action], path) ==
      if path == key.0 && action != To(key.1) then AtPath(table, path)[key.1 := action] else AtPath(table, path)
  {
    hide AtPath;
    var after, before := AtPath(table[key := action], path), AtPath(table, path);
    var expected := if path == key.0 && action != To(key.1) then before[key.1 := action] else before;
    forall a ensures a in after <==> a in expected
      ensures a in after ==> after[a] == expected[a]
    {
      if (path, a) == key { assert (path, a) in table ==> table[(path, a)] == action; }
    }
  }

  lemma AgreesElsewhere(table: Table, key: Key, action: Action, path: seq<string>)
    requires key !in table || table[key] == action
    requires !(path <= key.0) || action == To(key.1)
    ensures Agree(table, table[key := action], path)
  {
    forall p: seq<string> | path <= p ensures AtPath(table, p) == AtPath(table[key := action], p) {
      OnePathChanges(table, key, action, p);
    }
  }

  // ---- Fitting below a path ----

  predicate Renames(table: Table, key: Key) {
    key in table && table[key].To? && table[key].name != key.1
  }

  // The renames of the table fit the bodies below a path.
  ghost predicate FitsBelow(table: Table, path: seq<string>, body: Body) {
    forall k: Key | Renames(table, k) && path <= k.0 :: AllHaveOne(Matching(body, k.0[|path|..]), k.1, table[k].name)
  }

  lemma {:induction false} MatchingOfBlock(blocks: seq<Block>, path: seq<string>, i: nat, b: Body)
    requires path != [] && i < |blocks| && blocks[i].typ == path[0] && b in Matching(blocks[i].body, path[1..])
    ensures b in MatchingIn(blocks, path)
    decreases |blocks|
  {
    if i > 0 { MatchingOfBlock(blocks[1..], path, i - 1, b); }
  }

  lemma FitsBelowBlock(table: Table, path: seq<string>, body: Body, i: nat)
    requires FitsBelow(table, path, body) && i < |body.blocks|
    ensures FitsBelow(table, path + [body.blocks[i].typ], body.blocks[i].body)
  {
    var block := body.blocks[i];
    var path' := path + [block.typ];
    forall k: Key | Renames(table, k) && path' <= k.0
      ensures AllHaveOne(Matching(block.body, k.0[|path'|..]), k.1, table[k].name)
    {
      var rest := k.0[|path|..];
      assert path <= k.0 && rest[0] == block.typ && rest[1..] == k.0[|path'|..];
      forall b | b in Matching(block.body, rest[1..]) ensures HasOne(b, k.1, table[k].name) {
        MatchingOfBlock(body.blocks, rest, i, b);
        assert b in Matching(body, rest);
      }
    }
  }

  lemma FitsHere(table: Table, path: seq<string>, body: Body)
    requires FitsBelow(table, path, body)
    ensures LocalFits(AtPath(table, path), body.attrs)
  {
    var local := AtPath(table, path);
    forall a | a in local && local[a].To? && local[a].name != a ensures (a in body.attrs) != (local[a].name in body.attrs) {
      assert Renames(table, (path, a));
      assert path[|path|..] == [];
      assert body in Matching(body, []);
      assert HasOne(body, a, local[a].name);
    }
  }

  lemma FitsBelowRoot(table: Table, body: Body)
    requires TableFits(table, body)
    ensures FitsBelow(table, [], body)
  {
    forall k: Key | Renames(table, k) ensures AllHaveOne(Matching(body, k.0[0..]), k.1, table[k].name) {
      assert Fits(Rule(k.0, k.1, table[k]), body);
      assert k.0[0..] == k.0;
    }
  }

  // ---- One edit on a translated tree ----

  // What the matched bodies must satisfy for the rule to go through.
  predicate Good(rule: Rule, bodies: seq<Body>) {
    rule.action.To? ==> AllHaveOne(bodies, rule.attr, rule.action.name)
  }

  // A rule that may be added to the table: known already or new, and independent of the rest.
  ghost predicate Addable(table: Table, rule: Rule) {
    && (KeyOf(rule) !in table || table[KeyOf(rule)] == rule.action)
    && Independent(table[KeyOf(rule) := rule.action])
  }

  predicate InPlaceRule(rule: Rule) {
    !rule.action.Into? && rule.action != To(rule.attr)
  }

  lemma StepHere(table: Table, rule: Rule, body: Body)
    requires Addable(table, rule) && InPlaceRule(rule) && FitsBelow(table, rule.path, body)
    ensures EditBody(NewBody(table, rule.path, body), ToChange(rule)) ==
      if Good(rule, [body]) then Some(NewBody(table[KeyOf(rule) := rule.action], rule.path, body)) else None
  {
    hide AtPath, FitsBelow, NewBlocks, Addable, LocalFits, LocalIndependent, NewAttrs, EditBody, NewBody;
    var local, blocks := AtPath(table, rule.path), NewBlocks(table, rule.path, body.blocks);
    HereParts(table, rule, body);
    StepLocally(local, rule, body.attrs, blocks);
    assert body in [body];
  }

  // A translated body and its successor differ in the rule for one attribute of their own.
  lemma HereParts(table: Table, rule: Rule, body: Body)
    requires Addable(table, rule) && InPlaceRule(rule) && FitsBelow(table, rule.path, body)
    ensures var local, blocks := AtPath(table, rule.path), NewBlocks(table, rule.path, body.blocks);
      && (rule.attr in local ==> local[rule.attr] == rule.action)
      && LocalIndependent(local[rule.attr := rule.action]) && LocalFits(local, body.attrs)
      && NewBody(table, rule.path, body) == Body(NewAttrs(local, body.attrs), blocks)
      && NewBody(table[KeyOf(rule) := rule.action], rule.path, body) == Body(NewAttrs(local[rule.attr := rule.action], body.attrs), blocks)
  {
    hide AtPath, Independent, FitsBelow, LocalFits, LocalIndependent, NewAttrs, NewBlocks;
    IndependentAt(table[KeyOf(rule) := rule.action], rule.path);
    OnePathChanges(table, KeyOf(rule), rule.action, rule.path);
    FitsHere(table, rule.path, body);
    BlocksElsewhere(table, rule, rule.path, body.blocks);
    KnownLocally(table, rule);
    hide Addable;
  }

  lemma KnownLocally(table: Table, rule: Rule)
    requires Addable(table, rule) && InPlaceRule(rule)
    ensures rule.attr in AtPath(table, rule.path) ==> AtPath(table, rule.path)[rule.attr] == rule.action
  {
  }

  lemma StepLocally(local: Local, rule: Rule, attrs: map<string, string>, blocks: seq<Block>)
    requires InPlaceRule(rule) && (rule.attr in local ==> local[rule.attr] == rule.action)
    requires LocalIndependent(local[rule.attr := rule.action]) && LocalFits(local, attrs)
    ensures EditBody(Body(NewAttrs(local, attrs), blocks), ToChange(rule)) ==
      if rule.action.Drop? || (rule.attr in attrs) != (rule.action.name in attrs)
        then Some(Body(NewAttrs(local[rule.attr := rule.action], attrs), blocks)) else None
  {
    hide LocalFits, LocalIndependent, NewAttrs, RenameIn;
    match rule.action
    case Drop => TakeStep(local, attrs, rule.attr, Drop);
    case To(name) => RenameStep(local, attrs, rule.attr, name, blocks);
  }

  lemma BlocksElsewhere(table: Table, rule: Rule, path: seq<string>, blocks: seq<Block>)
    requires Addable(table, rule) && |path| >= |rule.path|
    ensures NewBlocks(table, path, blocks) == NewBlocks(table[KeyOf(rule) := rule.action], path, blocks)
  {
    forall i | 0 <= i < |blocks| ensures Agree(table, table[KeyOf(rule) := rule.action], path + [blocks[i].typ]) {
      AgreesElsewhere(table, KeyOf(rule), rule.action, path + [blocks[i].typ]);
    }
    BlocksAgree(table, table[KeyOf(rule) := rule.action], path, blocks);
  }

  lemma {:induction false} StepAt(table: Table, rule: Rule, path: seq<string>, body: Body)
    requires Addable(table, rule) && InPlaceRule(rule) && path <= rule.path && FitsBelow(table, path, body)
    ensures At(NewBody(table, path, body), rule.path[|path|..], Editor(ToChange(rule))) ==
      if Good(rule, Matching(body, rule.path[|path|..])) then Some(NewBody(table[KeyOf(rule) := rule.action], path, body)) else None
    decreases |rule.path| - |path|, |body.blocks| + 1
  {
    var rest := rule.path[|path|..];
    if rest == [] {
      assert path == rule.path;
      StepHere(table, rule, body);
    } else {
      forall i | 0 <= i < |body.blocks| ensures FitsBelow(table, path + [body.blocks[i].typ], body.blocks[i].body) {
        FitsBelowBlock(table, path, body, i);
      }
      StepBlocks(table, rule, path, body.blocks);
      OnePathChanges(table, KeyOf(rule), rule.action, path);
      hide FitsBelow, Addable, NewBlocks, AtBlocks, MatchingIn, NewAttrs, Good;
    }
  }

  lemma {:induction false} StepBlocks(table: Table, rule: Rule, path: seq<string>, blocks: seq<Block>)
    requires Addable(table, rule) && InPlaceRule(rule) && path < rule.path
    requires forall i | 0 <= i < |blocks| :: FitsBelow(table, path + [blocks[i].typ], blocks[i].body)
    ensures AtBlocks(NewBlocks(table, path, blocks), rule.path[|path|..], Editor(ToChange(rule))) ==
      if Good(rule, MatchingIn(blocks, rule.path[|path|..])) then Some(NewBlocks(table[KeyOf(rule) := rule.action], path, blocks)) else None
    decreases |rule.path| - |path|, |blocks|
  {
    if blocks != [] {
      assert forall i | 0 <= i < |blocks| - 1 :: blocks[1..][i] == blocks[i + 1];
      StepBlocks(table, rule, path, blocks[1..]);
      StepBlock(table, rule, path, blocks[0]);
      hide FitsBelow, Addable, AtBlock, Matching, NewBlock;
    }
  }

  lemma StepBlock(table: Table, rule: Rule, path: seq<string>, block: Block)
    requires Addable(table, rule) && InPlaceRule(rule) && path < rule.path
    requires FitsBelow(table, path + [block.typ], block.body)
    ensures var rest := rule.path[|path|..];
      AtBlock(NewBlock(table, path, block), rest, Editor(ToChange(rule))) ==
      if block.typ != rest[0] || Good(rule, Matching(block.body, rest[1..]))
        then Some(NewBlock(table[KeyOf(rule) := rule.action], path, block)) else None
    decreases |rule.path| - |path|, 0
  {
    var rest, path' := rule.path[|path|..], path + [block.typ];
    if block.typ == rest[0] {
      assert rule.path[..|path'|] == path';
      assert rule.path[|path'|..] == rest[1..];
      StepAt(table, rule, path', block.body);
    } else {
      assert !(path' <= rule.path);
      AgreesElsewhere(table, KeyOf(rule), rule.action, path');
      BodyAgrees(table, table[KeyOf(rule) := rule.action], path', block.body);
    }
    hide FitsBelow, Addable, NewBody, At, Matching, Good;
  }
}
