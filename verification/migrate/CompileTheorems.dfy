// What the compiled edits do to a file: the whole resource translated by all its rules at once, or a
// failure, and nothing depends on the order in which the actions were found.
module CompileTheorems {
  import opened Wrappers
  import opened Sorting
  import opened Tree
  import opened Compile
  import BlockNames
  import Expressions
  import Identifier
  import Tables
  import Translate
  import TranslateAll

  // ---- The rules behind the actions ----

  function RuleOf(change: Change): Option<Translate.Rule> {
    match change
    case RenameAttribute(path, from, to) => Some(Translate.Rule(path, from, Translate.To(to)))
    case RemoveAttribute(path, attr) => Some(Translate.Rule(path, attr, Translate.Drop))
    case NestAttribute(path, attr, _, target) => Some(Translate.Rule(path, attr, Translate.Into(target)))
    case RenameBlock(_, _, _) => None
  }

  function AttributeRule(key: Key, action: Compat): Option<Translate.Rule> {
    if action.kind != Attribute then None
    else
      match CompileAttribute(key.typ, action)
      case Success(Some(change)) => RuleOf(change)
      case _ => None
  }

  function BlockRenaming(key: Key, action: Compat): Option<BlockNames.Renaming> {
    if action.kind != ServiceBlock then None
    else
      match CompileServiceBlock(key.typ, action)
      case Success(Some(RenameBlock(_, from, to))) => Some(BlockNames.Renaming(from, to))
      case _ => None
  }

  function AsSeq<T>(o: Option<T>): seq<T> {
    match o case None => [] case Some(x) => [x]
  }

  function AttributeRules(key: Key, actions: seq<Compat>): seq<Translate.Rule> {
    if actions == [] then [] else AsSeq(AttributeRule(key, actions[0])) + AttributeRules(key, actions[1..])
  }

  function BlockRenamings(key: Key, actions: seq<Compat>): seq<BlockNames.Renaming> {
    if actions == [] then [] else AsSeq(BlockRenaming(key, actions[0])) + BlockRenamings(key, actions[1..])
  }

  function Conversions(key: Key, actions: seq<Compat>): seq<Edit> {
    if actions == [] then []
    else (if actions[0].kind == Resource then [RenameResource(key.typ, TARGET_SERVICE, key.name)] else []) + Conversions(key, actions[1..])
  }

  lemma {:induction false} RuleMembers(key: Key, actions: seq<Compat>)
    ensures forall r :: r in AttributeRules(key, actions) <==> exists a | a in actions :: AttributeRule(key, a) == Some(r)
    ensures forall r :: r in BlockRenamings(key, actions) <==> exists a | a in actions :: BlockRenaming(key, a) == Some(r)
  {
    hide AttributeRule, BlockRenaming;
    if actions != [] {
      RuleMembers(key, actions[1..]);
      assert forall a :: a in actions <==> a == actions[0] || a in actions[1..];
    }
  }

  // ---- What an action says ----

  // The dotted route of a path.
  function Dotted(parts: seq<string>): string {
    if parts == [] then "" else if |parts| == 1 then parts[0] else parts[0] + "." + Dotted(parts[1..])
  }

  lemma {:induction false} DottedParts(route: string)
    ensures Dotted(Parts(route)) == route
    ensures forall p | p in Parts(route) :: '.' !in p
    decreases |route|
  {
    if route != "" {
      DottedParts(route[1..]);
      var rest := Parts(route[1..]);
      assert route == [route[0]] + route[1..];
      if route[0] == '.' {
        assert ([""] + rest)[1..] == rest;
        assert "" + "." + Dotted(rest) == route;
      } else {
        var parts := [[route[0]] + rest[0]] + rest[1..];
        assert parts[1..] == rest[1..];
        if |rest| > 1 {
          assert [route[0]] + rest[0] + "." + Dotted(rest[1..]) == [route[0]] + (rest[0] + "." + Dotted(rest[1..]));
        }
        assert forall p | p in parts :: p == parts[0] || p in rest;
        assert rest[0] in rest;
      }
    }
  }

  lemma {:induction false} PartsOfDotted(parts: seq<string>)
    requires parts != [] && forall p | p in parts :: '.' !in p
    ensures Parts(Dotted(parts)) == parts
    decreases |parts|, |parts[0]|
  {
    assert parts[0] in parts;
    if |parts| == 1 && parts[0] == "" {
    } else if parts[0] == "" {
      assert Dotted(parts)[1..] == Dotted(parts[1..]);
      PartsOfDotted(parts[1..]);
    } else {
      var shorter := [parts[0][1..]] + parts[1..];
      assert shorter[1..] == parts[1..];
      assert Dotted(parts)[0] == parts[0][0] && Dotted(parts)[1..] == Dotted(shorter);
      assert forall p | p in shorter :: p == parts[0][1..] || p in parts;
      PartsOfDotted(shorter);
      assert [parts[0][0]] + parts[0][1..] == parts[0];
    }
  }

  predicate Plain(parts: seq<string>) {
    forall p | p in parts :: '.' !in p
  }

  // Compiling a route gives these parts exactly when the route is theirs.
  lemma RouteIff(route: string, parts: seq<string>)
    requires parts != [] && Plain(parts)
    ensures Parts(route) == parts <==> route == Dotted(parts)
  {
    DottedParts(route);
    PartsOfDotted(parts);
  }

  // A route taken apart into its resource type, the blocks in between, and the attribute.
  lemma RouteShape(s: seq<string>, first: string, middle: seq<string>, last: string)
    ensures s == [first] + middle + [last] <==> |s| >= 2 && s[0] == first && s[1..|s| - 1] == middle && Last(s) == last
  {
    if |s| >= 2 { assert s == [s[0]] + s[1..|s| - 1] + [Last(s)]; }
    if s == [first] + middle + [last] { assert s[1..|s| - 1] == middle; }
  }

  // A rename rule turns into the rename of one attribute exactly when its two routes name that
  // attribute, under the same blocks, by its old and its new name.
  lemma RenameRuleIff(typ: string, rule: Compat, parents: seq<string>, from: string, to: string)
    requires rule.hcl == Rename && Plain([typ] + parents + [from, to])
    ensures CompileAttribute(typ, rule) == Success(Some(Tree.RenameAttribute(parents, from, to))) <==>
      && rule.id != "cdn-rate-limiter-id"
      && rule.legacy == Dotted([typ] + parents + [from]) && rule.target == Dotted(["fastly_service_cdn_auto"] + parents + [to])
  {
    var source, target := [typ] + parents + [from], [TARGET_SERVICE] + parents + [to];
    PlainRoutes(typ, parents, from, to);
    RouteIff(rule.legacy, source);
    RouteIff(rule.target, target);
    var s, t := Parts(rule.legacy), Parts(rule.target);
    hide Parts, Dotted, Plain;
    RouteShape(s, typ, parents, from);
    RouteShape(t, TARGET_SERVICE, parents, to);
    assert |t| >= 2 ==> t[1..][..|t[1..]| - 1] == t[1..|t| - 1] && Last(t[1..]) == Last(t);
  }

  lemma PlainRoutes(typ: string, parents: seq<string>, from: string, to: string)
    requires Plain([typ] + parents + [from, to])
    ensures Plain([typ] + parents + [from]) && Plain([TARGET_SERVICE] + parents + [to])
  {
    var all := [typ] + parents + [from, to];
    assert forall p | p in [typ] + parents + [from] :: p in all;
    assert forall p | p in [TARGET_SERVICE] + parents + [to] :: p in all || p == TARGET_SERVICE;
    assert '.' !in TARGET_SERVICE;
  }

  // A reshape rule turns into a move into the settings block exactly when its routes lead from a
  // top-level attribute to one in that block.
  lemma ReshapeRuleIff(typ: string, rule: Compat, attr: string, target: string)
    requires rule.hcl == Reshape && Plain([typ, attr, target])
    ensures CompileAttribute(typ, rule) == Success(Some(Tree.NestAttribute([], attr, "settings", target))) <==>
      rule.legacy == Dotted([typ, attr]) && rule.target == Dotted(["fastly_service_cdn_auto", "settings", target])
  {
    var all := [typ, attr, target];
    assert typ in all && attr in all && target in all;
    RouteIff(rule.legacy, [typ, attr]);
    RouteIff(rule.target, [TARGET_SERVICE, Translate.SETTINGS, target]);
    var s, t := Parts(rule.legacy), Parts(rule.target);
    hide Parts, Dotted;
    assert [typ, attr][1..1] == [] && [TARGET_SERVICE, Translate.SETTINGS, target][1..] == [Translate.SETTINGS, target];
    if CompileAttribute(typ, rule) == Success(Some(Tree.NestAttribute([], attr, Translate.SETTINGS, target))) {
      assert |s| == 2 && s == [s[0], s[1]];
      assert |t| == 3 && t == [t[0], t[1..][0], t[1..][1]];
    }
  }

  // Removals have no target.
  lemma RemoveRuleIff(typ: string, rule: Compat, parents: seq<string>, attr: string)
    requires rule.hcl == Remove && Plain([typ] + parents + [attr])
    ensures CompileAttribute(typ, rule) == Success(Some(Tree.RemoveAttribute(parents, attr))) <==>
      rule.legacy == Dotted([typ] + parents + [attr]) && rule.target == ""
  {
    RouteIff(rule.legacy, [typ] + parents + [attr]);
    var s := Parts(rule.legacy);
    hide Parts, Dotted, Plain;
    RouteShape(s, typ, parents, attr);
  }

  lemma BlockRuleIff(typ: string, rule: Compat, from: string, to: string)
    requires rule.hcl == Rename && Plain([typ, from, to])
    ensures CompileServiceBlock(typ, rule) == Success(Some(Tree.RenameBlock([], from, to))) <==>
      rule.legacy == Dotted([typ, from]) && rule.target == Dotted(["fastly_service_cdn_auto", to])
  {
    var all := [typ, from, to];
    assert typ in all && from in all && to in all;
    RouteIff(rule.legacy, [typ, from]);
    RouteIff(rule.target, [TARGET_SERVICE, to]);
    var s, t := Parts(rule.legacy), Parts(rule.target);
    hide Parts, Dotted;
    assert |s| == 2 ==> s == [s[0], s[1]];
    assert |t| == 2 ==> t == [t[0], t[1]];
  }

  // No other edit comes of an attribute rule: each strategy has its own, a rule that changes nothing
  // has none, and all other strategies are refused.
  lemma AttributeEdits(typ: string, rule: Compat)
    ensures var s, r := Parts(rule.legacy), CompileAttribute(typ, rule);
      && (r == Success(None) <==> rule.hcl == Unchanged && |s| >= 2 && s[0] == typ)
      && (r.Success? && r.value.Some? ==>
            && |s| >= 2 && s[0] == typ
            && match r.value.value
               case RenameAttribute(_, _, _) => rule.hcl == Rename
               case RemoveAttribute(_, _) => rule.hcl == Remove
               case NestAttribute(path, _, block, _) => rule.hcl == Reshape && path == [] && block == "settings"
               case RenameBlock(_, _, _) => false)
      && (rule.hcl in {Split, Reject, UnknownStrategy} ==> r == Failure(Unsupported(rule)))
  {
  }

  // A block rule renames a block, or names the same block on both sides and changes nothing.
  lemma BlockEdits(typ: string, rule: Compat)
    ensures var s, t, r := Parts(rule.legacy), Parts(rule.target), CompileServiceBlock(typ, rule);
      && (r == Success(None) <==>
            && (rule.hcl == Unchanged || rule.hcl == Reshape)
            && |s| == 2 && |t| == 2 && s[0] == typ && t[0] == "fastly_service_cdn_auto" && s[1] == t[1])
      && (r.Success? && r.value.Some? ==> rule.hcl == Rename && r.value.value.RenameBlock? && r.value.value.path == [])
      && (rule.hcl in {Split, Remove, Reject, UnknownStrategy} ==> r == Failure(Unsupported(rule)))
  {
  }

  // An action has a writer exactly when its rule compiles, or it is the one conversion of a service.
  lemma ActionCompilesIff(key: Key, action: Compat)
    ensures CompileAction(key, action).Success? <==>
      match action.kind
      case Attribute => CompileAttribute(key.typ, action).Success?
      case ServiceBlock => CompileServiceBlock(key.typ, action).Success?
      case Resource =>
        && action.id == "resource-service-vcl" && action.legacy == key.typ && action.target == "fastly_service_cdn_auto"
        && action.hcl == Reshape && action.stateMoves
      case Product => false
      case UnknownKind => false
    ensures action.kind == Resource && CompileAction(key, action).Success? ==>
      CompileAction(key, action).value == Some(Tree.RenameResource(key.typ, "fastly_service_cdn_auto", key.name))
  {
  }

  lemma NoIndexIssue(key: Key, index: Index)
    ensures IndexIssues(key, index) == multiset{} <==>
      && Get(index.resources, FromAddress(key)) == key.file && Get(index.resources, ToAddress(key)) == ""
      && (forall from | from in index.moves :: from == FromAddress(key) <==> index.moves[from] == ToAddress(key))
  {
    var from, to := FromAddress(key), ToAddress(key);
    hide FromAddress, ToAddress, Get;
    var taken := Taken(index.moves.Keys, index.moves, from, to);
    assert taken == {} <==> forall p | p in index.moves :: index.moves[p] == to ==> p == from by {
      forall p | p in index.moves && index.moves[p] == to && p != from ensures TargetTaken(p) in taken {}
    }
    assert multiset(taken) == multiset{} <==> taken == {} by {
      if taken != {} {
        var x :| x in taken;
        assert x in multiset(taken);
      }
    }
    var a := Issues(Get(index.resources, from) != key.file, NotAtLocation);
    var b := Issues(Get(index.resources, to) != "", TargetExists(Get(index.resources, to)));
    var c := Issues(from in index.moves && index.moves[from] != to, MovedElsewhere(Get(index.moves, from)));
    assert IndexIssues(key, index) == a + b + c + multiset(taken);
    assert a + b + c + multiset(taken) == multiset{} <==> |a| + |b| + |c| + |multiset(taken)| == 0;
    hide Taken, IndexIssues;
  }

  // The index has no objection exactly when the resource is where it was analyzed, its new address is
  // free, and no moved block leads elsewhere from the old address or from elsewhere to the new one.
  lemma IndexCleanIff(key: Key, index: Index)
    ensures IndexIssues(key, index) == multiset{} <==>
      var from, to := key.typ + "." + key.name, "fastly_service_cdn_auto." + key.name;
      && Get(index.resources, from) == key.file && Get(index.resources, to) == ""
      && (forall before | before in index.moves :: before == from <==> index.moves[before] == to)
  {
    NoIndexIssue(key, index);
    hide IndexIssues, Get;
    assert ToAddress(key) == "fastly_service_cdn_auto." + key.name;
  }

  // ---- What compiles ----

  lemma {:induction false} NoIssueIff(key: Key, actions: seq<Compat>)
    ensures ActionIssues(key, actions) == multiset{} <==> forall a | a in actions :: CompileAction(key, a).Success?
  {
    hide CompileAction;
    if actions != [] {
      NoIssueIff(key, actions[1..]);
      assert forall a :: a in actions <==> a == actions[0] || a in actions[1..];
      var first := CompileAction(key, actions[0]);
      assert first.Failure? ==> first.error in ActionIssues(key, actions);
    }
  }

  // A service resource compiles exactly when the module's index has no objection, every action has a
  // writer, and one of them converts the service; how the actions are ordered does not matter.
  lemma CompilesIff(key: Key, actions: seq<Compat>, index: Index)
    requires key.typ == LEGACY_SERVICE
    ensures CompiledFrom(key, actions, index).move.Some? <==>
      && IndexIssues(key, index) == multiset{} && (forall a | a in actions :: CompileAction(key, a).Success?)
      && exists a | a in actions :: a.kind == Resource
    ensures CompiledFrom(key, actions, index).move.Some? <==> CompiledFrom(key, actions, index).issues == multiset{}
    ensures CompiledFrom(key, actions, index).move.None? ==> CompiledFrom(key, actions, index).edits == []
  {
    var sorted := Sort(actions, Before);
    SameMembers(sorted, actions);
    NoIssueIff(key, sorted);
    hide CompileAction, IndexIssues, Sort, ActionIssues, ConvertsService;
    assert FindsService(key, sorted) <==> FindsService(key, actions);
    var x, y, z := IndexIssues(key, index), ActionIssues(key, sorted), Issues(!FindsService(key, sorted), NoServiceConversion);
    assert AllIssues(key, sorted, index) == multiset{} <==> |x| + |y| + |z| == 0;
  }

  // The order the edits come in: attributes, then blocks, then the resource, and by route within each.
  lemma ActionOrder(key: Key, actions: seq<Compat>, index: Index)
    requires CompiledFrom(key, actions, index).move.Some?
    ensures exists sorted: seq<Compat> ::
      InOrder(actions, sorted) && CompiledFrom(key, actions, index).edits == ActionEdits(key, sorted) + MovedEdit(key, index)
  {
    SortInOrder(actions);
    hide ActionEdits, AllIssues, Sort, Before, InOrder, MovedEdit;
    assert CompiledFrom(key, actions, index).edits == ActionEdits(key, Sort(actions, Before)) + MovedEdit(key, index);
  }

  lemma SortInOrder(actions: seq<Compat>)
    ensures InOrder(actions, Sort(actions, Before))
  {
    var sorted := Sort(actions, Before);
    BeforeIsOrder();
    SortSorted(actions, Before);
    hide Sort, StringLess;
    forall i, j | 0 <= i < j < |sorted| ensures NotAfter(sorted[i], sorted[j]) {
      assert !Before(sorted[j], sorted[i]);
    }
  }

  predicate NotAfter(x: Compat, y: Compat) {
    match x.kind
    case Attribute => y.kind != Attribute || !StringLess(y.legacy, x.legacy)
    case ServiceBlock => y.kind != Attribute && (y.kind != ServiceBlock || !StringLess(y.legacy, x.legacy))
    case Resource => y.kind != Attribute && y.kind != ServiceBlock && (y.kind != Resource || !StringLess(y.legacy, x.legacy))
    case _ => y.kind != Attribute && y.kind != ServiceBlock && y.kind != Resource
  }

  ghost predicate InOrder(actions: seq<Compat>, sorted: seq<Compat>) {
    multiset(sorted) == multiset(actions) && forall i, j | 0 <= i < j < |sorted| :: NotAfter(sorted[i], sorted[j])
  }

  // What a compiled resource leaves behind: one moved block from its old address to its new one, as the
  // last edit and in the migration file of its own module, unless the module moves the old address
  // already; every other edit is for its own file. The move itself is reported in both cases.
  lemma MovedBlockWritten(key: Key, actions: seq<Compat>, index: Index)
    requires CompiledFrom(key, actions, index).move.Some?
    ensures var r := CompiledFrom(key, actions, index);
      var from, to := key.typ + "." + key.name, "fastly_service_cdn_auto." + key.name;
      var file := if key.dir == "." then "migration.tf" else key.dir + "/migration.tf";
      var written := if from in index.moves then [] else [FileEdit(file, Tree.AddMoved(from, to))];
      && key.typ == "fastly_service_vcl" && r.move == Some(Move(key.dir, from, to))
      && |r.edits| >= |written| && r.edits[|r.edits| - |written|..] == written
      && forall e | e in r.edits[..|r.edits| - |written|] :: e.file == key.file && !e.edit.AddMoved?
  {
    var own := ActionEdits(key, Sort(actions, Before));
    NoMovesInActions(key, Sort(actions, Before));
    hide ActionEdits, AllIssues, Sort;
    assert ToAddress(key) == "fastly_service_cdn_auto." + key.name;
    var edits := own + MovedEdit(key, index);
    assert CompiledFrom(key, actions, index).edits == edits && edits[..|own|] == own && edits[|own|..] == MovedEdit(key, index);
  }

  lemma {:induction false} NoMovesInActions(key: Key, actions: seq<Compat>)
    ensures forall e | e in ActionEdits(key, actions) :: e.file == key.file && !e.edit.AddMoved?
  {
    if actions != [] {
      NoMovesInActions(key, actions[1..]);
      hide CompileAttribute, CompileServiceBlock;
    }
  }

  // Resources of other types are left alone, with one issue for each action.
  lemma {:induction false} OtherTypesRefused(key: Key, actions: seq<Compat>, index: Index)
    requires key.typ != "fastly_service_vcl"
    ensures var r := CompiledFrom(key, actions, index); r.edits == [] && r.move == None && |r.issues| == |actions|
    ensures forall a | a in actions :: NoWriter(a) in CompiledFrom(key, actions, index).issues
  {
    if actions != [] {
      OtherTypesRefused(key, actions[1..], index);
    }
  }

  // ---- The phases of the edit list ----

  function Own(key: Key, changes: seq<Change>): (edits: seq<Edit>)
    ensures |edits| == |changes|
  {
    if changes == [] then [] else [Tree.InResource(key.typ, key.name, changes[0])] + Own(key, changes[1..])
  }

  function Edits(located: seq<FileEdit>): seq<Edit> {
    if located == [] then [] else [located[0].edit] + Edits(located[1..])
  }

  ghost predicate RankSorted(actions: seq<Compat>) {
    forall i, j | 0 <= i < j < |actions| :: Rank(actions[i].kind) <= Rank(actions[j].kind)
  }

  lemma {:induction false} PhaseOver(key: Key, actions: seq<Compat>)
    ensures (forall a | a in actions :: Rank(a.kind) >= 1) ==> AttributeRules(key, actions) == []
    ensures (forall a | a in actions :: Rank(a.kind) >= 2) ==> BlockRenamings(key, actions) == []
  {
    if actions != [] {
      PhaseOver(key, actions[1..]);
      assert forall a :: a in actions <==> a == actions[0] || a in actions[1..];
    }
  }

  // One action contributes to one phase.
  lemma OneEdit(key: Key, a: Compat)
    requires CompileAction(key, a).Success?
    ensures var attributes, blocks := Own(key, TranslateAll.ToChanges(AsSeq(AttributeRule(key, a)))),
        Own(key, BlockNames.ToChanges(AsSeq(BlockRenaming(key, a))));
      AsSeq(CompileAction(key, a).value) ==
      match a.kind
      case Attribute => attributes
      case ServiceBlock => blocks
      case _ => [RenameResource(key.typ, TARGET_SERVICE, key.name)]
    ensures a.kind == Attribute || a.kind == ServiceBlock || a.kind == Resource
    ensures a.kind != Attribute ==> AttributeRule(key, a) == None
    ensures a.kind != ServiceBlock ==> BlockRenaming(key, a) == None
  {
  }

  lemma {:induction false} OwnAppend(key: Key, xs: seq<Change>, ys: seq<Change>)
    ensures Own(key, xs + ys) == Own(key, xs) + Own(key, ys)
  {
    if xs == [] {
      assert xs + ys == ys;
    } else {
      assert (xs + ys)[1..] == xs[1..] + ys;
      OwnAppend(key, xs[1..], ys);
    }
  }

  lemma {:induction false} AttributeChangesAppend(xs: seq<Translate.Rule>, ys: seq<Translate.Rule>)
    ensures TranslateAll.ToChanges(xs + ys) == TranslateAll.ToChanges(xs) + TranslateAll.ToChanges(ys)
  {
    if xs == [] {
      assert xs + ys == ys;
    } else {
      assert (xs + ys)[1..] == xs[1..] + ys;
      AttributeChangesAppend(xs[1..], ys);
    }
  }

  lemma {:induction false} BlockChangesAppend(xs: seq<BlockNames.Renaming>, ys: seq<BlockNames.Renaming>)
    ensures BlockNames.ToChanges(xs + ys) == BlockNames.ToChanges(xs) + BlockNames.ToChanges(ys)
  {
    if xs == [] {
      assert xs + ys == ys;
    } else {
      assert (xs + ys)[1..] == xs[1..] + ys;
      BlockChangesAppend(xs[1..], ys);
    }
  }

  function AttributePhase(key: Key, actions: seq<Compat>): seq<Edit> {
    Own(key, TranslateAll.ToChanges(AttributeRules(key, actions)))
  }

  function BlockPhase(key: Key, actions: seq<Compat>): seq<Edit> {
    Own(key, BlockNames.ToChanges(BlockRenamings(key, actions)))
  }

  // Sorted by rank, the edits come in phases: attributes while their blocks have their old names,
  // then blocks, then the resource itself.
  lemma {:induction false} Phases(key: Key, actions: seq<Compat>)
    requires RankSorted(actions) && forall a | a in actions :: CompileAction(key, a).Success?
    ensures Edits(ActionEdits(key, actions)) == AttributePhase(key, actions) + BlockPhase(key, actions) + Conversions(key, actions)
  {
    if actions != [] {
      var a, rest := actions[0], actions[1..];
      assert actions == [a] + rest;
      assert forall x :: x in actions <==> x == a || x in rest;
      assert forall x | x in rest :: Rank(x.kind) >= Rank(a.kind);
      hide CompileAction, ActionEdits, Edits, AttributePhase, BlockPhase, Conversions;
      Phases(key, rest);
      PhaseOver(key, rest);
      FirstEdits(key, a, rest);
      FirstInPhase(key, a, rest);
      Sequenced(AsSeq(CompileAction(key, a).value), AttributePhase(key, [a]), AttributePhase(key, rest),
                BlockPhase(key, [a]), BlockPhase(key, rest), Conversions(key, [a]), Conversions(key, rest));
    }
  }

  lemma Sequenced<T>(more: seq<T>, p: seq<T>, q: seq<T>, r: seq<T>, s: seq<T>, t: seq<T>, u: seq<T>)
    requires more == p + r + t
    requires r != [] || t != [] ==> q == []
    requires t != [] ==> s == []
    ensures more + (q + s + u) == (p + q) + (r + s) + (t + u)
  {
  }

  lemma FirstInPhase(key: Key, a: Compat, rest: seq<Compat>)
    requires CompileAction(key, a).Success?
    requires Rank(a.kind) >= 1 ==> AttributeRules(key, rest) == []
    requires Rank(a.kind) >= 2 ==> BlockRenamings(key, rest) == []
    ensures AsSeq(CompileAction(key, a).value) == AttributePhase(key, [a]) + BlockPhase(key, [a]) + Conversions(key, [a])
    ensures AttributePhase(key, [a] + rest) == AttributePhase(key, [a]) + AttributePhase(key, rest)
    ensures BlockPhase(key, [a] + rest) == BlockPhase(key, [a]) + BlockPhase(key, rest)
    ensures Conversions(key, [a] + rest) == Conversions(key, [a]) + Conversions(key, rest)
    ensures BlockPhase(key, [a]) != [] || Conversions(key, [a]) != [] ==> AttributePhase(key, rest) == []
    ensures Conversions(key, [a]) != [] ==> BlockPhase(key, rest) == []
  {
    SinglePhase(key, a);
    PhasesAppend(key, a, rest);
    assert AttributeRules(key, rest) == [] ==> AttributePhase(key, rest) == [];
    assert BlockRenamings(key, rest) == [] ==> BlockPhase(key, rest) == [];
    hide CompileAction, AttributePhase, BlockPhase, Conversions;
  }

  lemma SinglePhase(key: Key, a: Compat)
    requires CompileAction(key, a).Success?
    ensures AsSeq(CompileAction(key, a).value) == AttributePhase(key, [a]) + BlockPhase(key, [a]) + Conversions(key, [a])
    ensures a.kind != Attribute ==> AttributePhase(key, [a]) == []
    ensures a.kind != ServiceBlock ==> BlockPhase(key, [a]) == []
    ensures a.kind != Resource ==> Conversions(key, [a]) == []
    ensures a.kind == Attribute || a.kind == ServiceBlock || a.kind == Resource
  {
    OneEdit(key, a);
    hide CompileAction, AttributeRule, BlockRenaming;
    assert [a][1..] == [];
    assert BlockRenamings(key, [a]) == AsSeq(BlockRenaming(key, a)) && AttributeRules(key, [a]) == AsSeq(AttributeRule(key, a));
  }

  lemma PhasesAppend(key: Key, a: Compat, rest: seq<Compat>)
    ensures AttributePhase(key, [a] + rest) == AttributePhase(key, [a]) + AttributePhase(key, rest)
    ensures BlockPhase(key, [a] + rest) == BlockPhase(key, [a]) + BlockPhase(key, rest)
    ensures Conversions(key, [a] + rest) == Conversions(key, [a]) + Conversions(key, rest)
  {
    hide AttributeRule, BlockRenaming;
    assert ([a] + rest)[0] == a && ([a] + rest)[1..] == rest && [a][1..] == [];
    var x, y := AsSeq(AttributeRule(key, a)), AsSeq(BlockRenaming(key, a));
    assert x + [] == x && y + [] == y;
    assert AttributeRules(key, [a]) == x;
    assert BlockRenamings(key, [a]) == y;
    AttributeChangesAppend(x, AttributeRules(key, rest));
    BlockChangesAppend(y, BlockRenamings(key, rest));
    OwnAppend(key, TranslateAll.ToChanges(x), TranslateAll.ToChanges(AttributeRules(key, rest)));
    OwnAppend(key, BlockNames.ToChanges(y), BlockNames.ToChanges(BlockRenamings(key, rest)));
  }

  lemma FirstEdits(key: Key, a: Compat, rest: seq<Compat>)
    requires CompileAction(key, a).Success?
    ensures Edits(ActionEdits(key, [a] + rest)) == AsSeq(CompileAction(key, a).value) + Edits(ActionEdits(key, rest))
  {
    hide CompileAction;
    assert ([a] + rest)[1..] == rest;
    var later := ActionEdits(key, rest);
    if CompileAction(key, a).value.Some? {
      assert ([FileEdit(key.file, CompileAction(key, a).value.value)] + later)[1..] == later;
    } else {
      assert [] + later == later;
      assert [] + Edits(later) == Edits(later);
    }
  }

  // ---- Running the phases on a file ----

  lemma {:induction false} RunAppend(file: Body, xs: seq<Edit>, ys: seq<Edit>, isAddress: string -> bool)
    ensures RunEdits(file, xs + ys, isAddress) ==
      match RunEdits(file, xs, isAddress) case None => None case Some(next) => RunEdits(next, ys, isAddress)
    decreases |xs|
  {
    hide AppliedTo;
    if xs == [] {
      assert xs + ys == ys;
    } else {
      assert (xs + ys)[0] == xs[0] && (xs + ys)[1..] == xs[1..] + ys;
      var next := AppliedTo(file, xs[0], isAddress);
      if next.Some? { RunAppend(next.value, xs[1..], ys, isAddress); }
    }
  }

  lemma {:induction false} RunChangesAppend(body: Body, xs: seq<Change>, ys: seq<Change>)
    ensures RunChanges(body, xs + ys) == match RunChanges(body, xs) case None => None case Some(next) => RunChanges(next, ys)
    decreases |xs|
  {
    hide Applied;
    if xs == [] {
      assert xs + ys == ys;
    } else {
      assert (xs + ys)[0] == xs[0] && (xs + ys)[1..] == xs[1..] + ys;
      var next := Applied(body, xs[0]);
      if next.Some? { RunChangesAppend(next.value, xs[1..], ys); }
    }
  }

  function WithBody(file: Body, i: nat, body: Body): Body
    requires i < |file.blocks|
  {
    file.(blocks := file.blocks[i := file.blocks[i].(body := body)])
  }

  // Changes of one resource run on its body; the rest of the file is not looked at.
  lemma {:induction false} RunInResource(key: Key, file: Body, changes: seq<Change>, isAddress: string -> bool)
    requires Find(file.blocks, key.typ, key.name) < |file.blocks|
    ensures var i := Find(file.blocks, key.typ, key.name);
      RunEdits(file, Own(key, changes), isAddress) ==
      match RunChanges(file.blocks[i].body, changes) case None => None case Some(body) => Some(WithBody(file, i, body))
    decreases |changes|
  {
    var i := Find(file.blocks, key.typ, key.name);
    hide Applied, Find;
    if changes == [] {
      assert file.blocks[i := file.blocks[i].(body := file.blocks[i].body)] == file.blocks;
    } else {
      assert Own(key, changes)[1..] == Own(key, changes[1..]);
      var next := Applied(file.blocks[i].body, changes[0]);
      if next.Some? {
        var file' := WithBody(file, i, next.value);
        FindStays(file.blocks, key.typ, key.name, i, next.value);
        RunInResource(key, file', changes[1..], isAddress);
        forall body ensures WithBody(file', i, body) == WithBody(file, i, body) {
          assert file'.blocks[i := file'.blocks[i].(body := body)] == file.blocks[i := file.blocks[i].(body := body)];
        }
      }
    }
  }

  // The file declares the resource once, and nothing under its new address.
  predicate Declared(key: Key, file: Body) {
    var i := Find(file.blocks, key.typ, key.name);
    && i < |file.blocks|
    && (forall k | i < k < |file.blocks| :: !IsResource(file.blocks[k], key.typ, key.name))
    && Find(file.blocks, TARGET_SERVICE, key.name) == |file.blocks|
  }

  function Converted(file: Body, i: nat, name: string): Body
    requires i < |file.blocks|
  {
    file.(blocks := file.blocks[i := file.blocks[i].(labels := [TARGET_SERVICE, name])])
  }

  lemma AfterConversion(key: Key, file: Body)
    requires key.typ == LEGACY_SERVICE && Declared(key, file)
    ensures var i := Find(file.blocks, key.typ, key.name);
      var after := Converted(file, i, key.name);
      && AppliedTo(file, RenameResource(key.typ, TARGET_SERVICE, key.name), _ => true) == Some(after)
      && Find(after.blocks, key.typ, key.name) == |after.blocks| && Find(after.blocks, TARGET_SERVICE, key.name) == i
  {
    var i := Find(file.blocks, key.typ, key.name);
    var after := Converted(file, i, key.name);
    FindFirst(after.blocks, TARGET_SERVICE, key.name, i);
    FindFirst(after.blocks, key.typ, key.name, |after.blocks|);
    ServiceNames();
  }

  lemma ServiceNames()
    ensures LEGACY_SERVICE != TARGET_SERVICE && Identifier.ValidIdentifier(TARGET_SERVICE)
  {
    assert |LEGACY_SERVICE| != |TARGET_SERVICE|;
  }

  // The conversion of the resource runs once; repeating it changes nothing.
  lemma {:induction false} RunConversions(key: Key, actions: seq<Compat>, file: Body, isAddress: string -> bool)
    requires key.typ == LEGACY_SERVICE && Declared(key, file)
    ensures RunEdits(file, Conversions(key, actions), isAddress) ==
      if exists a | a in actions :: a.kind == Resource then Some(Converted(file, Find(file.blocks, key.typ, key.name), key.name)) else Some(file)
    ensures RunEdits(Converted(file, Find(file.blocks, key.typ, key.name), key.name), Conversions(key, actions), isAddress) ==
      Some(Converted(file, Find(file.blocks, key.typ, key.name), key.name))
  {
    if actions != [] {
      assert forall a :: a in actions <==> a == actions[0] || a in actions[1..];
      RunConversions(key, actions[1..], file, isAddress);
      AfterConversion(key, file);
      ServiceNames();
      hide Find, Declared;
      var later := Conversions(key, actions[1..]);
      assert [] + later == later;
      assert ([RenameResource(key.typ, TARGET_SERVICE, key.name)] + later)[1..] == later;
    }
  }

  // ---- The whole migration of a resource ----

  // The resource at position i, translated by all its rules at once and under its new type.
  ghost function Migrated(file: Body, i: nat, name: string, table: Translate.Table, names: BlockNames.Names): Body
    requires i < |file.blocks|
  {
    var body := BlockNames.RenamedBody(names, Translate.Translated(table, file.blocks[i].body));
    file.(blocks := file.blocks[i := Block(file.blocks[i].typ, [TARGET_SERVICE, name], body)])
  }

  // The rules of the actions do not get in each other's way, and no block rule touches the settings.
  ghost predicate Independent(rules: seq<Translate.Rule>, renamings: seq<BlockNames.Renaming>) {
    && TranslateAll.Agreeing(rules) && Translate.Independent(Translate.Extended(map[], rules))
    && BlockNames.Agreeing(renamings) && BlockNames.Separate(BlockNames.Extended(map[], renamings))
    && forall r | r in renamings :: r.from != Translate.SETTINGS && r.to != Translate.SETTINGS
  }

  // Block renames find the same blocks in the translated body as in the original.
  lemma FitAfterTranslation(renamings: seq<BlockNames.Renaming>, table: Translate.Table, body: Body)
    requires forall r | r in renamings :: r.from != Translate.SETTINGS && r.to != Translate.SETTINGS
    ensures BlockNames.AllFit(renamings, Translate.Translated(table, body)) <==> BlockNames.AllFit(renamings, body)
  {
    forall r | r in renamings ensures BlockNames.Fits(r, Translate.Translated(table, body)) <==> BlockNames.Fits(r, body) {
      SameCount(table, body, r.from);
      SameCount(table, body, r.to);
      hide Translate.Translated, Count;
    }
    hide BlockNames.Fits;
  }

  lemma SameCount(table: Translate.Table, body: Body, typ: string)
    requires typ != Translate.SETTINGS
    ensures Count(Translate.Translated(table, body).blocks, typ) == Count(body.blocks, typ)
  {
    var blocks := Translate.NewBlocks(table, [], body.blocks);
    TranslateAll.SameFirst(table, [], body.blocks, typ);
    CountInserted(blocks, Translate.SETTINGS, Translate.Incoming(Translate.AtPath(table, []), body.attrs), typ);
  }

  lemma {:induction false} CountInserted(blocks: seq<Block>, typ: string, attrs: map<string, string>, other: string)
    requires typ != other
    ensures Count(Inserted(blocks, typ, attrs), other) == Count(blocks, other)
    decreases |blocks|
  {
    var all := Inserted(blocks, typ, attrs);
    if blocks == [] {
      assert all == [Block(typ, [], Body(attrs, []))] && all[1..] == [];
    } else {
      TranslateAll.InsertedFirst(blocks, typ, attrs);
      if blocks[0].typ == typ {
        assert all[1..] == blocks[1..];
      } else {
        CountInserted(blocks[1..], typ, attrs, other);
        assert all[1..] == Inserted(blocks[1..], typ, attrs);
      }
    }
  }

  // The attribute and block edits of a resource on its body.
  lemma BodyMigrates(rules: seq<Translate.Rule>, renamings: seq<BlockNames.Renaming>, body: Body)
    requires Independent(rules, renamings)
    ensures RunChanges(body, TranslateAll.ToChanges(rules) + BlockNames.ToChanges(renamings)) ==
      if TranslateAll.AllFit(rules, body) && BlockNames.AllFit(renamings, body)
        then Some(BlockNames.RenamedBody(BlockNames.Extended(map[], renamings), Translate.Translated(Translate.Extended(map[], rules), body)))
        else None
  {
    var table := Translate.Extended(map[], rules);
    RunChangesAppend(body, TranslateAll.ToChanges(rules), BlockNames.ToChanges(renamings));
    FitAfterTranslation(renamings, table, body);
    hide Translate.Independent, BlockNames.Separate, TranslateAll.AllFit, BlockNames.AllFit, Translate.Translated, BlockNames.RenamedBody, RunChanges;
    TranslateAll.RulesTranslate(rules, body);
    BlockNames.RenamingsTranslate(renamings, Translate.Translated(table, body));
  }

  // What the edits of a resource come to: the file migrated, or a failure when some rule does not fit.
  ghost function Outcome(key: Key, file: Body, rules: seq<Translate.Rule>, renamings: seq<BlockNames.Renaming>): Option<Body>
    requires Find(file.blocks, key.typ, key.name) < |file.blocks|
  {
    var i := Find(file.blocks, key.typ, key.name);
    if TranslateAll.AllFit(rules, file.blocks[i].body) && BlockNames.AllFit(renamings, file.blocks[i].body)
      then Some(Migrated(file, i, key.name, Translate.Extended(map[], rules), BlockNames.Extended(map[], renamings))) else None
  }

  // Everything outside the resource is as before; the resource has its new address, and each of its
  // expressions and blocks is where the rules take it.
  ghost predicate FileKept(file: Body, i: nat, name: string, table: Translate.Table, names: BlockNames.Names, out: Body)
    requires i < |file.blocks|
  {
    && out.attrs == file.attrs && |out.blocks| == |file.blocks|
    && (forall j | 0 <= j < |file.blocks| && j != i :: out.blocks[j] == file.blocks[j])
    && out.blocks[i].typ == file.blocks[i].typ == "resource" && out.blocks[i].labels == ["fastly_service_cdn_auto", name]
    && Expressions.KeepsExpressions(table, file.blocks[i].body, out.blocks[i].body)
    && Expressions.KeepsBlocks(names, file.blocks[i].body, out.blocks[i].body)
  }

  lemma MigratedKept(file: Body, i: nat, name: string, table: Translate.Table, names: BlockNames.Names)
    requires i < |file.blocks| && file.blocks[i].typ == "resource"
    requires Translate.Independent(table) && Translate.TableFits(table, file.blocks[i].body)
    ensures FileKept(file, i, name, table, names, Migrated(file, i, name, table, names))
  {
    hide Expressions.KeepsExpressions, Expressions.KeepsBlocks, Translate.Translated, BlockNames.RenamedBody, Translate.TableFits, Translate.Independent;
    Expressions.BodyKept(table, names, file.blocks[i].body);
  }

  lemma OutcomeKept(key: Key, file: Body, rules: seq<Translate.Rule>, renamings: seq<BlockNames.Renaming>)
    requires Declared(key, file) && Independent(rules, renamings) && Outcome(key, file, rules, renamings).Some?
    ensures FileKept(file, Find(file.blocks, key.typ, key.name), key.name, Translate.Extended(map[], rules), BlockNames.Extended(map[], renamings),
      Outcome(key, file, rules, renamings).value)
  {
    var i := Find(file.blocks, key.typ, key.name);
    hide Translate.Extended, BlockNames.Extended, BlockNames.AllFit, Translate.TableFits, Translate.Independent, Migrated, FileKept;
    TableOfRulesFits(rules, file.blocks[i].body);
    MigratedKept(file, i, key.name, Translate.Extended(map[], rules), BlockNames.Extended(map[], renamings));
  }

  lemma TableOfRulesFits(rules: seq<Translate.Rule>, body: Body)
    requires TranslateAll.AllFit(rules, body)
    ensures Translate.TableFits(Translate.Extended(map[], rules), body)
  {
    var table := Translate.Extended(map[], rules);
    hide Translate.Fits;
    forall k | k in table ensures Translate.Fits(Translate.Rule(k.0, k.1, table[k]), body) {
      Tables.ExtendedValue(map[], rules, Translate.KeyOf, Translate.ActionOf, k);
    }
  }

  lemma ResourceMigrates(key: Key, actions: seq<Compat>, rules: seq<Translate.Rule>, renamings: seq<BlockNames.Renaming>, file: Body,
                         isAddress: string -> bool)
    requires key.typ == LEGACY_SERVICE && Declared(key, file) && Independent(rules, renamings)
    requires exists a | a in actions :: a.kind == Resource
    ensures RunEdits(file, Own(key, TranslateAll.ToChanges(rules) + BlockNames.ToChanges(renamings)) + Conversions(key, actions), isAddress) ==
      Outcome(key, file, rules, renamings)
  {
    hide Declared, RunEdits, RunChanges, Independent, Translate.Translated, BlockNames.RenamedBody, TranslateAll.AllFit, BlockNames.AllFit, Find;
    DeclaredIsFound(key, file);
    var i := Find(file.blocks, key.typ, key.name);
    var changes := TranslateAll.ToChanges(rules) + BlockNames.ToChanges(renamings);
    var body := RunChanges(file.blocks[i].body, changes);
    BodyMigrates(rules, renamings, file.blocks[i].body);
    RunInResource(key, file, changes, isAddress);
    RunAppend(file, Own(key, changes), Conversions(key, actions), isAddress);
    if body.Some? {
      StillDeclared(key, file, body.value);
      RunConversions(key, actions, WithBody(file, i, body.value), isAddress);
      ConvertedBody(file, i, body.value, key.name);
    }
  }

  lemma DeclaredIsFound(key: Key, file: Body)
    requires Declared(key, file)
    ensures Find(file.blocks, key.typ, key.name) < |file.blocks|
  {
  }

  lemma ConvertedBody(file: Body, i: nat, body: Body, name: string)
    requires i < |file.blocks|
    ensures Converted(WithBody(file, i, body), i, name) ==
      file.(blocks := file.blocks[i := Block(file.blocks[i].typ, [TARGET_SERVICE, name], body)])
  {
    assert Converted(WithBody(file, i, body), i, name).blocks == file.blocks[i := Block(file.blocks[i].typ, [TARGET_SERVICE, name], body)];
  }

  lemma StillDeclared(key: Key, file: Body, body: Body)
    requires Declared(key, file)
    ensures var i := Find(file.blocks, key.typ, key.name);
      Declared(key, WithBody(file, i, body)) && Find(WithBody(file, i, body).blocks, key.typ, key.name) == i
  {
    var i := Find(file.blocks, key.typ, key.name);
    FindStays(file.blocks, key.typ, key.name, i, body);
    FindFirst(WithBody(file, i, body).blocks, TARGET_SERVICE, key.name, |file.blocks|);
  }

  lemma SortedMigrates(key: Key, sorted: seq<Compat>, file: Body, isAddress: string -> bool)
    requires key.typ == LEGACY_SERVICE && Declared(key, file) && RankSorted(sorted)
    requires (forall a | a in sorted :: CompileAction(key, a).Success?) && exists a | a in sorted :: a.kind == Resource
    requires Independent(AttributeRules(key, sorted), BlockRenamings(key, sorted))
    ensures RunEdits(file, Edits(ActionEdits(key, sorted)), isAddress) ==
      Outcome(key, file, AttributeRules(key, sorted), BlockRenamings(key, sorted))
  {
    hide CompileAction, Declared, Independent, Outcome, RunEdits, Find, RankSorted, ActionEdits, Edits, Conversions;
    var rules, renamings := AttributeRules(key, sorted), BlockRenamings(key, sorted);
    Phases(key, sorted);
    OwnAppend(key, TranslateAll.ToChanges(rules), BlockNames.ToChanges(renamings));
    ResourceMigrates(key, sorted, rules, renamings, file, isAddress);
  }

  // The theorem of the compiler. The edits compiled for a service, in their order, run through on its
  // file exactly when every rule fits the body the resource had, and then they amount to translating
  // it by all its rules at once. Only which actions there are counts, not the order they came in.
  lemma CompiledMigrates(key: Key, actions: seq<Compat>, index: Index, file: Body, isAddress: string -> bool)
    requires key.typ == LEGACY_SERVICE && CompiledFrom(key, actions, index).move.Some? && Declared(key, file)
    requires Independent(AttributeRules(key, actions), BlockRenamings(key, actions))
    ensures exists own: seq<FileEdit> ::
      && CompiledFrom(key, actions, index).edits == own + MovedEdit(key, index)
      && (forall e | e in own :: e.file == key.file)
      && RunEdits(file, Edits(own), isAddress) == Outcome(key, file, AttributeRules(key, actions), BlockRenamings(key, actions))
    ensures var rules, renamings := AttributeRules(key, actions), BlockRenamings(key, actions);
      var out := Outcome(key, file, rules, renamings);
      out.Some? ==> FileKept(file, Find(file.blocks, key.typ, key.name), key.name, Translate.Extended(map[], rules),
        BlockNames.Extended(map[], renamings), out.value)
  {
    var sorted := Sort(actions, Before);
    var own := ActionEdits(key, sorted);
    CompilesIff(key, actions, index);
    assert CompiledFrom(key, actions, index).edits == own + MovedEdit(key, index);
    hide CompiledFrom, CompileAction, Declared, Independent, Outcome, Find, RunEdits, Sort, Before, ActionEdits, Edits;
    SortedActions(key, actions);
    OwnFile(key, sorted);
    SameRules(key, actions, sorted);
    SortedMigrates(key, sorted, file, isAddress);
    SameOutcome(key, actions, sorted, file);
    hide FileKept;
    if Outcome(key, file, AttributeRules(key, actions), BlockRenamings(key, actions)).Some? {
      OutcomeKept(key, file, AttributeRules(key, actions), BlockRenamings(key, actions));
    }
  }

  lemma SameOutcome(key: Key, actions: seq<Compat>, other: seq<Compat>, file: Body)
    requires (forall a :: a in actions <==> a in other) && Declared(key, file)
    requires Independent(AttributeRules(key, actions), BlockRenamings(key, actions))
    ensures Outcome(key, file, AttributeRules(key, other), BlockRenamings(key, other)) ==
      Outcome(key, file, AttributeRules(key, actions), BlockRenamings(key, actions))
  {
    SameRules(key, actions, other);
    SameFits(key, actions, other, file.blocks[Find(file.blocks, key.typ, key.name)].body);
    hide Declared, Independent, Find, AttributeRules, BlockRenamings, TranslateAll.AllFit, BlockNames.AllFit, Migrated;
  }

  lemma SortedActions(key: Key, actions: seq<Compat>)
    requires FindsService(key, actions)
    ensures var sorted := Sort(actions, Before);
      && RankSorted(sorted) && (forall a :: a in sorted <==> a in actions)
      && exists a | a in sorted :: a.kind == Resource
  {
    var sorted := Sort(actions, Before);
    BeforeIsOrder();
    SortSorted(actions, Before);
    SameMembers(sorted, actions);
    forall i, j | 0 <= i < j < |sorted| ensures Rank(sorted[i].kind) <= Rank(sorted[j].kind) {
      assert !Before(sorted[j], sorted[i]);
    }
  }

  lemma {:induction false} OwnFile(key: Key, actions: seq<Compat>)
    ensures forall e | e in ActionEdits(key, actions) :: e.file == key.file
  {
    hide CompileAction;
    if actions != [] { OwnFile(key, actions[1..]); }
  }

  // The same actions in another order mean the same rules.
  lemma SameRules(key: Key, actions: seq<Compat>, other: seq<Compat>)
    requires forall a :: a in actions <==> a in other
    requires Independent(AttributeRules(key, actions), BlockRenamings(key, actions))
    ensures Independent(AttributeRules(key, other), BlockRenamings(key, other))
    ensures Translate.Extended(map[], AttributeRules(key, other)) == Translate.Extended(map[], AttributeRules(key, actions))
    ensures BlockNames.Extended(map[], BlockRenamings(key, other)) == BlockNames.Extended(map[], BlockRenamings(key, actions))
  {
    SameMembersOfRules(key, actions, other);
    Tables.SameTable(AttributeRules(key, actions), AttributeRules(key, other), Translate.KeyOf, Translate.ActionOf);
    Tables.SameTable(BlockRenamings(key, actions), BlockRenamings(key, other), BlockNames.From, BlockNames.To);
  }

  lemma SameMembersOfRules(key: Key, actions: seq<Compat>, other: seq<Compat>)
    requires forall a :: a in actions <==> a in other
    ensures forall r :: r in AttributeRules(key, actions) <==> r in AttributeRules(key, other)
    ensures forall r :: r in BlockRenamings(key, actions) <==> r in BlockRenamings(key, other)
  {
    RuleMembers(key, actions);
    RuleMembers(key, other);
    hide AttributeRule, BlockRenaming, AttributeRules, BlockRenamings;
  }

  lemma SameFits(key: Key, actions: seq<Compat>, other: seq<Compat>, body: Body)
    requires forall a :: a in actions <==> a in other
    ensures TranslateAll.AllFit(AttributeRules(key, actions), body) <==> TranslateAll.AllFit(AttributeRules(key, other), body)
    ensures BlockNames.AllFit(BlockRenamings(key, actions), body) <==> BlockNames.AllFit(BlockRenamings(key, other), body)
  {
    SameMembersOfRules(key, actions, other);
    hide AttributeRules, BlockRenamings, Translate.Fits, BlockNames.Fits;
  }
}
