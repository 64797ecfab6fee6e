// Turning the compatibility actions found in one resource into an ordered list of edits.
module Compile {
  import opened Wrappers
  import opened Sorting
  import Translate
  import Tree

  datatype Kind = Attribute | ServiceBlock | Resource | Product | UnknownKind

  datatype Strategy = Unchanged | Rename | Reshape | Split | Remove | Reject | UnknownStrategy

  // A compatibility rule; stateMoves says whether its state strategy is a move.
  datatype Compat = Compat(id: string, kind: Kind, legacy: string, target: string, hcl: Strategy, stateMoves: bool)

  // The resource the actions belong to. The module is the directory of its file.
  datatype Key = Key(file: string, dir: string, typ: string, name: string)

  // The addresses declared and moved in the resource's module.
  datatype Index = Index(resources: map<string, string>, moves: map<string, string>)

  datatype Issue =
    | NoWriter(rule: Compat)
    | NotAtLocation
    | TargetExists(file: string)
    | MovedElsewhere(destination: string)
    | TargetTaken(previous: string)
    | Unsupported(rule: Compat)
    | NoServiceConversion

  datatype FileEdit = FileEdit(file: string, edit: Tree.Edit)

  datatype Move = Move(dir: string, from: string, to: string)

  // Either edits and a move, or issues: never both. The order of the issues is not modelled.
  datatype Compiled = Compiled(edits: seq<FileEdit>, move: Option<Move>, issues: multiset<Issue>)

  const LEGACY_SERVICE := "fastly_service_vcl"
  const TARGET_SERVICE := "fastly_service_cdn_auto"
  const RATE_LIMITER_RULE := "cdn-rate-limiter-id"
  const SERVICE_RULE := "resource-service-vcl"

  // ---- Routes ----

  // The parts of a dotted route; the empty route has one empty part.
  function Parts(route: string): (parts: seq<string>)
    ensures |parts| >= 1
  {
    if route == "" then [""]
    else
      var rest := Parts(route[1..]);
      if route[0] == '.' then [""] + rest else [[route[0]] + rest[0]] + rest[1..]
  }

  function Last(parts: seq<string>): string
    requires parts != []
  {
    parts[|parts| - 1]
  }

  // ---- One action ----

  // The edit an attribute rule needs: none when it changes nothing, or a refusal.
  function CompileAttribute(typ: string, rule: Compat): Result<Option<Tree.Change>, Issue> {
    var source := Parts(rule.legacy);
    if |source| < 2 || source[0] != typ then Failure(Unsupported(rule))
    else
      var parents, attr := source[1..|source| - 1], Last(source);
      match rule.hcl
      case Remove =>
        if rule.target != "" then Failure(Unsupported(rule)) else Success(Some(Tree.RemoveAttribute(parents, attr)))
      case Rename =>
        var target := Parts(rule.target);
        if |target| < 2 || target[0] != TARGET_SERVICE then Failure(Unsupported(rule))
        else
          var path := target[1..];
          if rule.id == RATE_LIMITER_RULE then Failure(Unsupported(rule))
          else if |path| != |source| - 1 || path[..|path| - 1] != parents then Failure(Unsupported(rule))
          else Success(Some(Tree.RenameAttribute(parents, attr, Last(path))))
      case Reshape =>
        var target := Parts(rule.target);
        if |target| < 2 || target[0] != TARGET_SERVICE then Failure(Unsupported(rule))
        else
          var path := target[1..];
          if parents != [] || |path| != 2 || path[0] != Translate.SETTINGS then Failure(Unsupported(rule))
          else if |path| != |source| || path[..|parents|] != parents then Failure(Unsupported(rule))
          else Success(Some(Tree.NestAttribute(parents, attr, path[|parents|], Last(path))))
      case Unchanged => Success(None)
      case Split => Failure(Unsupported(rule))
      case Reject => Failure(Unsupported(rule))
      case UnknownStrategy => Failure(Unsupported(rule))
  }

  function CompileServiceBlock(typ: string, rule: Compat): Result<Option<Tree.Change>, Issue> {
    var source, target := Parts(rule.legacy), Parts(rule.target);
    if |source| != 2 || source[0] != typ || |target| != 2 || target[0] != TARGET_SERVICE then Failure(Unsupported(rule))
    else
      match rule.hcl
      case Rename => Success(Some(Tree.RenameBlock([], source[1], target[1])))
      case Reshape => if source[1] == target[1] then Success(None) else Failure(Unsupported(rule))
      case Unchanged => if source[1] == target[1] then Success(None) else Failure(Unsupported(rule))
      case Split => Failure(Unsupported(rule))
      case Remove => Failure(Unsupported(rule))
      case Reject => Failure(Unsupported(rule))
      case UnknownStrategy => Failure(Unsupported(rule))
  }

  predicate ConvertsService(typ: string, rule: Compat) {
    rule.id == SERVICE_RULE && rule.legacy == typ && rule.target == TARGET_SERVICE && rule.hcl == Reshape && rule.stateMoves
  }

  // The edit of one action, on the resource it was found in.
  function CompileAction(key: Key, rule: Compat): Result<Option<Tree.Edit>, Issue> {
    match rule.kind
    case Attribute =>
      var change :- CompileAttribute(key.typ, rule);
      Success(InResource(key, change))
    case ServiceBlock =>
      var change :- CompileServiceBlock(key.typ, rule);
      Success(InResource(key, change))
    case Resource =>
      if ConvertsService(key.typ, rule) then Success(Some(Tree.RenameResource(key.typ, rule.target, key.name))) else Failure(Unsupported(rule))
    case Product => Failure(Unsupported(rule))
    case UnknownKind => Failure(Unsupported(rule))
  }

  function InResource(key: Key, change: Option<Tree.Change>): Option<Tree.Edit> {
    match change case None => None case Some(c) => Some(Tree.InResource(key.typ, key.name, c))
  }

  // ---- The order of the actions ----

  function Rank(kind: Kind): nat {
    match kind
    case Attribute => 0
    case ServiceBlock => 1
    case Resource => 2
    case Product => 3
    case UnknownKind => 4
  }

  predicate Before(x: Compat, y: Compat) {
    if x.kind != y.kind then Rank(x.kind) < Rank(y.kind) else StringLess(x.legacy, y.legacy)
  }

  lemma BeforeIsOrder()
    ensures IsOrder(Before)
  {
    StringOrder();
  }

  // ---- The resource ----

  function FromAddress(key: Key): string {
    key.typ + "." + key.name
  }

  function ToAddress(key: Key): string {
    TARGET_SERVICE + "." + key.name
  }

  function MigrationFile(dir: string): string {
    if dir == "." then "migration.tf" else dir + "/migration.tf"
  }

  function Issues(problem: bool, issue: Issue): multiset<Issue> {
    if problem then multiset{issue} else multiset{}
  }

  function Get(entries: map<string, string>, key: string): string {
    if key in entries then entries[key] else ""
  }

  // The moves, among those considered, that lead to the target address from somewhere else.
  function Taken(considered: set<string>, moves: map<string, string>, from: string, to: string): set<Issue> {
    set previous | previous in considered && previous in moves && moves[previous] == to && previous != from :: TargetTaken(previous)
  }

  function IndexIssues(key: Key, index: Index): multiset<Issue> {
    var from, to := FromAddress(key), ToAddress(key);
    Issues(Get(index.resources, from) != key.file, NotAtLocation) +
    Issues(Get(index.resources, to) != "", TargetExists(Get(index.resources, to))) +
    Issues(from in index.moves && index.moves[from] != to, MovedElsewhere(Get(index.moves, from))) +
    multiset(Taken(index.moves.Keys, index.moves, from, to))
  }

  function ActionEdits(key: Key, actions: seq<Compat>): seq<FileEdit> {
    if actions == [] then []
    else
      (match CompileAction(key, actions[0])
       case Success(Some(edit)) => [FileEdit(key.file, edit)]
       case _ => []) + ActionEdits(key, actions[1..])
  }

  function ActionIssues(key: Key, actions: seq<Compat>): multiset<Issue> {
    if actions == [] then multiset{}
    else
      (match CompileAction(key, actions[0])
       case Failure(issue) => multiset{issue}
       case Success(_) => multiset{}) + ActionIssues(key, actions[1..])
  }

  predicate FindsService(key: Key, actions: seq<Compat>) {
    exists a | a in actions :: a.kind == Resource && ConvertsService(key.typ, a)
  }

  function NoWriters(actions: seq<Compat>): multiset<Issue> {
    if actions == [] then multiset{} else multiset{NoWriter(actions[0])} + NoWriters(actions[1..])
  }

  // The move of the resource's state, unless the module has it already.
  function MovedEdit(key: Key, index: Index): seq<FileEdit> {
    if FromAddress(key) in index.moves then []
    else [FileEdit(MigrationFile(key.dir), Tree.AddMoved(FromAddress(key), ToAddress(key)))]
  }

  function AllIssues(key: Key, sorted: seq<Compat>, index: Index): multiset<Issue> {
    IndexIssues(key, index) + ActionIssues(key, sorted) + Issues(!FindsService(key, sorted), NoServiceConversion)
  }

  // Any issue blocks the resource as a whole.
  function Finished(key: Key, index: Index, edits: seq<FileEdit>, issues: multiset<Issue>): Compiled {
    if issues != multiset{} then Compiled([], None, issues)
    else Compiled(edits + MovedEdit(key, index), Some(Move(key.dir, FromAddress(key), ToAddress(key))), multiset{})
  }

  function CompiledFrom(key: Key, actions: seq<Compat>, index: Index): Compiled {
    if key.typ != LEGACY_SERVICE then Compiled([], None, NoWriters(actions))
    else
      var sorted := Sort(actions, Before);
      Finished(key, index, ActionEdits(key, sorted), AllIssues(key, sorted, index))
  }

  // ---- The method ----

  method CompileResource(key: Key, actions: seq<Compat>, index: Index) returns (r: Compiled)
    ensures r == CompiledFrom(key, actions, index)
  {
    hide ActionEdits, AllIssues, Finished, Sort, NoWriters, Before;
    if key.typ != LEGACY_SERVICE {
      var unwritten := ReportNoWriters(actions);
      r := Compiled([], None, unwritten);
    } else {
      var sorted := Sort(actions, Before);
      var edits, issues := CompileSorted(key, sorted, index);
      r := Finish(key, index, edits, issues);
    }
  }

  method CompileSorted(key: Key, sorted: seq<Compat>, index: Index) returns (edits: seq<FileEdit>, issues: multiset<Issue>)
    ensures edits == ActionEdits(key, sorted) && issues == AllIssues(key, sorted, index)
  {
    hide ActionEdits, ActionIssues, IndexIssues, FindsService;
    issues := CheckIndex(key, index);
    var refused, found;
    edits, refused, found := CompileActions(key, sorted);
    issues := issues + refused;
    if !found {
      issues := issues + multiset{NoServiceConversion};
    }
  }

  method Finish(key: Key, index: Index, edits: seq<FileEdit>, issues: multiset<Issue>) returns (r: Compiled)
    ensures r == Finished(key, index, edits, issues)
  {
    hide FromAddress, ToAddress, MigrationFile;
    if issues != multiset{} {
      return Compiled([], None, issues);
    }
    var from, to := FromAddress(key), ToAddress(key);
    var all := edits;
    if from !in index.moves {
      all := all + [FileEdit(MigrationFile(key.dir), Tree.AddMoved(from, to))];
    }
    assert all == edits + MovedEdit(key, index);
    r := Compiled(all, Some(Move(key.dir, from, to)), multiset{});
  }

  method ReportNoWriters(actions: seq<Compat>) returns (issues: multiset<Issue>)
    ensures issues == NoWriters(actions)
  {
    issues := multiset{};
    assert actions[0..] == actions;
    for i := 0 to |actions|
      invariant issues + NoWriters(actions[i..]) == NoWriters(actions)
    {
      assert actions[i..][0] == actions[i] && actions[i..][1..] == actions[i + 1..];
      issues := issues + multiset{NoWriter(actions[i])};
    }
  }

  method CompileActions(key: Key, sorted: seq<Compat>) returns (edits: seq<FileEdit>, issues: multiset<Issue>, found: bool)
    ensures edits == ActionEdits(key, sorted) && issues == ActionIssues(key, sorted)
    ensures found <==> FindsService(key, sorted)
  {
    edits, issues, found := [], multiset{}, false;
    assert sorted[0..] == sorted && [] + ActionEdits(key, sorted) == ActionEdits(key, sorted);
    hide CompileAction, ConvertsService, ActionEdits, ActionIssues;
    for i := 0 to |sorted|
      invariant edits + ActionEdits(key, sorted[i..]) == ActionEdits(key, sorted)
      invariant issues + ActionIssues(key, sorted[i..]) == ActionIssues(key, sorted)
      invariant found <==> FindsService(key, sorted[..i])
    {
      var rule := sorted[i];
      ActionStep(key, sorted, i, edits);
      match CompileAction(key, rule) {
        case Failure(issue) =>
          issues := issues + multiset{issue};
        case Success(None) =>
        case Success(Some(edit)) =>
          edits := edits + [FileEdit(key.file, edit)];
      }
      found := found || (rule.kind == Resource && ConvertsService(key.typ, rule));
    }
    NoActions(key, sorted[|sorted|..]);
    assert sorted[..|sorted|] == sorted;
  }

  // What the next action adds to the edits, the issues and the search for the conversion.
  lemma ActionStep(key: Key, actions: seq<Compat>, i: nat, done: seq<FileEdit>)
    requires i < |actions|
    ensures var rest := actions[i + 1..];
      match CompileAction(key, actions[i])
      case Failure(issue) =>
        && done + ActionEdits(key, actions[i..]) == done + ActionEdits(key, rest)
        && ActionIssues(key, actions[i..]) == multiset{issue} + ActionIssues(key, rest)
      case Success(None) =>
        && done + ActionEdits(key, actions[i..]) == done + ActionEdits(key, rest)
        && ActionIssues(key, actions[i..]) == ActionIssues(key, rest)
      case Success(Some(edit)) =>
        && done + ActionEdits(key, actions[i..]) == done + [FileEdit(key.file, edit)] + ActionEdits(key, rest)
        && ActionIssues(key, actions[i..]) == ActionIssues(key, rest)
    ensures FindsService(key, actions[..i + 1]) <==>
      FindsService(key, actions[..i]) || (actions[i].kind == Resource && ConvertsService(key.typ, actions[i]))
  {
    hide CompileAction, ConvertsService;
    assert actions[i..][0] == actions[i] && actions[i..][1..] == actions[i + 1..];
    assert actions[..i + 1] == actions[..i] + [actions[i]];
    var rest := ActionEdits(key, actions[i + 1..]);
    assert [] + rest == rest;
    match CompileAction(key, actions[i]) {
      case Success(Some(edit)) => assert done + ([FileEdit(key.file, edit)] + rest) == done + [FileEdit(key.file, edit)] + rest;
      case _ =>
    }
  }

  lemma NoActions(key: Key, actions: seq<Compat>)
    requires actions == []
    ensures ActionEdits(key, actions) == [] && ActionIssues(key, actions) == multiset{}
  {
  }

  method CheckIndex(key: Key, index: Index) returns (issues: multiset<Issue>)
    ensures issues == IndexIssues(key, index)
  {
    var from, to := FromAddress(key), ToAddress(key);
    issues := multiset{};
    if Get(index.resources, from) != key.file {
      issues := issues + multiset{NotAtLocation};
    }
    if Get(index.resources, to) != "" {
      issues := issues + multiset{TargetExists(Get(index.resources, to))};
    }
    if from in index.moves && index.moves[from] != to {
      issues := issues + multiset{MovedElsewhere(index.moves[from])};
    }
    hide Taken;
    var taken := FindTaken(index.moves, from, to);
    issues := issues + multiset(taken);
  }

  // The moved blocks are looked through in whatever order the map yields them.
  method FindTaken(moves: map<string, string>, from: string, to: string) returns (taken: set<Issue>)
    ensures taken == Taken(moves.Keys, moves, from, to)
  {
    taken := {};
    var left, done := moves.Keys, {};
    while left != {}
      invariant left + done == moves.Keys
      invariant taken == Taken(done, moves, from, to)
      decreases |left|
    {
      var previous :| previous in left;
      left, done := left - {previous}, done + {previous};
      if moves[previous] == to && previous != from {
        taken := taken + {TargetTaken(previous)};
      }
    }
  }
}
