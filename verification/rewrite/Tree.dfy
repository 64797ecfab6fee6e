// Configuration as a tree of attributes and nested blocks, and what each edit does to it.
module Tree {
  import opened Wrappers
  import opened Identifier

  // Attributes map to the text of their expressions.
  datatype Body = Body(attrs: map<string, string>, blocks: seq<Block>)

  datatype Block = Block(typ: string, labels: seq<string>, body: Body)

  const RESOURCE := "resource"
  const MOVED := "moved"

  // ---- Bodies under a path of block types ----

  function Matching(body: Body, path: seq<string>): seq<Body>
    decreases |path|, |body.blocks| + 1
  {
    if path == [] then [body] else MatchingIn(body.blocks, path)
  }

  function MatchingIn(blocks: seq<Block>, path: seq<string>): seq<Body>
    requires path != []
    decreases |path|, |blocks|
  {
    if blocks == [] then []
    else (if blocks[0].typ == path[0] then Matching(blocks[0].body, path[1..]) else []) + MatchingIn(blocks[1..], path)
  }

  // Rewrites every body under the path, or refuses when one of them refuses.
  function At(body: Body, path: seq<string>, f: Body -> Option<Body>): Option<Body>
    decreases |path|, |body.blocks| + 1
  {
    if path == [] then f(body)
    else
      var blocks :- AtBlocks(body.blocks, path, f);
      Some(Body(body.attrs, blocks))
  }

  function AtBlocks(blocks: seq<Block>, path: seq<string>, f: Body -> Option<Body>): Option<seq<Block>>
    requires path != []
    decreases |path|, |blocks|
  {
    if blocks == [] then Some([])
    else
      var first :- AtBlock(blocks[0], path, f);
      var rest :- AtBlocks(blocks[1..], path, f);
      Some([first] + rest)
  }

  function AtBlock(block: Block, path: seq<string>, f: Body -> Option<Body>): Option<Block>
    requires path != []
    decreases |path|, 0
  {
    if block.typ == path[0] then
      var body :- At(block.body, path[1..], f);
      Some(block.(body := body))
    else Some(block)
  }

  // ---- What happens in one matched body ----

  function RenameIn(body: Body, from: string, to: string): Option<Body> {
    if from !in body.attrs then (if to in body.attrs then Some(body) else None)
    else if to in body.attrs then None
    else Some(body.(attrs := (body.attrs - {from})[to := body.attrs[from]]))
  }

  function RemoveIn(body: Body, attr: string): Body {
    body.(attrs := body.attrs - {attr})
  }

  function Count(blocks: seq<Block>, typ: string): nat {
    if blocks == [] then 0 else (if blocks[0].typ == typ then 1 else 0) + Count(blocks[1..], typ)
  }

  function First(blocks: seq<Block>, typ: string): (i: nat)
    ensures i <= |blocks|
    ensures i < |blocks| ==> blocks[i].typ == typ
    ensures forall k | 0 <= k < i :: blocks[k].typ != typ
    ensures i == |blocks| <==> Count(blocks, typ) == 0
  {
    if blocks == [] || blocks[0].typ == typ then 0 else First(blocks[1..], typ) + 1
  }

  // Whether the first block of the type holds the attribute.
  predicate Nested(blocks: seq<Block>, typ: string, attr: string) {
    var i := First(blocks, typ);
    i < |blocks| && attr in blocks[i].body.attrs
  }

  // Puts attributes into the first block of the type, or into a new one at the end.
  function Inserted(blocks: seq<Block>, typ: string, attrs: map<string, string>): seq<Block> {
    var i := First(blocks, typ);
    if i < |blocks| then blocks[i := blocks[i].(body := blocks[i].body.(attrs := blocks[i].body.attrs + attrs))]
    else blocks + [Block(typ, [], Body(attrs, []))]
  }

  function NestIn(body: Body, attr: string, typ: string, target: string): Option<Body> {
    if Count(body.blocks, typ) > 1 then None
    else
      var nested := Nested(body.blocks, typ, target);
      if attr !in body.attrs then (if nested then Some(body) else None)
      else if nested then None
      else Some(Body(body.attrs - {attr}, Inserted(body.blocks, typ, map[target := body.attrs[attr]])))
  }

  function Retyped(blocks: seq<Block>, from: string, to: string): (r: seq<Block>)
    ensures |r| == |blocks|
    ensures forall k | 0 <= k < |blocks| :: r[k] == if blocks[k].typ == from then blocks[k].(typ := to) else blocks[k]
  {
    if blocks == [] then []
    else [if blocks[0].typ == from then blocks[0].(typ := to) else blocks[0]] + Retyped(blocks[1..], from, to)
  }

  // ---- Edits inside a resource ----

  datatype Change =
    | RenameAttribute(path: seq<string>, from: string, to: string)
    | RemoveAttribute(path: seq<string>, attr: string)
    | NestAttribute(path: seq<string>, attr: string, block: string, target: string)
    | RenameBlock(path: seq<string>, from: string, to: string)

  predicate HasBlock(bodies: seq<Body>, typ: string) {
    exists k | 0 <= k < |bodies| :: Count(bodies[k].blocks, typ) > 0
  }

  // The name a nested attribute ends up under.
  function TargetName(attr: string, target: string): string {
    if target == "" then attr else target
  }

  function EditBody(body: Body, change: Change): Option<Body> {
    match change
    case RenameAttribute(_, from, to) => RenameIn(body, from, to)
    case RemoveAttribute(_, attr) => Some(RemoveIn(body, attr))
    case NestAttribute(_, attr, block, target) => NestIn(body, attr, block, TargetName(attr, target))
    case RenameBlock(_, from, to) => Some(body.(blocks := Retyped(body.blocks, from, to)))
  }

  function Editor(change: Change): Body -> Option<Body> {
    b => EditBody(b, change)
  }

  predicate NamesValid(change: Change) {
    match change
    case RenameAttribute(_, _, to) => ValidIdentifier(to)
    case RemoveAttribute(_, _) => true
    case NestAttribute(_, attr, block, target) => ValidIdentifier(block) && ValidIdentifier(TargetName(attr, target))
    case RenameBlock(_, _, to) => ValidIdentifier(to)
  }

  // Renaming something to itself.
  predicate Idle(change: Change) {
    match change
    case RenameAttribute(_, from, to) => from == to
    case RenameBlock(_, from, to) => from == to
    case _ => false
  }

  // A block rename that finds neither its source nor its target.
  predicate BlockMissing(body: Body, change: Change) {
    change.RenameBlock? && !HasBlock(Matching(body, change.path), change.from) && !HasBlock(Matching(body, change.path), change.to)
  }

  function Applied(body: Body, change: Change): Option<Body> {
    if !NamesValid(change) then None
    else if Idle(change) then Some(body)
    else if Matching(body, change.path) == [] then None
    else if BlockMissing(body, change) then None
    else At(body, change.path, Editor(change))
  }

  // ---- Edits on a file ----

  datatype Edit =
    | InResource(typ: string, name: string, change: Change)
    | RenameResource(from: string, to: string, name: string)
    | AddMoved(source: string, destination: string)

  predicate IsResource(block: Block, typ: string, name: string) {
    block.typ == RESOURCE && block.labels == [typ, name]
  }

  function Find(blocks: seq<Block>, typ: string, name: string): (i: nat)
    ensures i <= |blocks|
    ensures i < |blocks| ==> IsResource(blocks[i], typ, name)
    ensures forall k | 0 <= k < i :: !IsResource(blocks[k], typ, name)
  {
    if blocks == [] || IsResource(blocks[0], typ, name) then 0 else Find(blocks[1..], typ, name) + 1
  }

  // Editing the body of a resource does not change where it is found.
  lemma {:induction false} FindStays(blocks: seq<Block>, typ: string, name: string, i: nat, body: Body)
    requires Find(blocks, typ, name) == i < |blocks|
    ensures Find(blocks[i := blocks[i].(body := body)], typ, name) == i
    decreases |blocks|
  {
    if i > 0 {
      FindStays(blocks[1..], typ, name, i - 1, body);
      assert blocks[i := blocks[i].(body := body)][1..] == blocks[1..][i - 1 := blocks[1..][i - 1].(body := body)];
    }
  }

  lemma {:induction false} FindFirst(blocks: seq<Block>, typ: string, name: string, i: nat)
    requires i <= |blocks| && (i < |blocks| ==> IsResource(blocks[i], typ, name))
    requires forall k | 0 <= k < i :: !IsResource(blocks[k], typ, name)
    ensures Find(blocks, typ, name) == i
    decreases |blocks|
  {
    if i > 0 { FindFirst(blocks[1..], typ, name, i - 1); }
  }

  datatype MovedScan = Conflict | Present | NotFound

  // Looks for the move among the moved blocks, refusing at the first unclassified or conflicting one.
  function ScanMoved(blocks: seq<Block>, from: string, to: string): MovedScan {
    if blocks == [] then NotFound
    else
      var attrs := blocks[0].body.attrs;
      if blocks[0].typ != MOVED then ScanMoved(blocks[1..], from, to)
      else if "from" !in attrs || "to" !in attrs then Conflict
      else if attrs["from"] == from && attrs["to"] == to then Present
      else if attrs["from"] == from || attrs["to"] == to then Conflict
      else ScanMoved(blocks[1..], from, to)
  }

  function MovedBlock(from: string, to: string): Block {
    Block(MOVED, [], Body(map["from" := from, "to" := to], []))
  }

  // isAddress stands for the library's parser of absolute traversals.
  function AppliedTo(file: Body, edit: Edit, isAddress: string -> bool): Option<Body> {
    match edit
    case InResource(typ, name, change) =>
      var i := Find(file.blocks, typ, name);
      if i == |file.blocks| then
        // Renaming something to itself is decided before the resource is looked up.
        (if NamesValid(change) && Idle(change) then Some(file) else None)
      else
        var body :- Applied(file.blocks[i].body, change);
        Some(file.(blocks := file.blocks[i := file.blocks[i].(body := body)]))
    case RenameResource(from, to, name) =>
      var i, j := Find(file.blocks, from, name), Find(file.blocks, to, name);
      if !ValidIdentifier(to) then None
      else if from == to then Some(file)
      else if i == |file.blocks| then (if j < |file.blocks| then Some(file) else None)
      else if j < |file.blocks| then None
      else Some(file.(blocks := file.blocks[i := file.blocks[i].(labels := [to, name])]))
    case AddMoved(source, destination) =>
      if !isAddress(source) || !isAddress(destination) then None
      else
        match ScanMoved(file.blocks, source, destination)
        case Conflict => None
        case Present => Some(file)
        case NotFound => Some(file.(blocks := file.blocks + [MovedBlock(source, destination)]))
  }

  // A list of edits, one after the other.
  function RunChanges(body: Body, changes: seq<Change>): Option<Body>
    decreases |changes|
  {
    if changes == [] then Some(body)
    else
      var next :- Applied(body, changes[0]);
      RunChanges(next, changes[1..])
  }

  function RunEdits(file: Body, edits: seq<Edit>, isAddress: string -> bool): Option<Body>
    decreases |edits|
  {
    if edits == [] then Some(file)
    else
      var next :- AppliedTo(file, edits[0], isAddress);
      RunEdits(next, edits[1..], isAddress)
  }
}
