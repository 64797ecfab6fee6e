// Applying an edit a second time changes nothing.
module Idempotent {
  import opened Wrappers
  import opened Identifier
  import opened Tree

  ghost predicate Settles(f: Body -> Option<Body>) {
    forall b: Body :: f(b).Some? ==> f(f(b).value) == f(b)
  }

  lemma {:induction false} AtSettles(body: Body, path: seq<string>, f: Body -> Option<Body>)
    requires Settles(f) && At(body, path, f).Some?
    ensures At(At(body, path, f).value, path, f) == At(body, path, f)
    decreases |path|, |body.blocks| + 1
  {
    if path != [] { AtBlocksSettle(body.blocks, path, f); }
  }

  lemma {:induction false} AtBlocksSettle(blocks: seq<Block>, path: seq<string>, f: Body -> Option<Body>)
    requires path != [] && Settles(f) && AtBlocks(blocks, path, f).Some?
    ensures AtBlocks(AtBlocks(blocks, path, f).value, path, f) == AtBlocks(blocks, path, f)
    decreases |path|, |blocks|
  {
    if blocks != [] {
      AtBlocksSettle(blocks[1..], path, f);
      if blocks[0].typ == path[0] { AtSettles(blocks[0].body, path[1..], f); }
      var after := AtBlocks(blocks, path, f).value;
      assert after == [AtBlock(blocks[0], path, f).value] + AtBlocks(blocks[1..], path, f).value;
      assert after[1..] == AtBlocks(blocks[1..], path, f).value;
    }
  }

  // What matches a path afterwards is what matched it before, edited.
  lemma {:induction false} MatchingAfter(body: Body, path: seq<string>, f: Body -> Option<Body>)
    requires At(body, path, f).Some?
    ensures var before, after := Matching(body, path), Matching(At(body, path, f).value, path);
      |after| == |before| && forall k | 0 <= k < |before| :: f(before[k]) == Some(after[k])
    decreases |path|, |body.blocks| + 1
  {
    if path != [] { MatchingInAfter(body.blocks, path, f); }
  }

  lemma {:induction false} MatchingInAfter(blocks: seq<Block>, path: seq<string>, f: Body -> Option<Body>)
    requires path != [] && AtBlocks(blocks, path, f).Some?
    ensures var before, after := MatchingIn(blocks, path), MatchingIn(AtBlocks(blocks, path, f).value, path);
      |after| == |before| && forall k | 0 <= k < |before| :: f(before[k]) == Some(after[k])
    decreases |path|, |blocks|
  {
    if blocks != [] {
      var first, rest := AtBlock(blocks[0], path, f).value, AtBlocks(blocks[1..], path, f).value;
      MatchingInAfter(blocks[1..], path, f);
      if blocks[0].typ == path[0] { MatchingAfter(blocks[0].body, path[1..], f); }
      assert AtBlocks(blocks, path, f).value == [first] + rest;
      MatchingFirst([first] + rest, path);
      MatchingFirst(blocks, path);
      assert ([first] + rest)[1..] == rest;
      hide MatchingIn, Matching, At, AtBlocks;
    }
  }

  lemma MatchingFirst(blocks: seq<Block>, path: seq<string>)
    requires path != [] && blocks != []
    ensures MatchingIn(blocks, path) ==
      (if blocks[0].typ == path[0] then Matching(blocks[0].body, path[1..]) else []) + MatchingIn(blocks[1..], path)
  {
  }

  // ---- The four edits inside a resource ----

  lemma InsertedIsNested(blocks: seq<Block>, typ: string, target: string, value: string)
    ensures Nested(Inserted(blocks, typ, map[target := value]), typ, target)
    ensures Count(blocks, typ) <= 1 ==> Count(Inserted(blocks, typ, map[target := value]), typ) == 1
    decreases |blocks|
  {
    var all := Inserted(blocks, typ, map[target := value]);
    if blocks == [] {
      assert all == [Block(typ, [], Body(map[target := value], []))] && all[1..] == [];
    } else if blocks[0].typ == typ {
      assert all[1..] == blocks[1..];
    } else {
      assert First(blocks, typ) == First(blocks[1..], typ) + 1;
      assert all[0] == blocks[0] && all[1..] == Inserted(blocks[1..], typ, map[target := value]);
      InsertedIsNested(blocks[1..], typ, target, value);
    }
  }

  lemma {:induction false} RetypedOnce(blocks: seq<Block>, from: string, to: string)
    requires from != to
    ensures Retyped(Retyped(blocks, from, to), from, to) == Retyped(blocks, from, to)
    ensures Count(Retyped(blocks, from, to), to) > 0 <==> Count(blocks, from) > 0 || Count(blocks, to) > 0
  {
    if blocks != [] {
      RetypedOnce(blocks[1..], from, to);
      var after := Retyped(blocks, from, to);
      assert after[1..] == Retyped(blocks[1..], from, to);
    }
  }

  lemma EditSettles(change: Change)
    requires !Idle(change)
    ensures Settles(Editor(change))
  {
    forall b: Body | EditBody(b, change).Some? ensures EditBody(EditBody(b, change).value, change) == EditBody(b, change) {
      match change
      case RenameAttribute(_, from, to) =>
      case RemoveAttribute(_, attr) =>
        assert b.attrs - {attr} - {attr} == b.attrs - {attr};
      case NestAttribute(_, attr, block, target) =>
        if attr in b.attrs { InsertedIsNested(b.blocks, block, TargetName(attr, target), b.attrs[attr]); }
      case RenameBlock(_, from, to) =>
        RetypedOnce(b.blocks, from, to);
    }
  }

  // An edit that went through goes through again and changes nothing: the duplicates that repeated
  // blocks give rise to are harmless.
  lemma ChangeIsIdempotent(body: Body, change: Change)
    requires Applied(body, change).Some?
    ensures Applied(Applied(body, change).value, change) == Applied(body, change)
  {
    if !Idle(change) {
      var after := Applied(body, change).value;
      EditSettles(change);
      AtSettles(body, change.path, Editor(change));
      MatchingAfter(body, change.path, Editor(change));
      if change.RenameBlock? { StillFound(body, change); }
      hide At, Matching, Settles, EditBody, HasBlock, NamesValid;
    }
  }

  lemma StillFound(body: Body, change: Change)
    requires change.RenameBlock? && !Idle(change) && !BlockMissing(body, change)
    requires At(body, change.path, Editor(change)).Some?
    ensures !BlockMissing(At(body, change.path, Editor(change)).value, change)
  {
    var before, after := Matching(body, change.path), Matching(At(body, change.path, Editor(change)).value, change.path);
    MatchingAfter(body, change.path, Editor(change));
    hide At, Matching;
    var k :| 0 <= k < |before| && (Count(before[k].blocks, change.from) > 0 || Count(before[k].blocks, change.to) > 0);
    RetypedOnce(before[k].blocks, change.from, change.to);
    assert Editor(change)(before[k]) == Some(after[k]);
    assert Count(after[k].blocks, change.to) > 0;
  }

  // ---- Edits on a file ----

  lemma {:induction false} ScanFindsAppended(blocks: seq<Block>, from: string, to: string)
    requires ScanMoved(blocks, from, to) == NotFound
    ensures ScanMoved(blocks + [MovedBlock(from, to)], from, to) == Present
    decreases |blocks|
  {
    var all := blocks + [MovedBlock(from, to)];
    if blocks != [] {
      assert all[1..] == blocks[1..] + [MovedBlock(from, to)];
      ScanFindsAppended(blocks[1..], from, to);
    }
  }

  // Whether the address is declared at most once.
  predicate Unique(file: Body, typ: string, name: string) {
    forall i, k | 0 <= i < k < |file.blocks| :: !(IsResource(file.blocks[i], typ, name) && IsResource(file.blocks[k], typ, name))
  }

  lemma InResourceIsIdempotent(file: Body, edit: Edit, isAddress: string -> bool)
    requires edit.InResource? && AppliedTo(file, edit, isAddress).Some?
    ensures AppliedTo(AppliedTo(file, edit, isAddress).value, edit, isAddress) == AppliedTo(file, edit, isAddress)
  {
    var i := Find(file.blocks, edit.typ, edit.name);
    if i < |file.blocks| {
      ChangeIsIdempotent(file.blocks[i].body, edit.change);
      var body := Applied(file.blocks[i].body, edit.change).value;
      FindStays(file.blocks, edit.typ, edit.name, i, body);
      hide Applied, Find;
      var after := file.blocks[i := file.blocks[i].(body := body)];
      assert after[i := after[i].(body := body)] == after;
    }
  }

  // A resource rename that changed the file repeats as a no-op exactly when the old address was
  // declared once; a second declaration makes the repetition fail on the target it created itself.
  lemma RenameResourceRepeats(file: Body, edit: Edit, isAddress: string -> bool)
    requires edit.RenameResource? && edit.from != edit.to && Find(file.blocks, edit.from, edit.name) < |file.blocks|
    requires AppliedTo(file, edit, isAddress).Some?
    ensures AppliedTo(AppliedTo(file, edit, isAddress).value, edit, isAddress) ==
      if Unique(file, edit.from, edit.name) then AppliedTo(file, edit, isAddress) else None
  {
    var i := Find(file.blocks, edit.from, edit.name);
    var after := AppliedTo(file, edit, isAddress).value;
    FindFirst(after.blocks, edit.to, edit.name, i);
    hide ValidIdentifier;
    if Unique(file, edit.from, edit.name) {
      FindFirst(after.blocks, edit.from, edit.name, |after.blocks|);
    } else {
      var k, m :| 0 <= k < m < |file.blocks| && IsResource(file.blocks[k], edit.from, edit.name) && IsResource(file.blocks[m], edit.from, edit.name);
      assert i <= k && IsResource(after.blocks[m], edit.from, edit.name);
    }
  }

  // Every edit is idempotent on files that declare each address at most once.
  lemma EditIsIdempotent(file: Body, edit: Edit, isAddress: string -> bool)
    requires AppliedTo(file, edit, isAddress).Some?
    requires edit.RenameResource? ==> Unique(file, edit.from, edit.name)
    ensures AppliedTo(AppliedTo(file, edit, isAddress).value, edit, isAddress) == AppliedTo(file, edit, isAddress)
  {
    match edit
    case InResource(_, _, _) => InResourceIsIdempotent(file, edit, isAddress);
    case RenameResource(from, to, name) =>
      if from != to && Find(file.blocks, from, name) < |file.blocks| { RenameResourceRepeats(file, edit, isAddress); }
    case AddMoved(source, destination) =>
      if ScanMoved(file.blocks, source, destination) == NotFound { ScanFindsAppended(file.blocks, source, destination); }
  }

  // ---- What adding a move means ----

  predicate Classified(block: Block) {
    block.typ == "moved" ==> "from" in block.body.attrs && "to" in block.body.attrs
  }

  // A moved block with one of the two addresses.
  predicate Touches(block: Block, from: string, to: string) {
    block.typ == "moved" && Classified(block) && (block.body.attrs["from"] == from || block.body.attrs["to"] == to)
  }

  predicate Same(block: Block, from: string, to: string) {
    Touches(block, from, to) && block.body.attrs["from"] == from && block.body.attrs["to"] == to
  }

  // Where the first block stands that decides the scan.
  lemma {:induction false} ScanStops(blocks: seq<Block>, from: string, to: string) returns (i: nat)
    ensures i <= |blocks| && forall k | 0 <= k < i :: Classified(blocks[k]) && !Touches(blocks[k], from, to)
    ensures match ScanMoved(blocks, from, to)
      case NotFound => i == |blocks|
      case Present => i < |blocks| && Same(blocks[i], from, to)
      case Conflict => i < |blocks| && !Same(blocks[i], from, to) && (Classified(blocks[i]) ==> Touches(blocks[i], from, to))
  {
    i := 0;
    if blocks != [] && Classified(blocks[0]) && !Touches(blocks[0], from, to) {
      var k := ScanStops(blocks[1..], from, to);
      i := k + 1;
    }
  }

  // A move is added exactly when no moved block is unclassified or uses one of its addresses; it is
  // left as it is when the first block that decides is the very move; otherwise the edit fails. What
  // was there stays.
  lemma AddMovedIff(file: Body, from: string, to: string, isAddress: string -> bool)
    ensures !isAddress(from) || !isAddress(to) ==> AppliedTo(file, AddMoved(from, to), isAddress) == None
    ensures isAddress(from) && isAddress(to) ==>
      var r := AppliedTo(file, AddMoved(from, to), isAddress);
      var block := Block("moved", [], Body(map["from" := from, "to" := to], []));
      && (r == Some(file.(blocks := file.blocks + [block])) <==>
            forall b | b in file.blocks :: Classified(b) && !Touches(b, from, to))
      && (r == Some(file) <==> exists i | 0 <= i < |file.blocks| ::
            Same(file.blocks[i], from, to) && forall k | 0 <= k < i :: Classified(file.blocks[k]) && !Touches(file.blocks[k], from, to))
      && (r.Some? ==> r == Some(file) || r == Some(file.(blocks := file.blocks + [block])))
  {
    var i := ScanStops(file.blocks, from, to);
    assert |file.blocks + [MovedBlock(from, to)]| == |file.blocks| + 1;
    hide ScanMoved;
    if i < |file.blocks| {
      assert file.blocks[i] in file.blocks;
      assert !Classified(file.blocks[i]) || Touches(file.blocks[i], from, to);
    }
    hide Classified, Touches, Same;
  }

  // ---- When a body edit goes through ----

  lemma {:induction false} AtAll(body: Body, path: seq<string>, f: Body -> Option<Body>)
    ensures At(body, path, f).Some? <==> forall b | b in Matching(body, path) :: f(b).Some?
    decreases |path|, |body.blocks| + 1
  {
    if path != [] { AtAllBlocks(body.blocks, path, f); }
  }

  lemma {:induction false} AtAllBlocks(blocks: seq<Block>, path: seq<string>, f: Body -> Option<Body>)
    requires path != []
    ensures AtBlocks(blocks, path, f).Some? <==> forall b | b in MatchingIn(blocks, path) :: f(b).Some?
    decreases |path|, |blocks|
  {
    if blocks != [] {
      if blocks[0].typ == path[0] { AtAll(blocks[0].body, path[1..], f); }
      AtAllBlocks(blocks[1..], path, f);
      var first := if blocks[0].typ == path[0] then Matching(blocks[0].body, path[1..]) else [];
      assert forall b :: b in MatchingIn(blocks, path) <==> b in first || b in MatchingIn(blocks[1..], path);
      hide At, Matching;
    }
  }

  // What each edit asks of the bodies under its path: a rename, of every body exactly one of the two
  // names; a move, of every body at most one block of the target type, and the attribute in either
  // place but not in both; a block rename, one block of the old or the new type in some body; and a
  // removal, nothing.
  lemma ChangeGoesThrough(body: Body, change: Change)
    ensures var bodies := Matching(body, change.path);
      Applied(body, change).Some? <==>
      match change
      case RenameAttribute(_, from, to) =>
        ValidIdentifier(to) && (from == to || (bodies != [] && forall b | b in bodies :: (from in b.attrs) != (to in b.attrs)))
      case RemoveAttribute(_, _) => bodies != []
      case NestAttribute(_, attr, block, target) =>
        var name := if target == "" then attr else target;
        && ValidIdentifier(block) && ValidIdentifier(name) && bodies != []
        && forall b | b in bodies ::
             Count(b.blocks, block) <= 1 && (attr in b.attrs) != exists k | 0 <= k < |b.blocks| :: HoldsName(b.blocks[k], block, name)
      case RenameBlock(_, from, to) =>
        ValidIdentifier(to) && (from == to || exists b | b in bodies :: exists k | 0 <= k < |b.blocks| :: b.blocks[k].typ in {from, to})
  {
    AtAll(body, change.path, Editor(change));
    var bodies := Matching(body, change.path);
    hide At, Matching, NestIn, Count;
    match change {
      case NestAttribute(_, attr, block, target) =>
        var name := TargetName(attr, target);
        forall b | b in bodies ensures NestIn(b, attr, block, name).Some? <==>
          Count(b.blocks, block) <= 1 && (attr in b.attrs) != exists k | 0 <= k < |b.blocks| :: HoldsName(b.blocks[k], block, name)
        {
          NestGoesThrough(b, attr, block, name);
        }
      case RenameBlock(_, from, to) =>
        BlockFound(bodies, from);
        BlockFound(bodies, to);
      case _ =>
    }
  }

  lemma BlockFound(bodies: seq<Body>, typ: string)
    ensures HasBlock(bodies, typ) <==> exists b | b in bodies :: exists k | 0 <= k < |b.blocks| :: b.blocks[k].typ == typ
  {
    forall b | b in bodies ensures Count(b.blocks, typ) > 0 <==> exists k | 0 <= k < |b.blocks| :: b.blocks[k].typ == typ {
      CountFinds(b.blocks, typ);
    }
    hide Count;
    if b :| b in bodies && Count(b.blocks, typ) > 0 {
      var j :| 0 <= j < |bodies| && bodies[j] == b;
    }
  }

  predicate HoldsName(block: Block, typ: string, name: string) {
    block.typ == typ && name in block.body.attrs
  }

  lemma NestGoesThrough(b: Body, attr: string, block: string, name: string)
    ensures NestIn(b, attr, block, name).Some? <==>
      Count(b.blocks, block) <= 1 && (attr in b.attrs) != exists k | 0 <= k < |b.blocks| :: HoldsName(b.blocks[k], block, name)
  {
    if Count(b.blocks, block) <= 1 {
      var i := First(b.blocks, block);
      forall k | 0 <= k < |b.blocks| && b.blocks[k].typ == block ensures k == i {
        if i < k { TwoCount(b.blocks, block, i, k); }
      }
      hide Count;
    }
  }

  lemma {:induction false} CountFinds(blocks: seq<Block>, typ: string)
    ensures Count(blocks, typ) > 0 <==> exists k | 0 <= k < |blocks| :: blocks[k].typ == typ
  {
    var i := First(blocks, typ);
    hide Count;
  }

  // A second block of the type counts.
  lemma {:induction false} TwoCount(blocks: seq<Block>, typ: string, i: nat, k: nat)
    requires i < k < |blocks| && blocks[i].typ == typ && blocks[k].typ == typ
    ensures Count(blocks, typ) >= 2
    decreases |blocks|
  {
    if i == 0 {
      assert blocks[1..][k - 1].typ == typ;
      CountFinds(blocks[1..], typ);
    } else {
      TwoCount(blocks[1..], typ, i - 1, k - 1);
    }
  }

  predicate DeclaredAt(file: Body, typ: string, name: string, k: nat) {
    k < |file.blocks| && file.blocks[k].typ == "resource" && file.blocks[k].labels == [typ, name]
  }

  predicate Declares(file: Body, typ: string, name: string) {
    exists k | 0 <= k < |file.blocks| :: DeclaredAt(file, typ, name, k)
  }

  // A resource is renamed when it is declared and its new address is not, left alone when only the new
  // address is, and the edit fails when both are or neither is, or when the new type is no identifier.
  lemma RenameResourceIff(file: Body, from: string, to: string, name: string, isAddress: string -> bool)
    ensures var r := AppliedTo(file, RenameResource(from, to, name), isAddress);
      && (r.Some? <==> ValidIdentifier(to) && (from == to || Declares(file, from, name) != Declares(file, to, name)))
      && (r.Some? && (from == to || Declares(file, to, name)) ==> r.value == file)
      && (r.Some? && from != to && Declares(file, from, name) ==>
            exists k | 0 <= k < |file.blocks| ::
              && DeclaredAt(file, from, name, k) && (forall j | 0 <= j < k :: !DeclaredAt(file, from, name, j))
              && r.value == Body(file.attrs, file.blocks[k := Block("resource", [to, name], file.blocks[k].body)]))
  {
    FindDeclares(file, from, name);
    FindDeclares(file, to, name);
    hide Find, ValidIdentifier, Declares;
    var i := Find(file.blocks, from, name);
    if i < |file.blocks| {
      assert DeclaredAt(file, from, name, i);
      assert forall j | 0 <= j < i :: !DeclaredAt(file, from, name, j);
    }
  }

  lemma FindDeclares(file: Body, typ: string, name: string)
    ensures var i := Find(file.blocks, typ, name);
      && (Declares(file, typ, name) <==> i < |file.blocks|)
      && (i < |file.blocks| ==> DeclaredAt(file, typ, name, i)) && forall j | 0 <= j < i :: !DeclaredAt(file, typ, name, j)
  {
    var i := Find(file.blocks, typ, name);
    hide Find;
    assert i < |file.blocks| ==> DeclaredAt(file, typ, name, i);
  }

  // An edit of a body is made on the first resource of its address; without one it fails, unless it
  // renames something to itself.
  lemma InResourceIff(file: Body, typ: string, name: string, change: Change, isAddress: string -> bool)
    ensures var r := AppliedTo(file, InResource(typ, name, change), isAddress);
      && (!Declares(file, typ, name) ==> r == (if NamesValid(change) && Idle(change) then Some(file) else None))
      && forall k | 0 <= k < |file.blocks| && DeclaredAt(file, typ, name, k) && (forall j | 0 <= j < k :: !DeclaredAt(file, typ, name, j)) ::
           match Applied(file.blocks[k].body, change)
           case None => r == None
           case Some(body) => r == Some(Body(file.attrs, file.blocks[k := Block("resource", [typ, name], body)]))
  {
    FindDeclares(file, typ, name);
    hide Find, Applied, NamesValid, Idle, Declares;
  }

  // ---- Where "found in the body" is not enough ----

  // Two blocks of one type, the attribute in the first only: it was found in this very body, and yet
  // the rename fails, because it wants the old or the new name in every matched block.
  lemma RepeatedBlocksCanFail()
    ensures var first, second := Block("backend", [], Body(map["port" := "80"], [])), Block("backend", [], Body(map[], []));
      var body := Body(map[], [first, second]);
      && first.body in Matching(body, ["backend"]) && "port" in first.body.attrs
      && Applied(body, RenameAttribute(["backend"], "port", "tcp_port")) == None
      && Applied(Body(map[], [first]), RenameAttribute(["backend"], "port", "tcp_port")).Some?
  {
    var first, second := Block("backend", [], Body(map["port" := "80"], [])), Block("backend", [], Body(map[], []));
    var change := RenameAttribute(["backend"], "port", "tcp_port");
    var path := ["backend"];
    assert path[1..] == [] && [first, second][1..] == [second] && [second][1..] == [] && [first][1..] == [];
    assert ValidIdentifier("tcp_port");
    assert Matching(first.body, []) == [first.body] && Matching(second.body, []) == [second.body];
    assert MatchingIn([second], path) == [second.body] + MatchingIn([], path);
    assert MatchingIn([first, second], path) == [first.body] + MatchingIn([second], path);
    assert MatchingIn([first], path) == [first.body] + MatchingIn([], path);
    assert At(second.body, [], Editor(change)) == None;
    assert AtBlock(second, path, Editor(change)) == None;
    assert AtBlocks([second], path, Editor(change)) == None;
    assert AtBlocks([first, second], path, Editor(change)) == None;
    assert Matching(Body(map[], [first, second]), path) == MatchingIn([first, second], path);
    assert At(first.body, [], Editor(change)).Some?;
    assert AtBlock(first, path, Editor(change)).Some?;
    assert AtBlocks([], path, Editor(change)) == Some([]);
    assert AtBlocks([first], path, Editor(change)).Some?;
    assert Matching(Body(map[], [first]), path) == MatchingIn([first], path);
  }
}
