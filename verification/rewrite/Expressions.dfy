// Where every expression of a resource goes: the translation moves each to one place and invents none.
module Expressions {
  import opened Wrappers
  import opened Tree
  import Identifier
  import opened Translate
  import TranslateAll
  import BlockNames

  // ---- Positions in a body ----

  // A nested body by the indices of the blocks around it.
  type Position = seq<nat>

  function BodyAt(body: Body, at: Position): Option<Body>
    decreases |at|
  {
    if at == [] then Some(body)
    else if at[0] < |body.blocks| then BodyAt(body.blocks[at[0]].body, at[1..]) else None
  }

  // The types of the blocks around it: the path rules know it by.
  function TypesAt(body: Body, at: Position): (types: seq<string>)
    requires BodyAt(body, at).Some?
    ensures |types| == |at|
    decreases |at|
  {
    if at == [] then [] else [body.blocks[at[0]].typ] + TypesAt(body.blocks[at[0]].body, at[1..])
  }

  function Expr(body: Body, at: Position, a: string): Option<string> {
    match BodyAt(body, at)
    case Some(b) => if a in b.attrs then Some(b.attrs[a]) else None
    case None => None
  }

  datatype Place = Place(at: Position, name: string)

  // Where the rules take an attribute, if they keep it.
  function Goes(table: Table, body: Body, at: Position, a: string): Option<Place>
    requires BodyAt(body, at).Some?
  {
    var key := (TypesAt(body, at), a);
    if key !in table then Some(Place(at, a))
    else
      match table[key]
      case Drop => None
      case To(name) => Some(Place(at, name))
      case Into(target) => Some(Place([First(body.blocks, SETTINGS)], target))
  }

  // ---- What a translation must do with them ----

  ghost predicate Arrives(table: Table, body: Body, out: Body, at: Position, a: string) {
    Expr(body, at, a).Some? ==>
      match Goes(table, body, at, a)
      case None => Expr(out, at, a).None?
      case Some(p) => Expr(out, p.at, p.name) == Expr(body, at, a) && (p != Place(at, a) ==> Expr(out, at, a).None?)
  }

  // An attribute of the source that the rules take to this place, with this expression.
  ghost predicate Brings(table: Table, body: Body, out: Body, p: Place, at: Position, a: string) {
    Expr(body, at, a).Some? && Expr(out, p.at, p.name) == Expr(body, at, a) && Goes(table, body, at, a) == Some(p)
  }

  ghost predicate HasSource(table: Table, body: Body, out: Body, p: Place) {
    Expr(out, p.at, p.name).Some? ==> exists at, a :: Brings(table, body, out, p, at, a)
  }

  ghost predicate Apart(table: Table, body: Body, at: Position, a: string, at': Position, a': string) {
    Expr(body, at, a).Some? && Expr(body, at', a').Some? && (at, a) != (at', a') && Goes(table, body, at, a).Some? ==>
      Goes(table, body, at, a) != Goes(table, body, at', a')
  }

  // Every attribute arrives where its rule says with its own expression, or is dropped; every
  // attribute of the result came from one of the source; no two meet.
  ghost predicate KeepsExpressions(table: Table, body: Body, out: Body) {
    && (forall at, a :: Arrives(table, body, out, at, a))
    && (forall p :: HasSource(table, body, out, p))
    && (forall at, a, at', a' :: Apart(table, body, at, a, at', a'))
  }

  // The type and labels of the block at a position.
  function HeadAt(body: Body, at: Position): Option<(string, seq<string>)>
    decreases |at|
  {
    if at == [] || at[0] >= |body.blocks| then None
    else if |at| == 1 then Some((body.blocks[at[0]].typ, body.blocks[at[0]].labels))
    else HeadAt(body.blocks[at[0]].body, at[1..])
  }

  function Renamed(names: BlockNames.Names, at: Position, head: (string, seq<string>)): (string, seq<string>) {
    if |at| == 1 then (BlockNames.NewName(names, head.0), head.1) else head
  }

  predicate BlockKept(names: BlockNames.Names, body: Body, out: Body, at: Position) {
    match HeadAt(body, at)
    case Some(head) => HeadAt(out, at) == Some(Renamed(names, at, head))
    case None => HeadAt(out, at) == None || (HeadAt(out, at) == Some(Renamed(names, at, (SETTINGS, []))) && at == [|body.blocks|])
  }

  // Blocks keep their positions and labels, top-level ones under their new names; at most one block
  // is new, for the settings, after all others.
  ghost predicate KeepsBlocks(names: BlockNames.Names, body: Body, out: Body) {
    forall at :: BlockKept(names, body, out, at)
  }

  // ---- Bodies under a position ----

  lemma {:induction false} NewBodyAt(table: Table, path: seq<string>, body: Body, at: Position)
    ensures var out := NewBody(table, path, body);
      && (BodyAt(out, at).Some? <==> BodyAt(body, at).Some?)
      && (BodyAt(body, at).Some? ==> BodyAt(out, at).value == NewBody(table, path + TypesAt(body, at), BodyAt(body, at).value))
    decreases |at|
  {
    if at == [] {
      assert path + [] == path;
    } else if at[0] < |body.blocks| {
      var block := body.blocks[at[0]];
      TranslateAll.NewBlockAt(table, path, body.blocks, at[0]);
      NewBodyAt(table, path + [block.typ], block.body, at[1..]);
      if BodyAt(body, at).Some? {
        assert path + TypesAt(body, at) == path + [block.typ] + TypesAt(block.body, at[1..]);
      }
    }
  }

  lemma {:induction false} FitsBelowAt(table: Table, path: seq<string>, body: Body, at: Position)
    requires FitsBelow(table, path, body) && BodyAt(body, at).Some?
    ensures FitsBelow(table, path + TypesAt(body, at), BodyAt(body, at).value)
    decreases |at|
  {
    hide FitsBelow;
    if at == [] {
      assert path + [] == path;
    } else {
      var block := body.blocks[at[0]];
      FitsBelowBlock(table, path, body, at[0]);
      FitsBelowAt(table, path + [block.typ], block.body, at[1..]);
      assert path + TypesAt(body, at) == path + [block.typ] + TypesAt(block.body, at[1..]);
    }
  }

  // The bodies an edit matches are those at the positions with the types of its path.
  lemma {:induction false} MatchedIff(body: Body, path: seq<string>, b: Body)
    ensures b in Matching(body, path) <==> exists at :: IsAt(body, path, b, at)
    decreases |path|, |body.blocks| + 1
  {
    if path == [] {
      assert b == body ==> IsAt(body, [], b, []);
    } else {
      if b in Matching(body, path) {
        var i := MatchedBlock(body.blocks, path, b);
        MatchedIff(body.blocks[i].body, path[1..], b);
        var rest :| IsAt(body.blocks[i].body, path[1..], b, rest);
        assert ([i] + rest)[1..] == rest;
        assert IsAt(body, path, b, [i] + rest);
      }
      if at :| IsAt(body, path, b, at) {
        MatchedIff(body.blocks[at[0]].body, path[1..], b);
        assert IsAt(body.blocks[at[0]].body, path[1..], b, at[1..]);
        MatchingOfBlock(body.blocks, path, at[0], b);
      }
    }
  }

  predicate IsAt(body: Body, path: seq<string>, b: Body, at: Position) {
    BodyAt(body, at) == Some(b) && TypesAt(body, at) == path
  }

  lemma {:induction false} MatchedBlock(blocks: seq<Block>, path: seq<string>, b: Body) returns (i: nat)
    requires path != [] && b in MatchingIn(blocks, path)
    ensures i < |blocks| && blocks[i].typ == path[0] && b in Matching(blocks[i].body, path[1..])
  {
    if blocks[0].typ == path[0] && b in Matching(blocks[0].body, path[1..]) {
      i := 0;
    } else {
      var j := MatchedBlock(blocks[1..], path, b);
      i := j + 1;
    }
  }

  // The rules at a position act on its attributes as on those of any one body.
  lemma LocalAt(table: Table, body: Body, at: Position)
    requires Independent(table) && TableFits(table, body) && BodyAt(body, at).Some?
    ensures var local := AtPath(table, TypesAt(body, at));
      && LocalIndependent(local) && LocalFits(local, BodyAt(body, at).value.attrs)
      && BodyAt(NewBody(table, [], body), at).Some?
      && BodyAt(NewBody(table, [], body), at).value.attrs == NewAttrs(local, BodyAt(body, at).value.attrs)
  {
    var path := TypesAt(body, at);
    assert [] + path == path;
    IndependentAt(table, path);
    FitsBelowRoot(table, body);
    FitsBelowAt(table, [], body, at);
    FitsHere(table, path, BodyAt(body, at).value);
    NewBodyAt(table, [], body, at);
    hide Independent, TableFits, FitsBelow, LocalIndependent, LocalFits, NewAttrs, AtPath;
  }

  // ---- The settings block ----

  lemma SameBlocksBelow(body: Body, other: Body, at: Position)
    requires body.blocks == other.blocks && at != []
    ensures BodyAt(body, at) == BodyAt(other, at)
  {
  }

  lemma BodyOfBlock(body: Body, i: nat)
    ensures BodyAt(body, [i]) == if i < |body.blocks| then Some(body.blocks[i].body) else None
  {
    assert [i][0] == i && [i][1..] == [];
  }

  lemma NestedExpr(body: Body, a: string)
    ensures Nested(body.blocks, SETTINGS, a) <==> Expr(body, [First(body.blocks, SETTINGS)], a).Some?
  {
    BodyOfBlock(body, First(body.blocks, SETTINGS));
  }

  // Attributes moved in are found in the settings block, and nothing else is.
  lemma ExprWithSettings(body: Body, incoming: map<string, string>, at: Position, a: string)
    ensures Expr(WithSettings(body, incoming), at, a) ==
      if at == [First(body.blocks, SETTINGS)] && a in incoming then Some(incoming[a]) else Expr(body, at, a)
  {
    var i, out := First(body.blocks, SETTINGS), WithSettings(body, incoming);
    BodyOfBlock(body, i);
    BodyOfBlock(out, i);
    if incoming != map[] && at != [] && at != [i] {
      SettingsBlocks(body, incoming);
      if at[0] == i && at[1..] != [] {
        var there := if i < |body.blocks| then body.blocks[i].body else Body(map[], []);
        SameBlocksBelow(out.blocks[i].body, there, at[1..]);
      }
      assert BodyAt(out, at) == BodyAt(body, at);
    }
  }

  lemma SettingsBlocks(body: Body, incoming: map<string, string>)
    requires incoming != map[]
    ensures var i, out := First(body.blocks, SETTINGS), WithSettings(body, incoming);
      && i < |out.blocks| && |out.blocks| == (if i < |body.blocks| then |body.blocks| else i + 1)
      && (forall k | 0 <= k < |body.blocks| && k != i :: out.blocks[k] == body.blocks[k])
      && out.blocks[i].body.blocks == if i < |body.blocks| then body.blocks[i].body.blocks else []
  {
  }

  // ---- The translation keeps expressions ----

  // Where an attribute is in the translation, before looking at what moved where.
  lemma ExprTranslated(table: Table, body: Body, at: Position, n: string)
    requires Independent(table) && TableFits(table, body)
    ensures var incoming := Incoming(AtPath(table, []), body.attrs);
      Expr(Translated(table, body), at, n) ==
      if at == [First(body.blocks, SETTINGS)] && n in incoming then Some(incoming[n])
      else if BodyAt(body, at).None? then None
      else
        var attrs := NewAttrs(AtPath(table, TypesAt(body, at)), BodyAt(body, at).value.attrs);
        if n in attrs then Some(attrs[n]) else None
  {
    hide NewAttrs, Incoming, AtPath, Independent, TableFits, First, BodyAt;
    var out := NewBody(table, [], body);
    ExprWithSettings(out, Incoming(AtPath(table, []), body.attrs), at, n);
    TranslateAll.SameFirst(table, [], body.blocks, SETTINGS);
    NewBodyAt(table, [], body, at);
    if BodyAt(body, at).Some? { LocalAt(table, body, at); }
  }

  // Moves are for top-level attributes, and no rule is for the settings block.
  lemma RulesAt(table: Table, body: Body, at: Position, a: string)
    requires Independent(table) && BodyAt(body, at).Some?
    ensures var key := (TypesAt(body, at), a);
      && (key in table && table[key].Into? ==> at == [])
      && (key in table && at == [First(body.blocks, SETTINGS)] ==> false)
  {
  }

  // What moves in was not in the settings block.
  lemma IncomingIsNew(table: Table, body: Body, n: string)
    requires Independent(table) && TableFits(table, body) && n in Incoming(AtPath(table, []), body.attrs)
    ensures Expr(body, [First(body.blocks, SETTINGS)], n).None?
  {
    var a := Source(AtPath(table, []), body.attrs, n);
    hide Incoming, Independent, Identifier.ValidIdentifier, Nested, Count, Expr;
    assert ([], a) in table && table[([], a)] == Into(n);
    assert Fits(Rule([], a, table[([], a)]), body);
    NestedExpr(body, n);
  }

  // The image of an attribute in its own body, by its rule.
  lemma ImageOfRule(table: Table, path: seq<string>, a: string)
    ensures Image(AtPath(table, path), a) ==
      if (path, a) !in table then Some(a) else if table[(path, a)].To? then Some(table[(path, a)].name) else None
  {
  }

  lemma ArrivesHere(table: Table, body: Body, at: Position, a: string)
    requires Independent(table) && TableFits(table, body)
    ensures Arrives(table, body, Translated(table, body), at, a)
  {
    if Expr(body, at, a).Some? {
      var local, attrs := AtPath(table, TypesAt(body, at)), BodyAt(body, at).value.attrs;
      var top, i := AtPath(table, []), First(body.blocks, SETTINGS);
      var out := Translated(table, body);
      var key := (TypesAt(body, at), a);
      LocalAt(table, body, at);
      RulesAt(table, body, at, a);
      ImageOfRule(table, TypesAt(body, at), a);
      ExprTranslated(table, body, at, a);
      if Image(local, a).Some? {
        NewAttrsHas(local, attrs, a);
        ExprTranslated(table, body, at, Image(local, a).value);
        if Image(local, a).value in Incoming(top, body.attrs) { IncomingIsNew(table, body, Image(local, a).value); }
      }
      if a in local { SourceGone(local, attrs, a); }
      if key in table && table[key].Into? {
        TranslateAll.IncomingHas(top, body.attrs, a);
        ExprTranslated(table, body, [i], table[key].target);
      }
      if a in Incoming(top, body.attrs) { IncomingIsNew(table, body, a); }
    }
  }

  lemma SourceOf(table: Table, body: Body, p: Place)
    requires Independent(table) && TableFits(table, body)
    ensures HasSource(table, body, Translated(table, body), p)
  {
    var out, top := Translated(table, body), AtPath(table, []);
    if Expr(out, p.at, p.name).Some? {
      ExprTranslated(table, body, p.at, p.name);
      if p.at == [First(body.blocks, SETTINGS)] && p.name in Incoming(top, body.attrs) {
        var a := Source(top, body.attrs, p.name);
        TranslateAll.IncomingHas(top, body.attrs, a) by { IndependentAt(table, []); }
        assert BodyAt(body, []) == Some(body) && TypesAt(body, []) == [];
        assert Brings(table, body, out, p, [], a);
      } else {
        var local, attrs := AtPath(table, TypesAt(body, p.at)), BodyAt(body, p.at).value.attrs;
        LocalAt(table, body, p.at);
        NewAttrsOnly(local, attrs, p.name);
        var a :| a in attrs && Image(local, a) == Some(p.name) && NewAttrs(local, attrs)[p.name] == attrs[a];
        ImageOfRule(table, TypesAt(body, p.at), a);
        assert Brings(table, body, out, p, p.at, a);
      }
    }
  }

  // Two attributes that stay in their bodies do not meet there.
  lemma StayApart(table: Table, body: Body, at: Position, a: string, a': string)
    requires Independent(table) && TableFits(table, body) && a != a'
    requires Expr(body, at, a).Some? && Expr(body, at, a').Some?
    ensures var local := AtPath(table, TypesAt(body, at)); Image(local, a).Some? ==> Image(local, a) != Image(local, a')
  {
    LocalAt(table, body, at);
    OnlyOneImage(AtPath(table, TypesAt(body, at)), BodyAt(body, at).value.attrs, a, a');
  }

  // Where the rules take an attribute, by whether they move it into the settings block.
  lemma GoesWhere(table: Table, body: Body, at: Position, a: string)
    requires Independent(table) && BodyAt(body, at).Some?
    ensures var key := (TypesAt(body, at), a);
      if key in table && table[key].Into? then at == [] && Goes(table, body, at, a) == Some(Place([First(body.blocks, SETTINGS)], table[key].target))
      else match Image(AtPath(table, key.0), a)
        case Some(name) => Goes(table, body, at, a) == Some(Place(at, name)) && (at == [First(body.blocks, SETTINGS)] ==> name == a)
        case None => Goes(table, body, at, a).None?
  {
    RulesAt(table, body, at, a);
    ImageOfRule(table, TypesAt(body, at), a);
  }

  lemma TargetsApart(table: Table, a: string, a': string)
    requires Independent(table) && a != a' && ([], a) in table && ([], a') in table
    requires table[([], a)].Into? && table[([], a')].Into?
    ensures table[([], a)].target != table[([], a')].target
  {
    assert NoShare(table, ([], a), ([], a'));
  }

  lemma ApartHere(table: Table, body: Body, at: Position, a: string, at': Position, a': string)
    requires Independent(table) && TableFits(table, body)
    ensures Apart(table, body, at, a, at', a')
  {
    if Expr(body, at, a).Some? && Expr(body, at', a').Some? && (at, a) != (at', a') {
      var key, key' := (TypesAt(body, at), a), (TypesAt(body, at'), a');
      GoesWhere(table, body, at, a);
      GoesWhere(table, body, at', a');
      hide Independent, TableFits, Goes, Expr, AtPath, Image, First;
      var into, into' := key in table && table[key].Into?, key' in table && table[key'].Into?;
      if into && into' {
        TargetsApart(table, a, a');
      } else if into {
        MovedIsNew(table, body, a);
      } else if into' {
        MovedIsNew(table, body, a');
      } else if at == at' {
        StayApart(table, body, at, a, a');
      }
    }
  }

  lemma MovedIsNew(table: Table, body: Body, a: string)
    requires Independent(table) && TableFits(table, body)
    requires Expr(body, [], a).Some? && ([], a) in table && table[([], a)].Into?
    ensures Expr(body, [First(body.blocks, SETTINGS)], table[([], a)].target).None?
  {
    IndependentAt(table, []);
    TranslateAll.IncomingHas(AtPath(table, []), body.attrs, a);
    IncomingIsNew(table, body, table[([], a)].target);
  }

  // No expression is lost, altered or invented, at any depth: the attributes of the translation are
  // those of the resource that no rule drops, each at the one place its rule gives it.
  lemma ExpressionsKept(table: Table, body: Body)
    requires Independent(table) && TableFits(table, body)
    ensures KeepsExpressions(table, body, Translated(table, body))
  {
    hide Independent, TableFits, Translated, Arrives, HasSource, Apart;
    forall at, a ensures Arrives(table, body, Translated(table, body), at, a) {
      ArrivesHere(table, body, at, a);
    }
    forall p ensures HasSource(table, body, Translated(table, body), p) {
      SourceOf(table, body, p);
    }
    forall at, a, at', a' ensures Apart(table, body, at, a, at', a') {
      ApartHere(table, body, at, a, at', a');
    }
  }

  // ---- Blocks stay where they are ----

  lemma {:induction false} SameHeads(table: Table, path: seq<string>, body: Body, at: Position)
    ensures HeadAt(NewBody(table, path, body), at) == HeadAt(body, at)
    decreases |at|
  {
    if at != [] && at[0] < |body.blocks| {
      var block := body.blocks[at[0]];
      TranslateAll.NewBlockAt(table, path, body.blocks, at[0]);
      SameHeads(table, path + [block.typ], block.body, at[1..]);
    }
  }

  lemma SameHeadsBelow(body: Body, other: Body, at: Position)
    requires body.blocks == other.blocks
    ensures HeadAt(body, at) == HeadAt(other, at)
  {
  }

  lemma HeadsWithSettings(body: Body, incoming: map<string, string>, at: Position)
    ensures var head, out := HeadAt(body, at), HeadAt(WithSettings(body, incoming), at);
      out == head || (head.None? && out == Some((SETTINGS, [])) && at == [|body.blocks|])
  {
    var i, out := First(body.blocks, SETTINGS), WithSettings(body, incoming);
    if incoming != map[] && at != [] {
      SettingsBlocks(body, incoming);
      if at[0] == i {
        SameHeadsBelow(out.blocks[i].body, if i < |body.blocks| then body.blocks[i].body else Body(map[], []), at[1..]);
        assert |at| == 1 ==> at == [i];
      }
    }
  }

  // Renaming blocks moves nothing.
  lemma RenamingKeeps(names: BlockNames.Names, body: Body, at: Position)
    ensures forall a :: Expr(BlockNames.RenamedBody(names, body), at, a) == Expr(body, at, a)
    ensures HeadAt(BlockNames.RenamedBody(names, body), at) ==
      match HeadAt(body, at) case Some(head) => Some(Renamed(names, at, head)) case None => None
  {
  }

  // Translated by all rules at once and with its blocks renamed, a resource keeps its expressions and
  // its blocks.
  lemma BodyKept(table: Table, names: BlockNames.Names, body: Body)
    requires Independent(table) && TableFits(table, body)
    ensures var out := BlockNames.RenamedBody(names, Translated(table, body));
      KeepsExpressions(table, body, out) && KeepsBlocks(names, body, out)
  {
    var mid := Translated(table, body);
    var out := BlockNames.RenamedBody(names, mid);
    ExpressionsKept(table, body);
    hide Independent, TableFits, BlockNames.RenamedBody, KeepsExpressions, BlockKept, Translated, Expr;
    forall at, a ensures Expr(out, at, a) == Expr(mid, at, a) {
      RenamingKeeps(names, mid, at);
    }
    forall at ensures BlockKept(names, body, out, at) {
      HeadsKept(table, names, body, at);
    }
    SameExpressions(table, body, mid, out);
  }

  lemma HeadsKept(table: Table, names: BlockNames.Names, body: Body, at: Position)
    ensures BlockKept(names, body, BlockNames.RenamedBody(names, Translated(table, body)), at)
  {
    SameHeads(table, [], body, at);
    HeadsWithSettings(NewBody(table, [], body), Incoming(AtPath(table, []), body.attrs), at);
    RenamingKeeps(names, Translated(table, body), at);
    hide WithSettings, BlockNames.RenamedBody, Incoming, AtPath, HeadAt;
  }

  lemma SameExpressions(table: Table, body: Body, mid: Body, out: Body)
    requires KeepsExpressions(table, body, mid) && forall at, a :: Expr(out, at, a) == Expr(mid, at, a)
    ensures KeepsExpressions(table, body, out)
  {
    hide Expr, Goes;
    forall at, a ensures Arrives(table, body, out, at, a) {
      assert Arrives(table, body, mid, at, a);
    }
    forall p ensures HasSource(table, body, out, p) {
      assert HasSource(table, body, mid, p);
      if Expr(out, p.at, p.name).Some? {
        var at, a :| Brings(table, body, mid, p, at, a);
        assert Brings(table, body, out, p, at, a);
      }
    }
  }
}
