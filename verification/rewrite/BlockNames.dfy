// Renaming the top-level blocks of a resource, by many rules at once and one edit after the other.
module BlockNames {
  import opened Maps
  import opened Wrappers
  import opened Identifier
  import opened Tree
  import Tables

  type Names = map<string, string>

  datatype Renaming = Renaming(from: string, to: string)

  function ToChange(r: Renaming): Change {
    RenameBlock([], r.from, r.to)
  }

  function NewName(names: Names, typ: string): string {
    if typ in names then names[typ] else typ
  }

  // Every top-level block under its new name, by all rules at once.
  function Renamed(names: Names, blocks: seq<Block>): (r: seq<Block>)
    ensures |r| == |blocks|
    ensures forall k | 0 <= k < |blocks| :: r[k] == blocks[k].(typ := NewName(names, blocks[k].typ))
  {
    if blocks == [] then [] else [blocks[0].(typ := NewName(names, blocks[0].typ))] + Renamed(names, blocks[1..])
  }

  function RenamedBody(names: Names, body: Body): Body {
    body.(blocks := Renamed(names, body.blocks))
  }

  // No renaming feeds another, and no two share a target.
  ghost predicate Separate(names: Names) {
    && (forall k | k in names :: names[k] == k || names[k] !in names)
    && (forall k, m | k in names && m in names && k != m :: names[k] != names[m])
  }

  // There is something to rename, or something renamed already.
  predicate Fits(r: Renaming, body: Body) {
    ValidIdentifier(r.to) && (r.from == r.to || Count(body.blocks, r.from) > 0 || Count(body.blocks, r.to) > 0)
  }

  function From(r: Renaming): string {
    r.from
  }

  function To(r: Renaming): string {
    r.to
  }

  function Extended(names: Names, renamings: seq<Renaming>): Names {
    Tables.Extended(names, renamings, From, To)
  }

  lemma {:induction false} CountHas(blocks: seq<Block>, typ: string)
    ensures Count(blocks, typ) > 0 <==> exists k | 0 <= k < |blocks| :: blocks[k].typ == typ
  {
    if blocks != [] {
      CountHas(blocks[1..], typ);
      if blocks[0].typ != typ {
        assert forall k | 1 <= k < |blocks| :: blocks[k] == blocks[1..][k - 1];
        assert forall k | 0 <= k < |blocks| - 1 :: blocks[1..][k] == blocks[k + 1];
      }
    }
  }

  lemma {:induction false} RetypedRenamed(names: Names, blocks: seq<Block>, r: Renaming)
    requires Separate(names[r.from := r.to]) && (r.from !in names || names[r.from] == r.to)
    ensures Retyped(Renamed(names, blocks), r.from, r.to) == Renamed(names[r.from := r.to], blocks)
  {
    var names' := names[r.from := r.to];
    assert forall k | k in names :: k in names' && names'[k] == names[k];
    forall k | 0 <= k < |blocks|
      ensures Retyped(Renamed(names, blocks), r.from, r.to)[k] == Renamed(names', blocks)[k]
    {
      var typ := blocks[k].typ;
      assert typ in names && names[typ] == r.from ==> names'[typ] in names';
    }
  }

  // Which block types the next renaming finds.
  lemma FoundAfter(names: Names, blocks: seq<Block>, r: Renaming)
    requires Separate(names[r.from := r.to]) && r.from != r.to && (r.from !in names || names[r.from] == r.to)
    ensures Count(Renamed(names, blocks), r.from) > 0 || Count(Renamed(names, blocks), r.to) > 0 <==>
      Count(blocks, r.from) > 0 || Count(blocks, r.to) > 0
  {
    var names' := names[r.from := r.to];
    var after := Renamed(names, blocks);
    CountHas(blocks, r.from);
    CountHas(blocks, r.to);
    CountHas(after, r.from);
    CountHas(after, r.to);
    assert forall k | k in names :: k in names' && names'[k] == names[k];
    assert r.from in names' && names'[r.from] == r.to;
    forall k | 0 <= k < |blocks|
      ensures after[k].typ == r.from || after[k].typ == r.to <==> blocks[k].typ == r.from || blocks[k].typ == r.to
    {
      var typ := blocks[k].typ;
      assert typ in names ==> names'[typ] == names[typ];
    }
  }

  lemma Step(names: Names, r: Renaming, body: Body)
    requires Separate(names[r.from := r.to]) && (r.from !in names || names[r.from] == r.to)
    ensures Applied(RenamedBody(names, body), ToChange(r)) ==
      if Fits(r, body) then Some(RenamedBody(names[r.from := r.to], body)) else None
  {
    var y := RenamedBody(names, body);
    RetypedRenamed(names, body.blocks, r);
    if r.from == r.to {
      assert Renamed(names[r.from := r.to], body.blocks) == Renamed(names, body.blocks);
    } else {
      FoundAfter(names, body.blocks, r);
      assert Matching(y, []) == [y];
      assert HasBlock([y], r.from) <==> Count(y.blocks, r.from) > 0 by { assert [y][0] == y; }
      assert HasBlock([y], r.to) <==> Count(y.blocks, r.to) > 0 by { assert [y][0] == y; }
      assert At(y, [], Editor(ToChange(r))) == EditBody(y, ToChange(r));
    }
    hide Count, Renamed, Retyped, Separate, ValidIdentifier;
  }

  function ToChanges(renamings: seq<Renaming>): (changes: seq<Change>)
    ensures |changes| == |renamings|
  {
    Tables.Mapped(renamings, ToChange)
  }

  ghost predicate Agreeing(renamings: seq<Renaming>) {
    Tables.Agreeing(renamings, From, To)
  }

  predicate AllFit(renamings: seq<Renaming>, body: Body) {
    forall r | r in renamings :: Fits(r, body)
  }

  lemma {:induction false} RunFrom(names: Names, renamings: seq<Renaming>, full: Names, body: Body)
    requires Separate(full) && Within(names, full)
    requires forall r | r in renamings :: r.from in full && full[r.from] == r.to
    ensures RunChanges(RenamedBody(names, body), ToChanges(renamings)) ==
      if AllFit(renamings, body) then Some(RenamedBody(Extended(names, renamings), body)) else None
    decreases |renamings|
  {
    hide Fits, Applied, ToChange, RenamedBody;
    if renamings != [] {
      var r, names' := renamings[0], names[renamings[0].from := renamings[0].to];
      assert r in renamings;
      assert Separate(names') by {
        assert forall k | k in names' :: k in full && names'[k] == full[k];
      }
      Step(names, r, body);
      assert ToChanges(renamings)[0] == ToChange(r) && ToChanges(renamings)[1..] == ToChanges(renamings[1..]);
      assert forall x :: x in renamings <==> x == r || x in renamings[1..];
      assert AllFit(renamings, body) <==> Fits(r, body) && AllFit(renamings[1..], body);
      hide AllFit, Separate;
      if Fits(r, body) {
        RunFrom(names', renamings[1..], full, body);
      }
    }
  }

  // Block renames, one after the other in any order, go through exactly when each finds its blocks
  // under the old or the new name, and then amount to renaming by all rules at once.
  lemma RenamingsTranslate(renamings: seq<Renaming>, body: Body)
    requires Agreeing(renamings) && Separate(Extended(map[], renamings))
    ensures RunChanges(body, ToChanges(renamings)) ==
      if AllFit(renamings, body) then Some(RenamedBody(Extended(map[], renamings), body)) else None
  {
    assert Renamed(map[], body.blocks) == body.blocks;
    RunFrom(map[], renamings, Extended(map[], renamings), body);
  }
}
