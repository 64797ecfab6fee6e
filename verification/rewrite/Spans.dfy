// Renaming and removing attributes by byte ranges, over repeated blocks.
module Spans {
  import opened Wrappers
  import opened Sorting
  import opened Splice
  import opened Identifier
  import opened Nest

  datatype Range = Range(start: int, end: int)

  // A matched body: where the old name stands, and whether the new one is there already.
  datatype Matched = Matched(from: Option<Range>, hasTo: bool)

  datatype SpanError = BadIdentifier | ResourceMissing(reason: Lookup) | PathNotFound | NeitherExists | BothExist | LinesUnsafe | Overlapping

  // ---- Renaming ----

  predicate HasOne(m: Matched) {
    m.from.Some? != m.hasTo
  }

  // One replacement for each body that still has the old name.
  function NameEdits(bodies: seq<Matched>, to: string): seq<Replacement> {
    if bodies == [] then []
    else
      (match bodies[0].from case None => [] case Some(range) => [Replacement(range.start, range.end, to)]) + NameEdits(bodies[1..], to)
  }

  // What the parser guarantees about the names it reports: ranges in the source, apart from each other.
  predicate SoundNames(source: string, bodies: seq<Matched>) {
    && (forall i | 0 <= i < |bodies| && bodies[i].from.Some? :: 0 <= bodies[i].from.value.start < bodies[i].from.value.end <= |source|)
    && (forall i, j | 0 <= i < |bodies| && 0 <= j < |bodies| && i != j && bodies[i].from.Some? && bodies[j].from.Some? ::
          bodies[i].from.value.end <= bodies[j].from.value.start || bodies[j].from.value.end <= bodies[i].from.value.start)
  }

  // A replacement is among the edits exactly when some body has the old name at its range.
  lemma {:induction false} NameEditsIff(bodies: seq<Matched>, to: string, e: Replacement)
    ensures e in NameEdits(bodies, to) <==> e.value == to && exists m | m in bodies :: m.from == Some(Range(e.start, e.end))
  {
    if bodies != [] {
      NameEditsIff(bodies[1..], to, e);
      assert forall m :: m in bodies <==> m == bodies[0] || m in bodies[1..];
    }
  }

  lemma {:induction false} NamesClear(source: string, bodies: seq<Matched>, to: string)
    requires SoundNames(source, bodies)
    ensures AllClear(source, NameEdits(bodies, to))
  {
    if bodies != [] {
      var rest := bodies[1..];
      assert forall i | 0 <= i < |rest| :: rest[i] == bodies[i + 1];
      NamesClear(source, rest, to);
      if bodies[0].from.Some? {
        var first := Replacement(bodies[0].from.value.start, bodies[0].from.value.end, to);
        forall p, q | p in [first] && q in NameEdits(rest, to) ensures Clear(p, q) {
          NameEditsIff(rest, to, q);
          var m :| m in rest && m.from == Some(Range(q.start, q.end));
          var i :| 0 <= i < |rest| && rest[i] == m;
          assert bodies[i + 1] == rest[i];
        }
        ClearTogether(source, [first], NameEdits(rest, to));
      } else {
        assert [] + NameEdits(rest, to) == NameEdits(rest, to);
      }
    }
  }

  // The first body that has both names or neither.
  function FirstBad(bodies: seq<Matched>): Option<SpanError> {
    if bodies == [] then None
    else if HasOne(bodies[0]) then FirstBad(bodies[1..])
    else if bodies[0].hasTo then Some(BothExist) else Some(NeitherExists)
  }

  lemma {:induction false} FirstBadIff(bodies: seq<Matched>)
    ensures FirstBad(bodies).None? <==> forall m | m in bodies :: HasOne(m)
    ensures FirstBad(bodies).Some? ==> IsFirstBad(bodies, FirstBad(bodies).value)
  {
    if bodies != [] {
      FirstBadIff(bodies[1..]);
      if HasOne(bodies[0]) && FirstBad(bodies).Some? {
        var i :| 0 <= i < |bodies| - 1 && Bad(bodies[1..][i], FirstBad(bodies).value) && forall j | 0 <= j < i :: HasOne(bodies[1..][j]);
        assert bodies[i + 1] == bodies[1..][i];
        assert forall j | 0 < j < i + 1 :: bodies[j] == bodies[1..][j - 1];
      } else if !HasOne(bodies[0]) {
        assert Bad(bodies[0], FirstBad(bodies).value);
      }
    }
  }

  predicate Bad(m: Matched, error: SpanError) {
    (error == BothExist && m.from.Some? && m.hasTo) || (error == NeitherExists && m.from.None? && !m.hasTo)
  }

  // The first body with both names or neither gives the error.
  ghost predicate IsFirstBad(bodies: seq<Matched>, error: SpanError) {
    exists i | 0 <= i < |bodies| :: Bad(bodies[i], error) && forall j | 0 <= j < i :: HasOne(bodies[j])
  }

  method CollectNames(bodies: seq<Matched>, to: string) returns (edits: seq<Replacement>, foundTarget: bool, error: Option<SpanError>)
    ensures error == FirstBad(bodies)
    ensures error.None? ==> edits == NameEdits(bodies, to)
  {
    edits, foundTarget, error := [], false, None;
    assert bodies[0..] == bodies && [] + NameEdits(bodies, to) == NameEdits(bodies, to);
    for i := 0 to |bodies|
      invariant FirstBad(bodies[i..]) == FirstBad(bodies)
      invariant edits + NameEdits(bodies[i..], to) == NameEdits(bodies, to)
    {
      var m := bodies[i];
      ghost var rest := NameEdits(bodies[i + 1..], to);
      assert bodies[i..][0] == m && bodies[i..][1..] == bodies[i + 1..];
      if m.from.None? {
        if !m.hasTo {
          return edits, foundTarget, Some(NeitherExists);
        }
        foundTarget := true;
        assert [] + rest == rest;
      } else {
        if m.hasTo {
          return edits, foundTarget, Some(BothExist);
        }
        var edit := Replacement(m.from.value.start, m.from.value.end, to);
        assert edits + ([edit] + rest) == (edits + [edit]) + rest;
        edits := edits + [edit];
      }
    }
    assert edits + [] == edits;
  }

  // The splice of one replacement by the new name for every old name that stands in some body, none of
  // them missing, added or repeated.
  ghost predicate RenamedBy(source: string, bodies: seq<Matched>, to: string, out: string) {
    exists edits :: AllClear(source, edits) && IsRename(bodies, to, edits) && out == Spliced(source, edits)
  }

  ghost predicate IsRename(bodies: seq<Matched>, to: string, edits: seq<Replacement>) {
    forall e :: e in edits <==> e.value == to && exists m | m in bodies :: m.from == Some(Range(e.start, e.end))
  }

  // Renames the attribute in every matched body of the resource or in none: on sound ranges it succeeds
  // exactly when each body has one of the two names, and then replaces every old name and nothing else.
  method RenameAttribute(source: string, resource: Result<seq<Matched>, Lookup>, from: string, to: string) returns (r: Result<string, SpanError>)
    ensures if !ValidIdentifier(to) then r == Failure(BadIdentifier)
      else if from == to then r == Success(source)
      else if resource.Failure? then r == Failure(ResourceMissing(resource.error))
      else
        var bodies := resource.value;
        if bodies == [] then r == Failure(PathNotFound)
        else if exists m | m in bodies :: !HasOne(m) then r.Failure? && IsFirstBad(bodies, r.error)
        else SoundNames(source, bodies) ==> r.Success? && RenamedBy(source, bodies, to, r.value)
  {
    if !ValidIdentifier(to) {
      return Failure(BadIdentifier);
    }
    if from == to {
      return Success(source);
    }
    if resource.Failure? {
      return Failure(ResourceMissing(resource.error));
    }
    var bodies := resource.value;
    if bodies == [] {
      return Failure(PathNotFound);
    }
    hide ValidIdentifier, Spliced, AllClear, IsFirstBad;
    var edits, foundTarget, error := CollectNames(bodies, to);
    FirstBadIff(bodies);
    if error.Some? {
      return Failure(error.value);
    }
    if SoundNames(source, bodies) { NamesClear(source, bodies, to); }
    r := Replaced(source, edits);
    forall e ensures e in edits <==> e.value == to && exists m | m in bodies :: m.from == Some(Range(e.start, e.end)) {
      NameEditsIff(bodies, to, e);
    }
    assert IsRename(bodies, to, edits);
  }

  // Replaces a list of ranges that may be empty.
  method Replaced(source: string, edits: seq<Replacement>) returns (r: Result<string, SpanError>)
    ensures AllClear(source, edits) ==> r == Success(Spliced(source, edits))
  {
    var changes := new Replacement[|edits|](i requires 0 <= i < |edits| => edits[i]);
    assert changes[..] == edits;
    if AllClear(source, edits) { AllClearIsDisjoint(source, edits); }
    hide Spliced, Disjoint;
    var out := Replace(source, changes);
    r := if out.Some? then Success(out.value) else Failure(Overlapping);
  }

  // ---- Removing ----

  function CutEdits(source: string, attrs: seq<Option<AttrSpan>>): Option<seq<Replacement>> {
    if attrs == [] then Some([])
    else if attrs[0].None? then CutEdits(source, attrs[1..])
    else
      var lines :- AttributeLines(source, attrs[0].value);
      var rest :- CutEdits(source, attrs[1..]);
      Some([Replacement(lines.start, lines.end, "")] + rest)
  }

  predicate SoundCuts(source: string, attrs: seq<Option<AttrSpan>>) {
    && (forall i | 0 <= i < |attrs| && attrs[i].Some? :: SoundSpan(source, attrs[i].value))
    && (forall i, j | 0 <= i < |attrs| && 0 <= j < |attrs| && i != j && attrs[i].Some? && attrs[j].Some? ::
          Apart(attrs[i].value, attrs[j].value))
  }

  // There are edits exactly when the lines of every occurrence are safe, and then a replacement is among
  // them exactly when it cuts the lines of some occurrence.
  lemma {:induction false} CutEditsIff(source: string, attrs: seq<Option<AttrSpan>>)
    ensures CutEdits(source, attrs).Some? <==> forall a | a in attrs && a.Some? :: SafeLines(source, a.value)
    ensures CutEdits(source, attrs).Some? ==> IsRemoval(source, attrs, CutEdits(source, attrs).value)
  {
    hide AttributeLines, SafeLines, Cuts;
    if attrs != [] {
      CutEditsIff(source, attrs[1..]);
      assert forall a :: a in attrs <==> a == attrs[0] || a in attrs[1..];
      if attrs[0].Some? {
        SafeLinesIff(source, attrs[0].value);
        if CutEdits(source, attrs).Some? {
          var lines := AttributeLines(source, attrs[0].value).value;
          var first, rest := Replacement(lines.start, lines.end, ""), CutEdits(source, attrs[1..]).value;
          forall e | Cuts(source, attrs[0].value, e) ensures e == first { OneCut(source, attrs[0].value, e, first); }
          assert forall e :: e in [first] + rest <==> e == first || e in rest;
        }
      }
    }
  }

  ghost predicate IsRemoval(source: string, attrs: seq<Option<AttrSpan>>, edits: seq<Replacement>) {
    forall e :: e in edits <==> exists a | a in attrs :: a.Some? && Cuts(source, a.value, e)
  }

  // The splice of one cut for every occurrence of the attribute.
  ghost predicate RemovedBy(source: string, attrs: seq<Option<AttrSpan>>, out: string) {
    exists edits :: AllClear(source, edits) && IsRemoval(source, attrs, edits) && out == Spliced(source, edits)
  }

  lemma {:induction false} CutFrom(source: string, attrs: seq<Option<AttrSpan>>, e: Replacement)
    requires CutEdits(source, attrs).Some? && e in CutEdits(source, attrs).value
    ensures exists i | 0 <= i < |attrs| :: attrs[i].Some? && CutOf(source, attrs[i].value, e)
  {
    hide AttributeLines;
    if attrs[0].None? || e in CutEdits(source, attrs[1..]).value {
      CutFrom(source, attrs[1..], e);
      var i :| 0 <= i < |attrs| - 1 && attrs[1..][i].Some? && CutOf(source, attrs[1..][i].value, e);
      assert attrs[i + 1] == attrs[1..][i];
    } else {
      assert CutOf(source, attrs[0].value, e);
    }
  }

  predicate CutOf(source: string, attr: AttrSpan, e: Replacement) {
    match AttributeLines(source, attr) case None => false case Some(lines) => e == Replacement(lines.start, lines.end, "")
  }

  // Whole lines of different attributes never overlap.
  lemma {:induction false} CutsClear(source: string, attrs: seq<Option<AttrSpan>>)
    requires SoundCuts(source, attrs) && CutEdits(source, attrs).Some?
    ensures AllClear(source, CutEdits(source, attrs).value)
  {
    hide AttributeLines, SoundSpan;
    if attrs != [] {
      var rest := attrs[1..];
      assert forall i | 0 <= i < |rest| :: rest[i] == attrs[i + 1];
      CutsClear(source, rest);
      if attrs[0].Some? {
        var lines, later := AttributeLines(source, attrs[0].value).value, CutEdits(source, rest).value;
        var first := Replacement(lines.start, lines.end, "");
        assert SoundSpan(source, attrs[0].value);
        SoundLinesHoldName(source, attrs[0].value);
        forall p, q | p in [first] && q in later ensures Clear(p, q) {
          CutFrom(source, rest, q);
          var i :| 0 <= i < |rest| && rest[i].Some? && CutOf(source, rest[i].value, q);
          assert attrs[i + 1] == rest[i] && SoundSpan(source, rest[i].value) && Apart(attrs[0].value, rest[i].value);
          TwoCutsClear(source, attrs[0].value, rest[i].value, first, q);
        }
        ClearTogether(source, [first], later);
      }
    }
  }

  lemma SoundLinesHoldName(source: string, attr: AttrSpan)
    requires SoundSpan(source, attr) && AttributeLines(source, attr).Some?
    ensures AttributeLines(source, attr).value.start < AttributeLines(source, attr).value.end <= |source|
  {
    LinesHoldName(source, attr);
  }

  lemma TwoCutsClear(source: string, x: AttrSpan, y: AttrSpan, p: Replacement, q: Replacement)
    requires SoundSpan(source, x) && SoundSpan(source, y) && Apart(x, y)
    requires CutOf(source, x, p) && CutOf(source, y, q)
    ensures Clear(p, q)
  {
    SoundLinesHoldName(source, x);
    SoundLinesHoldName(source, y);
    if x.exprEnd <= y.name { AttributeLinesApart(source, x, y); } else { AttributeLinesApart(source, y, x); }
    hide AttributeLines;
  }

  // Removes the attribute with its comments from every matched body, skipping those without it, or
  // changes nothing when the lines of some occurrence are not safe; on sound spans it never ends in the
  // overlap error.
  method RemoveAttribute(source: string, resource: Result<seq<Option<AttrSpan>>, Lookup>) returns (r: Result<string, SpanError>)
    ensures if resource.Failure? then r == Failure(ResourceMissing(resource.error))
      else
        var attrs := resource.value;
        if attrs == [] then r == Failure(PathNotFound)
        else if !forall a | a in attrs && a.Some? :: SafeLines(source, a.value) then r == Failure(LinesUnsafe)
        else SoundCuts(source, attrs) ==> r.Success? && RemovedBy(source, attrs, r.value)
  {
    if resource.Failure? {
      return Failure(ResourceMissing(resource.error));
    }
    var attrs := resource.value;
    if attrs == [] {
      return Failure(PathNotFound);
    }
    var edits: seq<Replacement> := [];
    ghost var all := CutEdits(source, attrs);
    CutEditsIff(source, attrs);
    hide SafeLines, IsRemoval, AllClear, Spliced;
    assert attrs[0..] == attrs;
    assert all.Some? ==> [] + all.value == all.value;
    hide AttributeLines;
    for i := 0 to |attrs|
      invariant all == CutsAfter(edits, CutEdits(source, attrs[i..]))
    {
      assert attrs[i..][0] == attrs[i] && attrs[i..][1..] == attrs[i + 1..];
      if attrs[i].Some? {
        var lines := FindAttributeLines(source, attrs[i].value);
        if lines.None? {
          return Failure(LinesUnsafe);
        }
        ghost var rest := CutEdits(source, attrs[i + 1..]);
        var edit := Replacement(lines.value.start, lines.value.end, "");
        assert rest.Some? ==> edits + ([edit] + rest.value) == (edits + [edit]) + rest.value;
        edits := edits + [edit];
      }
    }
    assert edits + [] == edits;
    if SoundCuts(source, attrs) { CutsClear(source, attrs); }
    r := Replaced(source, edits);
  }

  function CutsAfter(done: seq<Replacement>, rest: Option<seq<Replacement>>): Option<seq<Replacement>> {
    match rest case None => None case Some(more) => Some(done + more)
  }
}
