// Moving an attribute into a nested block by byte ranges: which lines go, and where they land.
module Nest {
  import opened Wrappers
  import opened Sorting
  import opened Splice
  import opened Reindent
  import opened Identifier

  // ---- Lines of a source by position ----

  predicate IsLineStart(source: string, a: int) {
    a == 0 || (0 < a <= |source| && source[a - 1] == '\n')
  }

  function LineStart(source: string, pos: nat): (a: nat)
    requires pos <= |source|
    ensures a <= pos && IsLineStart(source, a)
    ensures forall k | a <= k < pos :: source[k] != '\n'
  {
    if pos == 0 || source[pos - 1] == '\n' then pos else LineStart(source, pos - 1)
  }

  lemma {:induction false} LineStartUnique(source: string, a: nat, pos: nat)
    requires a <= pos <= |source| && IsLineStart(source, a) && forall k | a <= k < pos :: source[k] != '\n'
    ensures LineStart(source, pos) == a
    decreases pos
  {
    if pos > a {
      LineStartUnique(source, a, pos - 1);
    }
  }

  // Nothing but space between two positions.
  predicate BlankBetween(source: string, a: nat, b: nat)
    requires b <= |source|
  {
    forall k | a <= k < b :: IsSpace(source[k])
  }

  lemma BlankSlice(source: string, a: nat, b: nat)
    requires a <= b <= |source| && Blank(source[a..b])
    ensures BlankBetween(source, a, b)
  {
    forall k | a <= k < b ensures IsSpace(source[k]) {
      assert source[a..b][k - a] == source[k];
    }
  }

  // Just past the line break at or after pos, or the end of the source.
  function NextLine(source: string, pos: nat): (e: nat)
    requires pos <= |source|
    ensures pos <= e <= |source|
    ensures forall k | pos <= k < e - 1 :: source[k] != '\n'
    ensures e == |source| || (e > pos && source[e - 1] == '\n')
    decreases |source| - pos
  {
    if pos == |source| then pos else if source[pos] == '\n' then pos + 1 else NextLine(source, pos + 1)
  }

  // Whether the line that starts at a holds only a comment; e is the position of its line break.
  predicate CommentLine(source: string, a: nat, e: nat)
    requires a <= e <= |source|
  {
    IsComment(source[a..e])
  }

  // ---- Comments attached above an attribute ----

  // A comment line that carries the indentation of the attribute.
  predicate Attached(source: string, a: nat, e: nat, indent: string)
    requires a <= e <= |source|
  {
    indent <= source[a..e] && CommentLine(source, a, e)
  }

  // The start of the lines that move along with the line at start.
  function WithComments(source: string, start: nat, indent: string): (s: nat)
    requires start <= |source|
    ensures s <= start
    decreases start
  {
    if start == 0 then 0
    else
      var a := LineStart(source, start - 1);
      if Attached(source, a, start - 1, indent) then WithComments(source, a, indent) else start
  }

  // A whole line, without its line break at e.
  predicate IsLine(source: string, a: nat, e: nat) {
    a <= e < |source| && IsLineStart(source, a) && source[e] == '\n' && forall k | a <= k < e :: source[k] != '\n'
  }

  // Between s and start every line is an attached comment, and the line above s is none.
  ghost predicate CommentRun(source: string, s: nat, start: nat, indent: string)
    requires s <= start <= |source|
  {
    && (forall a: nat, e: nat | s <= a && e < start && IsLine(source, a, e) :: Attached(source, a, e, indent))
    && (s > 0 ==> !Attached(source, LineStart(source, s - 1), s - 1, indent))
  }

  lemma {:induction false} CommentsOnly(source: string, start: nat, indent: string)
    requires start <= |source| && IsLineStart(source, start)
    ensures var s := WithComments(source, start, indent);
      IsLineStart(source, s) && CommentRun(source, s, start, indent)
    decreases start
  {
    if start > 0 {
      var a := LineStart(source, start - 1);
      if Attached(source, a, start - 1, indent) {
        CommentsOnly(source, a, indent);
        var s := WithComments(source, a, indent);
        hide WithComments, Attached;
        forall x: nat, e: nat | s <= x && e < start && IsLine(source, x, e) ensures Attached(source, x, e, indent) {
          if e >= a {
            assert e == start - 1;
            LineStartUnique(source, x, e);
          }
        }
      }
    }
  }

  // ---- The lines of an attribute ----

  datatype AttrSpan = AttrSpan(name: nat, exprEnd: nat)

  datatype Lines = Lines(start: nat, end: nat, indent: string)

  predicate HasHeredoc(text: string) {
    exists k :: 0 <= k < |text| - 1 && text[k] == '<' && text[k + 1] == '<'
  }

  predicate GoodTrailer(text: string) {
    Blank(text) || IsComment(text)
  }

  function AttributeLines(source: string, attr: AttrSpan): (r: Option<Lines>) {
    if attr.name > |source| then None
    else
      var first := LineStart(source, attr.name);
      var indent := source[first..attr.name];
      if !Blank(indent) then None
      else if attr.exprEnd < attr.name || attr.exprEnd > |source| then None
      else
        var end := NextLine(source, attr.exprEnd);
        if !GoodTrailer(source[attr.exprEnd..end]) then None
        else if HasHeredoc(source[first..end]) then None
        else Some(Lines(WithComments(source, first, indent), end, indent))
  }

  // The search for attached comments, as a loop upwards.
  method FindAttributeLines(source: string, attr: AttrSpan) returns (r: Option<Lines>)
    ensures r == AttributeLines(source, attr)
    ensures r.Some? ==> attr.name <= |source| && r.value.start <= LineStart(source, attr.name)
    ensures r.Some? ==> CommentRun(source, r.value.start, LineStart(source, attr.name), r.value.indent)
  {
    if attr.name > |source| {
      return None;
    }
    var start := LineStart(source, attr.name);
    var indent := source[start..attr.name];
    if !Blank(indent) || attr.exprEnd < attr.name || attr.exprEnd > |source| {
      return None;
    }
    var end := NextLine(source, attr.exprEnd);
    if !GoodTrailer(source[attr.exprEnd..end]) || HasHeredoc(source[start..end]) {
      return None;
    }
    ghost var first := start;
    CommentsOnly(source, first, indent);
    hide CommentRun;
    while start > 0
      invariant start <= first
      invariant WithComments(source, start, indent) == WithComments(source, first, indent)
      decreases start
    {
      var previousStart := LineStart(source, start - 1);
      var line := source[previousStart..start - 1];
      if !(indent <= line && IsComment(line)) {
        break;
      }
      start := previousStart;
    }
    r := Some(Lines(start, end, indent));
  }

  // The line start and indentation of a closing brace that stands first on its line.
  function ClosingLine(source: string, close: nat): Option<(nat, string)> {
    if close >= |source| || source[close] != '}' then None
    else
      var a := LineStart(source, close);
      if Blank(source[a..close]) then Some((a, source[a..close])) else None
  }

  // ---- What the parser guarantees about the positions it reports ----

  // An attribute starts with an identifier, ends with a token, and does not end inside a comment line.
  predicate SoundSpan(source: string, attr: AttrSpan) {
    && attr.name < attr.exprEnd <= |source| && !IsSpace(source[attr.exprEnd - 1])
    && !CommentLine(source, LineStart(source, attr.exprEnd - 1), LineStop(source, attr.exprEnd - 1))
  }

  // The position of the line break that ends the line of pos.
  function LineStop(source: string, pos: nat): (e: nat)
    requires pos <= |source|
    ensures pos <= e <= |source|
  {
    var e := NextLine(source, pos);
    if e > pos && source[e - 1] == '\n' then e - 1 else e
  }

  predicate Apart(x: AttrSpan, y: AttrSpan) {
    x.exprEnd <= y.name || y.exprEnd <= x.name
  }

  predicate Outside(attr: AttrSpan, close: nat) {
    close < attr.name || attr.exprEnd <= close
  }

  // ---- No overlap ----

  // Two positions on lines with nothing but space before them share a line only if they are one.
  lemma FirstOnLine(source: string, p: nat, q: nat)
    requires p < |source| && q < |source| && LineStart(source, p) == LineStart(source, q)
    requires Blank(source[LineStart(source, p)..p]) && Blank(source[LineStart(source, q)..q])
    requires !IsSpace(source[p]) && !IsSpace(source[q])
    ensures p == q
  {
    var a := LineStart(source, p);
    BlankSlice(source, a, p);
    BlankSlice(source, a, q);
    hide LineStart;
  }

  lemma {:induction false} TrimToFirst(text: string, k: nat)
    requires k < |text| && Blank(text[..k]) && !IsSpace(text[k])
    ensures TrimLeft(text) == text[k..]
  {
    if k > 0 {
      assert text[..k][0] == text[0];
      assert text[1..][..k - 1] == text[..k][1..];
      TrimToFirst(text[1..], k - 1);
      assert text[1..][k - 1..] == text[k..];
    }
  }

  // A brace that stands first on its line is on no comment line.
  lemma BraceLineIsNoComment(source: string, close: nat, e: nat)
    requires ClosingLine(source, close).Some? && close < e <= |source|
    ensures !CommentLine(source, LineStart(source, close), e)
  {
    var a := LineStart(source, close);
    var line := source[a..e];
    assert line[..close - a] == source[a..close];
    TrimToFirst(line, close - a);
  }

  // The first line break at or after pos.
  lemma BreakAfter(source: string, pos: nat, b: nat)
    requires pos <= b < |source| && source[b] == '\n'
    ensures NextLine(source, pos) <= b + 1
  {
    var e := NextLine(source, pos);
    hide NextLine;
  }

  // A closing brace line outside the attribute's tokens is none of the attribute's lines.
  lemma BraceLineStaysOut(source: string, attr: AttrSpan, close: nat)
    requires SoundSpan(source, attr) && Outside(attr, close)
    requires AttributeLines(source, attr).Some? && ClosingLine(source, close).Some?
    ensures var lines, at := AttributeLines(source, attr).value, ClosingLine(source, close).value.0;
      at < lines.start || lines.end <= at
  {
    var lines, at := AttributeLines(source, attr).value, LineStart(source, close);
    var first := LineStart(source, attr.name);
    BlankSlice(source, first, attr.name);
    CommentsOnly(source, first, lines.indent);
    hide LineStart;
    if lines.start <= at < lines.end {
      if close < first {
        BraceAboveIsNoLine(source, attr, close);
      } else if close >= attr.name {
        BraceBelowAttribute(source, attr, close);
      }
    }
  }

  lemma BraceAboveIsNoLine(source: string, attr: AttrSpan, close: nat)
    requires AttributeLines(source, attr).Some? && ClosingLine(source, close).Some?
    requires close < LineStart(source, attr.name)
    ensures LineStart(source, close) < AttributeLines(source, attr).value.start
  {
    var s, first := AttributeLines(source, attr).value.start, LineStart(source, attr.name);
    var indent := AttributeLines(source, attr).value.indent;
    CommentsOnly(source, first, indent);
    hide WithComments, AttributeLines;
    BraceUnderRun(source, s, first, indent, close);
  }

  lemma BraceUnderRun(source: string, s: nat, first: nat, indent: string, close: nat)
    requires s <= first <= |source| && CommentRun(source, s, first, indent) && IsLineStart(source, first)
    requires close < first && ClosingLine(source, close).Some?
    ensures LineStart(source, close) < s
  {
    var e := LineStop(source, close);
    LineStopFound(source, close, first - 1);
    BraceLineIsNoComment(source, close, e);
    var at := LineStart(source, close);
    assert forall k | at <= k < e :: source[k] != '\n';
    hide CommentLine;
    if s <= at { CommentRunHas(source, s, first, indent, at, e); }
  }

  // The line of pos stops no later than a line break that follows.
  lemma LineStopFound(source: string, pos: nat, b: nat)
    requires pos <= b < |source| && source[b] == '\n'
    ensures LineStop(source, pos) <= b && source[LineStop(source, pos)] == '\n'
    ensures NextLine(source, pos) == LineStop(source, pos) + 1
    ensures forall k | pos <= k < LineStop(source, pos) :: source[k] != '\n'
  {
    var e := NextLine(source, pos);
    hide NextLine;
  }

  lemma CommentRunHas(source: string, s: nat, start: nat, indent: string, a: nat, e: nat)
    requires s <= start <= |source| && CommentRun(source, s, start, indent)
    requires s <= a && e < start && IsLine(source, a, e)
    ensures CommentLine(source, a, e)
  {
    hide CommentLine;
  }

  lemma BraceBelowAttribute(source: string, attr: AttrSpan, close: nat)
    requires SoundSpan(source, attr) && AttributeLines(source, attr).Some? && ClosingLine(source, close).Some?
    requires attr.exprEnd <= close
    ensures AttributeLines(source, attr).value.end <= LineStart(source, close)
  {
    var at, last := LineStart(source, close), attr.exprEnd - 1;
    BlankSlice(source, at, close);
    assert last < at;
    assert source[at - 1] == '\n' && at - 1 != last;
    BreakAfter(source, attr.exprEnd, at - 1);
  }

  // The lines of two attributes with separate tokens are separate.
  lemma AttributeLinesApart(source: string, x: AttrSpan, y: AttrSpan)
    requires SoundSpan(source, x) && SoundSpan(source, y) && x.exprEnd <= y.name
    requires AttributeLines(source, x).Some? && AttributeLines(source, y).Some?
    ensures AttributeLines(source, x).value.end <= AttributeLines(source, y).value.start
  {
    var first := LineStart(source, y.name);
    LinesShape(source, x);
    LinesShape(source, y);
    NextAttributeLine(source, x, y);
    hide AttributeLines, SoundSpan, LineStart, NextLine, WithComments, CommentRun;
    var lines := AttributeLines(source, y).value;
    RunStopsAtAttribute(source, x, lines.start, first, lines.indent);
  }

  // Where the lines of an attribute start and end.
  lemma LinesShape(source: string, attr: AttrSpan)
    requires AttributeLines(source, attr).Some?
    ensures var lines, first := AttributeLines(source, attr).value, LineStart(source, attr.name);
      && attr.name <= attr.exprEnd <= |source| && lines.end == NextLine(source, attr.exprEnd)
      && lines.start <= first && IsLineStart(source, lines.start) && CommentRun(source, lines.start, first, lines.indent)
      && Blank(source[first..attr.name])
  {
    CommentsOnly(source, LineStart(source, attr.name), AttributeLines(source, attr).value.indent);
    hide CommentRun, IsLineStart, WithComments, NextLine, LineStart;
  }

  // A later attribute starts on a later line.
  lemma NextAttributeLine(source: string, x: AttrSpan, y: AttrSpan)
    requires SoundSpan(source, x) && y.name <= |source| && x.exprEnd <= y.name
    requires Blank(source[LineStart(source, y.name)..y.name])
    ensures var first := LineStart(source, y.name); x.exprEnd <= first - 1 && source[first - 1] == '\n'
  {
    hide CommentLine, Blank;
    BlankSlice(source, LineStart(source, y.name), y.name);
    TokenBeforeLine(source, x.exprEnd - 1, LineStart(source, y.name), y.name);
  }

  // A token before an attribute that is first on its line stands on an earlier line.
  lemma TokenBeforeLine(source: string, last: nat, first: nat, name: nat)
    requires last < name <= |source| && first <= name && !IsSpace(source[last])
    requires BlankBetween(source, first, name) && IsLineStart(source, first)
    ensures last < first - 1 && source[first - 1] == '\n'
  {
    assert last < first;
  }

  // Comments above some line never reach into the lines of an attribute: its last line is no comment.
  lemma RunStopsAtAttribute(source: string, x: AttrSpan, s: nat, first: nat, indent: string)
    requires SoundSpan(source, x) && x.exprEnd <= first - 1 < |source| && source[first - 1] == '\n'
    requires s <= first && IsLineStart(source, s) && CommentRun(source, s, first, indent)
    ensures NextLine(source, x.exprEnd) <= s
  {
    hide LineStart, NextLine, LineStop, CommentRun, CommentLine;
    var last: nat := x.exprEnd - 1;
    var a, e := LineStart(source, last), LineStop(source, last);
    SameStop(source, x, first - 1);
    hide SoundSpan;
    if s <= a { CommentRunHas(source, s, first, indent, a, e); }
    assert s == 0 || source[s - 1] == '\n';
  }

  // The last token of an attribute and what follows it share their line.
  lemma SameStop(source: string, x: AttrSpan, b: nat)
    requires SoundSpan(source, x) && x.exprEnd <= b < |source| && source[b] == '\n'
    ensures var a, e := LineStart(source, x.exprEnd - 1), LineStop(source, x.exprEnd - 1);
      && a <= e <= b && source[e] == '\n' && NextLine(source, x.exprEnd) == e + 1
      && (forall k | a <= k < e :: source[k] != '\n')
      && !CommentLine(source, a, e)
  {
    var last := x.exprEnd - 1;
    hide CommentLine;
    LineStopFound(source, last, b);
    LineStopFound(source, x.exprEnd, b);
    hide LineStop, LineStart;
    assert source[last] != '\n';
    assert LineStop(source, last) > last;
    BreakAfter(source, x.exprEnd, LineStop(source, last));
    assert LineStop(source, x.exprEnd) <= LineStop(source, last);
  }

  // ---- The edit ----

  // A matched parent block: where its closing brace stands, the attribute if it has it, and its blocks
  // of the target type, each with its brace and whether it already holds the moved name.
  datatype Target = Target(close: nat, holdsName: bool)

  datatype Parent = Parent(attribute: Option<AttrSpan>, targets: seq<Target>, close: nat)

  // Why the resource of an edit cannot be looked at.
  datatype Lookup = DoesNotParse | ResourceNotFound

  datatype NestError = InvalidIdentifier | NoResource(reason: Lookup) | ParentNotFound | AmbiguousTarget | AttributeMissing | TargetExists |
    UnsafeLines | UnsafeBrace | UnsafeIndent | Overlap

  // The names of a move, after the empty target name was replaced by the attribute's own.
  datatype Move = Move(attribute: string, block: string, target: string)

  function MakeMove(attribute: string, block: string, target: string): Move {
    Move(attribute, block, if target == "" then attribute else target)
  }

  // The brace line the moved text goes in front of: the nested block's, or the parent's own.
  function BraceOf(parent: Parent): nat {
    if parent.targets == [] then parent.close else parent.targets[0].close
  }

  predicate CreatesBlock(parent: Parent) {
    parent.targets == []
  }

  // What is inserted there: the attribute alone, or wrapped in a new block.
  function Addition(segment: string, indent: string, braceIndent: string, wrap: bool, move: Move): Option<string> {
    var blockIndent := braceIndent + "  ";
    if wrap then
      var moved :- Reindented(segment, indent, blockIndent + "  ", move.target, move.attribute);
      Some(blockIndent + move.block + " {\n" + moved + blockIndent + "}\n")
    else Reindented(segment, indent, blockIndent, move.target, move.attribute)
  }

  // The edits for one parent: none when the attribute is nested already, else cut and paste.
  function ParentEdits(source: string, parent: Parent, move: Move): (r: Result<seq<Replacement>, NestError>)
    ensures r.Success? ==> r.value == [] || (|r.value| == 2 && parent.attribute.Some?)
  {
    if |parent.targets| > 1 then Failure(AmbiguousTarget)
    else
      var nested := parent.targets != [] && parent.targets[0].holdsName;
      if parent.attribute.None? then (if nested then Success([]) else Failure(AttributeMissing))
      else if nested then Failure(TargetExists)
      else
        match AttributeLines(source, parent.attribute.value)
        case None => Failure(UnsafeLines)
        case Some(lines) =>
          match ClosingLine(source, BraceOf(parent))
          case None => Failure(UnsafeBrace)
          case Some((at, braceIndent)) =>
            match Addition(source[lines.start..lines.end], lines.indent, braceIndent, CreatesBlock(parent), move)
            case None => Failure(UnsafeIndent)
            case Some(text) => Success([Replacement(lines.start, lines.end, ""), Replacement(at, at, text)])
  }

  // Every parent is checked before anything is changed.
  function AllEdits(source: string, parents: seq<Parent>, move: Move): (r: Result<seq<Replacement>, NestError>) {
    if parents == [] then Success([])
    else
      var first :- ParentEdits(source, parents[0], move);
      var rest :- AllEdits(source, parents[1..], move);
      Success(first + rest)
  }

  function CollectAfter(done: seq<Replacement>, rest: Result<seq<Replacement>, NestError>): Result<seq<Replacement>, NestError> {
    match rest case Success(more) => Success(done + more) case Failure(e) => Failure(e)
  }

  method CollectEdits(source: string, parents: seq<Parent>, move: Move) returns (r: Result<seq<Replacement>, NestError>)
    ensures r == AllEdits(source, parents, move)
  {
    var edits: seq<Replacement> := [];
    assert parents[0..] == parents;
    ghost var all := AllEdits(source, parents, move);
    assert all.Success? ==> [] + all.value == all.value;
    hide ParentEdits;
    for i := 0 to |parents|
      invariant all == CollectAfter(edits, AllEdits(source, parents[i..], move))
    {
      assert parents[i..][0] == parents[i] && parents[i..][1..] == parents[i + 1..];
      var more := ParentEdits(source, parents[i], move);
      ghost var rest := AllEdits(source, parents[i + 1..], move);
      if more.Failure? {
        return Failure(more.error);
      }
      assert rest.Success? ==> edits + (more.value + rest.value) == (edits + more.value) + rest.value;
      edits := edits + more.value;
    }
    assert edits + [] == edits;
    r := Success(edits);
  }

  // ---- Sound spans never collide ----

  // What the parser guarantees about the matched parents: separate tokens.
  predicate SoundParents(source: string, parents: seq<Parent>) {
    && (forall i | 0 <= i < |parents| :: parents[i].attribute.Some? ==> SoundSpan(source, parents[i].attribute.value))
    && (forall i, j | 0 <= i < |parents| && 0 <= j < |parents| && parents[i].attribute.Some? ::
          ClosesOutside(parents[i].attribute.value, parents[j]))
    && (forall i, j | 0 <= i < |parents| && 0 <= j < |parents| && i != j :: SoundPair(parents[i], parents[j]))
  }

  predicate ClosesOutside(attr: AttrSpan, parent: Parent) {
    Outside(attr, parent.close) && forall t | t in parent.targets :: Outside(attr, t.close)
  }

  // Two blocks never share a closing brace, and no attribute is in two of them.
  predicate SoundPair(x: Parent, y: Parent) {
    && x.close != y.close
    && (forall t | t in x.targets :: t.close != y.close) && (forall u | u in y.targets :: u.close != x.close)
    && (forall t, u | t in x.targets && u in y.targets :: t.close != u.close)
    && (x.attribute.Some? && y.attribute.Some? ==> Apart(x.attribute.value, y.attribute.value))
  }

  // Two edits that start apart and do not reach into each other.
  predicate Clear(x: Replacement, y: Replacement) {
    x.start != y.start && (x.end <= y.start || y.end <= x.start)
  }

  predicate GoodRange(source: string, x: Replacement) {
    0 <= x.start <= x.end <= |source|
  }

  // All edits of a list are good and clear of one another.
  ghost predicate AllClear(source: string, edits: seq<Replacement>) {
    && (forall k | 0 <= k < |edits| :: GoodRange(source, edits[k]))
    && (forall j, k | 0 <= j < |edits| && 0 <= k < |edits| && j != k :: Clear(edits[j], edits[k]))
  }

  lemma AllClearIsDisjoint(source: string, edits: seq<Replacement>)
    requires AllClear(source, edits)
    ensures DistinctKeys(edits, Start) && Disjoint(source, edits)
  {
  }

  lemma CutClearOfPaste(source: string, x: Parent, y: Parent, move: Move)
    requires ParentEdits(source, x, move).Success? && ParentEdits(source, x, move).value != []
    requires ParentEdits(source, y, move).Success? && ParentEdits(source, y, move).value != []
    requires SoundSpan(source, x.attribute.value) && Outside(x.attribute.value, BraceOf(y))
    ensures Clear(ParentEdits(source, x, move).value[0], ParentEdits(source, y, move).value[1])
  {
    BraceLineStaysOut(source, x.attribute.value, BraceOf(y));
    LinesHoldName(source, x.attribute.value);
    hide AttributeLines, ClosingLine, Addition;
  }

  lemma LinesHoldName(source: string, attr: AttrSpan)
    requires AttributeLines(source, attr).Some? && attr.name < attr.exprEnd
    ensures var lines := AttributeLines(source, attr).value;
      lines.start < lines.end <= |source|
  {
  }

  lemma CutsClear(source: string, x: Parent, y: Parent, move: Move)
    requires ParentEdits(source, x, move).Success? && ParentEdits(source, x, move).value != []
    requires ParentEdits(source, y, move).Success? && ParentEdits(source, y, move).value != []
    requires SoundSpan(source, x.attribute.value) && SoundSpan(source, y.attribute.value)
    requires Apart(x.attribute.value, y.attribute.value)
    ensures Clear(ParentEdits(source, x, move).value[0], ParentEdits(source, y, move).value[0])
  {
    var ax, ay := x.attribute.value, y.attribute.value;
    LinesHoldName(source, ax);
    LinesHoldName(source, ay);
    if ax.exprEnd <= ay.name { AttributeLinesApart(source, ax, ay); } else { AttributeLinesApart(source, ay, ax); }
    hide AttributeLines, ClosingLine, Addition;
  }

  lemma PastesClear(source: string, x: Parent, y: Parent, move: Move)
    requires ParentEdits(source, x, move).Success? && ParentEdits(source, x, move).value != []
    requires ParentEdits(source, y, move).Success? && ParentEdits(source, y, move).value != []
    requires BraceOf(x) != BraceOf(y)
    ensures Clear(ParentEdits(source, x, move).value[1], ParentEdits(source, y, move).value[1])
  {
    hide AttributeLines, Addition;
    if LineStart(source, BraceOf(x)) == LineStart(source, BraceOf(y)) {
      FirstOnLine(source, BraceOf(x), BraceOf(y));
    }
  }

  lemma PairClear(source: string, x: Parent, y: Parent, move: Move)
    requires ParentEdits(source, x, move).Success? && ParentEdits(source, y, move).Success?
    requires x.attribute.Some? ==> SoundSpan(source, x.attribute.value) && ClosesOutside(x.attribute.value, y)
    requires y.attribute.Some? ==> SoundSpan(source, y.attribute.value) && ClosesOutside(y.attribute.value, x)
    requires SoundPair(x, y)
    ensures forall p, q | p in ParentEdits(source, x, move).value && q in ParentEdits(source, y, move).value :: Clear(p, q)
  {
    var ex, ey := ParentEdits(source, x, move).value, ParentEdits(source, y, move).value;
    EditsShape(source, x, move);
    EditsShape(source, y, move);
    hide ParentEdits, SoundSpan, Outside;
    if ex != [] && ey != [] {
      CutClearOfPaste(source, x, y, move);
      CutClearOfPaste(source, y, x, move);
      CutsClear(source, x, y, move);
      PastesClear(source, x, y, move);
    }
  }

  // A cut of whole lines and a paste that removes nothing.
  lemma EditsShape(source: string, parent: Parent, move: Move)
    requires ParentEdits(source, parent, move).Success?
    ensures var edits := ParentEdits(source, parent, move).value;
      edits != [] ==> |edits| == 2 && parent.attribute.Some? && edits == [edits[0], edits[1]]
    ensures forall e | e in ParentEdits(source, parent, move).value :: GoodRange(source, e)
  {
    hide Addition;
  }

  lemma {:induction false} EditsComeFromParents(source: string, parents: seq<Parent>, move: Move, e: Replacement)
    requires AllEdits(source, parents, move).Success? && e in AllEdits(source, parents, move).value
    ensures exists i | 0 <= i < |parents| ::
      ParentEdits(source, parents[i], move).Success? && e in ParentEdits(source, parents[i], move).value
  {
    hide ParentEdits;
    var first := ParentEdits(source, parents[0], move).value;
    if e !in first {
      EditsComeFromParents(source, parents[1..], move, e);
      var i :| 0 <= i < |parents| - 1 && ParentEdits(source, parents[1..][i], move).Success?
        && e in ParentEdits(source, parents[1..][i], move).value;
      assert parents[1..][i] == parents[i + 1];
    }
  }

  // Over any number of repeated parent blocks, the edits never collide.
  lemma {:induction false} EditsClear(source: string, parents: seq<Parent>, move: Move)
    requires SoundParents(source, parents) && AllEdits(source, parents, move).Success?
    ensures AllClear(source, AllEdits(source, parents, move).value)
  {
    if parents != [] {
      var x := parents[0];
      var first, rest := ParentEdits(source, x, move).value, AllEdits(source, parents[1..], move).value;
      RestSound(source, parents);
      EditsClear(source, parents[1..], move);
      OwnEditsClear(source, x, move);
      forall p, q | p in first && q in rest ensures Clear(p, q) && GoodRange(source, q) {
        EditsComeFromParents(source, parents[1..], move, q);
        var i :| 0 <= i < |parents| - 1 && ParentEdits(source, parents[1..][i], move).Success?
          && q in ParentEdits(source, parents[1..][i], move).value;
        assert parents[1..][i] == parents[i + 1] && SoundPair(parents[0], parents[i + 1]);
        PairClear(source, x, parents[i + 1], move);
      }
      ClearTogether(source, first, rest);
    }
  }

  lemma RestSound(source: string, parents: seq<Parent>)
    requires parents != [] && SoundParents(source, parents)
    ensures SoundParents(source, parents[1..])
  {
    var rest := parents[1..];
    assert forall i | 0 <= i < |rest| :: rest[i] == parents[i + 1];
    hide SoundSpan, ClosesOutside, SoundPair;
  }

  lemma OwnEditsClear(source: string, x: Parent, move: Move)
    requires ParentEdits(source, x, move).Success?
    requires x.attribute.Some? ==> SoundSpan(source, x.attribute.value) && ClosesOutside(x.attribute.value, x)
    ensures AllClear(source, ParentEdits(source, x, move).value)
  {
    EditsShape(source, x, move);
    if ParentEdits(source, x, move).value != [] { CutClearOfPaste(source, x, x, move); }
    hide ParentEdits;
  }

  lemma ClearTogether(source: string, first: seq<Replacement>, rest: seq<Replacement>)
    requires AllClear(source, first) && AllClear(source, rest)
    requires forall p, q | p in first && q in rest :: Clear(p, q)
    ensures AllClear(source, first + rest)
  {
    var all := first + rest;
    forall j, k | 0 <= j < |all| && 0 <= k < |all| && j != k ensures Clear(all[j], all[k]) {
      if j < |first| <= k { assert all[j] in first && all[k] in rest; }
      if k < |first| <= j { assert all[k] in first && all[j] in rest; }
    }
  }

  // ---- What the edits are ----

  // Lines that can be moved: the attribute stands first on its line and only a comment follows it on its
  // last, and none of its lines opens a heredoc.
  ghost predicate SafeLines(source: string, attr: AttrSpan) {
    && attr.name <= attr.exprEnd <= |source|
    && (forall k | LineStart(source, attr.name) <= k < attr.name :: IsSpace(source[k]))
    && (forall k: nat | LineStart(source, attr.name) <= k && k + 1 < NextLine(source, attr.exprEnd) && source[k] == '<' :: source[k + 1] != '<')
    && (Blank(source[attr.exprEnd..NextLine(source, attr.exprEnd)]) || IsComment(source[attr.exprEnd..NextLine(source, attr.exprEnd)]))
  }

  // A closing brace with nothing but space before it on its line.
  ghost predicate SafeBrace(source: string, close: nat) {
    && close < |source| && source[close] == '}'
    && forall k | LineStart(source, close) <= k < close :: IsSpace(source[k])
  }

  // The text between the start of its line and a position.
  function IndentAt(source: string, pos: nat): string
    requires pos <= |source|
  {
    source[LineStart(source, pos)..pos]
  }

  // A cut removes the attribute's lines, from the first attached comment to its line break.
  ghost predicate Cuts(source: string, attr: AttrSpan, cut: Replacement) {
    && attr.name <= |source| && attr.exprEnd <= |source| && cut.value == ""
    && 0 <= cut.start <= LineStart(source, attr.name) && IsLineStart(source, cut.start)
    && CommentRun(source, cut.start, LineStart(source, attr.name), IndentAt(source, attr.name))
    && cut.end == NextLine(source, attr.exprEnd)
  }

  // The lines of a cut at their new place, two spaces deeper than the block that is to hold them.
  ghost predicate Pastes(source: string, attr: AttrSpan, cut: Replacement, paste: Replacement, close: nat, move: Move) {
    && attr.name <= |source| && close < |source| && 0 <= cut.start <= cut.end <= |source|
    && paste.start == paste.end == LineStart(source, close)
    && Reindented(source[cut.start..cut.end], IndentAt(source, attr.name), IndentAt(source, close) + "  ", move.target, move.attribute)
         == Some(paste.value)
  }

  // The same in a block of its own, which is new.
  ghost predicate PastesBlock(source: string, attr: AttrSpan, cut: Replacement, paste: Replacement, close: nat, move: Move) {
    && attr.name <= |source| && close < |source| && 0 <= cut.start <= cut.end <= |source|
    && paste.start == paste.end == LineStart(source, close)
    && var indent := IndentAt(source, close);
       var moved := Reindented(source[cut.start..cut.end], IndentAt(source, attr.name), indent + "    ", move.target, move.attribute);
       moved.Some? && paste.value == indent + "  " + move.block + " {\n" + moved.value + indent + "  }\n"
  }

  // The two edits that move the attribute of a parent: into the block of the target type it has, in
  // front of the line of that block's brace, or else into a new one in front of its own.
  ghost predicate Moves(source: string, parent: Parent, move: Move, cut: Replacement, paste: Replacement) {
    && parent.attribute.Some? && Cuts(source, parent.attribute.value, cut)
    && (parent.targets != [] ==> Pastes(source, parent.attribute.value, cut, paste, parent.targets[0].close, move))
    && (parent.targets == [] ==> PastesBlock(source, parent.attribute.value, cut, paste, parent.close, move))
  }

  // Why a parent cannot be edited.
  ghost predicate Refused(source: string, parent: Parent, move: Move, error: NestError) {
    var nested := exists t | t in parent.targets :: t.holdsName;
    var attr := parent.attribute;
    match error
    case AmbiguousTarget => |parent.targets| > 1
    case AttributeMissing => |parent.targets| <= 1 && attr.None? && !nested
    case TargetExists => |parent.targets| <= 1 && attr.Some? && nested
    case UnsafeLines => |parent.targets| <= 1 && attr.Some? && !nested && !SafeLines(source, attr.value)
    case UnsafeBrace =>
      && |parent.targets| <= 1 && attr.Some? && !nested && SafeLines(source, attr.value)
      && (parent.targets != [] ==> !SafeBrace(source, parent.targets[0].close))
      && (parent.targets == [] ==> !SafeBrace(source, parent.close))
    case UnsafeIndent =>
      && |parent.targets| <= 1 && attr.Some? && !nested && SafeLines(source, attr.value)
      && (parent.targets != [] ==> SafeBrace(source, parent.targets[0].close))
      && (parent.targets == [] ==> SafeBrace(source, parent.close))
      && forall cut, paste :: !Moves(source, parent, move, cut, paste)
    case _ => false
  }

  lemma SafeLinesIff(source: string, attr: AttrSpan)
    ensures AttributeLines(source, attr).Some? <==> SafeLines(source, attr)
    ensures AttributeLines(source, attr).Some? ==>
      var lines := AttributeLines(source, attr).value;
      && lines.start <= lines.end <= |source| && lines.indent == IndentAt(source, attr.name)
      && Cuts(source, attr, Replacement(lines.start, lines.end, ""))
  {
    if attr.name <= attr.exprEnd <= |source| {
      var first, end := LineStart(source, attr.name), NextLine(source, attr.exprEnd);
      HeredocIn(source, first, end);
      if Blank(source[first..attr.name]) { BlankSlice(source, first, attr.name); }
      CommentsOnly(source, first, source[first..attr.name]);
    }
    hide LineStart, NextLine, CommentRun, WithComments, HasHeredoc, IsComment;
  }

  lemma HeredocIn(source: string, first: nat, end: nat)
    requires first <= end <= |source|
    ensures HasHeredoc(source[first..end]) <==> exists k: nat | first <= k && k + 1 < end && source[k] == '<' :: source[k + 1] == '<'
  {
    var text := source[first..end];
    if k: nat :| first <= k && k + 1 < end && source[k] == '<' && source[k + 1] == '<' {
      assert text[k - first] == '<' && text[k - first + 1] == '<';
    }
    if HasHeredoc(text) {
      var k :| 0 <= k < |text| - 1 && text[k] == '<' && text[k + 1] == '<';
      assert source[first + k] == '<' && source[first + k + 1] == '<';
    }
  }

  lemma SafeBraceIff(source: string, close: nat)
    ensures ClosingLine(source, close).Some? <==> SafeBrace(source, close)
    ensures ClosingLine(source, close).Some? ==> ClosingLine(source, close).value == (LineStart(source, close), IndentAt(source, close))
  {
    if close < |source| {
      var a := LineStart(source, close);
      if Blank(source[a..close]) { BlankSlice(source, a, close); }
    }
    hide LineStart;
  }

  // A run of comment lines starts at one place only.
  lemma OneCut(source: string, attr: AttrSpan, x: Replacement, y: Replacement)
    requires Cuts(source, attr, x) && Cuts(source, attr, y)
    ensures x == y
  {
    hide LineStart, NextLine, IndentAt, Attached;
  }

  // One parent: the edits are nothing when the attribute is nested already, and else its move; a
  // refusal has its reason.
  lemma ParentMoves(source: string, parent: Parent, move: Move)
    ensures var r := ParentEdits(source, parent, move);
      match r
      case Success(edits) =>
        && (forall e :: !Refused(source, parent, move, e))
        && (parent.attribute.None? ==> edits == [] && exists t | t in parent.targets :: t.holdsName)
        && (parent.attribute.Some? ==> |edits| == 2 && edits == [edits[0], edits[1]] && Moves(source, parent, move, edits[0], edits[1]))
      case Failure(error) => Refused(source, parent, move, error)
  {
    hide AttributeLines, ClosingLine, SafeLines, SafeBrace, Moves, Addition, LineStart;
    assert |parent.targets| == 1 ==> parent.targets[0] in parent.targets && forall t | t in parent.targets :: t == parent.targets[0];
    if |parent.targets| <= 1 && parent.attribute.Some? {
      var attr, close := parent.attribute.value, BraceOf(parent);
      SafeLinesIff(source, attr);
      SafeBraceIff(source, close);
      if SafeLines(source, attr) && SafeBrace(source, close) {
        MoveOf(source, parent, move);
      }
    }
  }

  // With safe lines and a safe brace the move is there exactly when the lines can be reindented.
  lemma MoveOf(source: string, parent: Parent, move: Move)
    requires parent.attribute.Some? && |parent.targets| <= 1
    requires AttributeLines(source, parent.attribute.value).Some? && ClosingLine(source, BraceOf(parent)).Some?
    ensures var lines, brace := AttributeLines(source, parent.attribute.value).value, ClosingLine(source, BraceOf(parent)).value;
      lines.end <= |source| && lines.start <= lines.end
    ensures var lines, brace := AttributeLines(source, parent.attribute.value).value, ClosingLine(source, BraceOf(parent)).value;
      var cut := Replacement(lines.start, lines.end, "");
      var text := Addition(source[lines.start..lines.end], lines.indent, brace.1, CreatesBlock(parent), move);
      && (text.Some? ==> Moves(source, parent, move, cut, Replacement(brace.0, brace.0, text.value)))
      && (text.None? ==> forall x, y :: !Moves(source, parent, move, x, y))
  {
    var attr, close := parent.attribute.value, BraceOf(parent);
    SafeLinesIff(source, attr);
    SafeBraceIff(source, close);
    var lines, brace := AttributeLines(source, attr).value, ClosingLine(source, close).value;
    var cut := Replacement(lines.start, lines.end, "");
    var text := Addition(source[lines.start..lines.end], lines.indent, brace.1, CreatesBlock(parent), move);
    assert brace.1 + "  " + "  " == brace.1 + "    ";
    assert Cuts(source, attr, cut);
    hide AttributeLines, ClosingLine, Cuts, Reindented, IndentAt, LineStart, NextLine;
    if text.None? {
      forall x, y ensures !Moves(source, parent, move, x, y) {
        if Moves(source, parent, move, x, y) { OneCut(source, attr, x, cut); }
      }
    }
  }

  ghost predicate Movable(source: string, parent: Parent, move: Move) {
    forall e :: !Refused(source, parent, move, e)
  }

  ghost predicate MovedBy(source: string, parent: Parent, move: Move, edits: seq<Replacement>) {
    exists cut, paste | cut in edits && paste in edits :: Moves(source, parent, move, cut, paste)
  }

  ghost predicate PartOfMove(source: string, parent: Parent, move: Move, e: Replacement, edits: seq<Replacement>) {
    exists other | other in edits :: Moves(source, parent, move, e, other) || Moves(source, parent, move, other, e)
  }

  // Edits that move the attribute of every parent that has one, and do nothing else.
  ghost predicate MovesAll(source: string, parents: seq<Parent>, move: Move, edits: seq<Replacement>) {
    && (forall p | p in parents && p.attribute.Some? :: MovedBy(source, p, move, edits))
    && (forall e | e in edits :: exists p | p in parents :: PartOfMove(source, p, move, e, edits))
  }

  // The first parent that cannot be edited gives the reason.
  ghost predicate FirstRefused(source: string, parents: seq<Parent>, move: Move, error: NestError) {
    exists i | 0 <= i < |parents| :: Refused(source, parents[i], move, error) && forall j | 0 <= j < i :: Movable(source, parents[j], move)
  }

  // The edits exist exactly when every parent can be edited, and then they are the moves of all parents.
  lemma {:induction false} EditsMoveAll(source: string, parents: seq<Parent>, move: Move)
    ensures match AllEdits(source, parents, move)
      case Success(edits) => (forall p | p in parents :: Movable(source, p, move)) && MovesAll(source, parents, move, edits)
      case Failure(error) => FirstRefused(source, parents, move, error)
  {
    hide ParentEdits, AllEdits, Moves, Refused, Movable, MovesAll, FirstRefused;
    AllEditsStep(source, parents, move);
    if parents != [] {
      var p, rest := parents[0], parents[1..];
      FirstParent(source, parents, move);
      assert parents == [p] + rest;
      if ParentEdits(source, p, move).Success? {
        EditsMoveAll(source, rest, move);
        match AllEdits(source, rest, move) {
          case Success(more) => MovesTogether(source, p, rest, move, ParentEdits(source, p, move).value, more);
          case Failure(error) => LaterRefused(source, parents, move, error);
        }
      }
    }
  }

  lemma AllEditsStep(source: string, parents: seq<Parent>, move: Move)
    ensures parents == [] ==> AllEdits(source, parents, move) == Success([]) && MovesAll(source, [], move, [])
    ensures parents != [] ==>
      var first, rest := ParentEdits(source, parents[0], move), AllEdits(source, parents[1..], move);
      AllEdits(source, parents, move) ==
        if first.Failure? then Failure(first.error) else if rest.Failure? then Failure(rest.error) else Success(first.value + rest.value)
  {
    hide ParentEdits, Moves;
  }

  lemma FirstParent(source: string, parents: seq<Parent>, move: Move)
    requires parents != []
    ensures match ParentEdits(source, parents[0], move)
      case Success(edits) =>
        && Movable(source, parents[0], move)
        && (parents[0].attribute.None? ==> edits == [])
        && (parents[0].attribute.Some? ==> |edits| == 2 && Moves(source, parents[0], move, edits[0], edits[1]))
      case Failure(error) => FirstRefused(source, parents, move, error)
  {
    ParentMoves(source, parents[0], move);
    hide ParentEdits, Moves, Refused;
  }

  lemma LaterRefused(source: string, parents: seq<Parent>, move: Move, error: NestError)
    requires parents != [] && Movable(source, parents[0], move) && FirstRefused(source, parents[1..], move, error)
    ensures FirstRefused(source, parents, move, error)
  {
    hide Movable, Refused;
    var rest := parents[1..];
    var i :| 0 <= i < |rest| && Refused(source, rest[i], move, error) && forall j | 0 <= j < i :: Movable(source, rest[j], move);
    assert parents[i + 1] == rest[i];
    forall j | 0 <= j < i + 1 ensures Movable(source, parents[j], move) {
      if j > 0 { assert parents[j] == rest[j - 1]; }
    }
  }

  lemma MovesTogether(source: string, p: Parent, rest: seq<Parent>, move: Move, first: seq<Replacement>, more: seq<Replacement>)
    requires p.attribute.None? ==> first == []
    requires p.attribute.Some? ==> |first| == 2 && Moves(source, p, move, first[0], first[1])
    requires MovesAll(source, rest, move, more)
    ensures MovesAll(source, [p] + rest, move, first + more)
  {
    var parents, edits := [p] + rest, first + more;
    hide Moves, MovedBy, PartOfMove;
    assert forall q :: q in parents <==> q == p || q in rest;
    forall q | q in parents && q.attribute.Some? ensures MovedBy(source, q, move, edits) {
      if q in rest { MovedByMore(source, q, move, more, edits); } else { MoveIsPart(source, p, move, first, edits); }
    }
    forall e | e in edits ensures exists q | q in parents :: PartOfMove(source, q, move, e, edits) {
      if e in more {
        var q :| q in rest && PartOfMove(source, q, move, e, more);
        PartOfMore(source, q, move, e, more, edits);
        assert q in parents;
      } else {
        MoveIsPart(source, p, move, first, edits);
        assert p in parents && e in first;
      }
    }
  }

  lemma MovedByMore(source: string, q: Parent, move: Move, more: seq<Replacement>, edits: seq<Replacement>)
    requires MovedBy(source, q, move, more) && forall e | e in more :: e in edits
    ensures MovedBy(source, q, move, edits)
  {
    hide Moves;
  }

  lemma PartOfMore(source: string, q: Parent, move: Move, e: Replacement, more: seq<Replacement>, edits: seq<Replacement>)
    requires PartOfMove(source, q, move, e, more) && forall e | e in more :: e in edits
    ensures PartOfMove(source, q, move, e, edits)
  {
    hide Moves;
  }

  lemma MoveIsPart(source: string, p: Parent, move: Move, own: seq<Replacement>, edits: seq<Replacement>)
    requires |own| == 2 && Moves(source, p, move, own[0], own[1]) && forall e | e in own :: e in edits
    ensures MovedBy(source, p, move, edits) && forall e | e in own :: PartOfMove(source, p, move, e, edits)
  {
    hide Moves;
    assert own[0] in own && own[1] in own;
  }

  // The edit as a whole, for the matching blocks of the resource or the reason there is none. Nothing is
  // changed when some parent cannot be edited. Otherwise, on sound spans, it never ends in the overlap
  // error, and the result is the simultaneous splice of one cut and one paste for each parent that has
  // the attribute, at the places the moves name.
  method NestAttribute(source: string, resource: Result<seq<Parent>, Lookup>, attribute: string, block: string, target: string)
    returns (r: Result<string, NestError>)
    ensures var move := Move(attribute, block, if target == "" then attribute else target);
      if !ValidIdentifier(block) || !ValidIdentifier(move.target) then r == Failure(InvalidIdentifier)
      else if resource.Failure? then r == Failure(NoResource(resource.error))
      else
        var parents := resource.value;
        if parents == [] then r == Failure(ParentNotFound)
        else if !forall p | p in parents :: Movable(source, p, move) then r.Failure? && FirstRefused(source, parents, move, r.error)
        else SoundParents(source, parents) ==> r.Success? && NestedBy(source, parents, move, r.value)
  {
    var move := MakeMove(attribute, block, target);
    if !ValidIdentifier(block) || !ValidIdentifier(move.target) {
      return Failure(InvalidIdentifier);
    }
    if resource.Failure? {
      return Failure(NoResource(resource.error));
    }
    var parents := resource.value;
    if parents == [] {
      return Failure(ParentNotFound);
    }
    var edits := CollectEdits(source, parents, move);
    EditsMoveAll(source, parents, move);
    hide AllEdits, SoundParents, Spliced, Disjoint, Refused, MovesAll;
    if edits.Failure? {
      FirstIsNotMovable(source, parents, move, edits.error);
      return Failure(edits.error);
    }
    var list := edits.value;
    var changes := new Replacement[|list|](i requires 0 <= i < |list| => list[i]);
    assert changes[..] == list;
    if SoundParents(source, parents) {
      EditsClear(source, parents, move);
      AllClearIsDisjoint(source, list);
    }
    var out := Replace(source, changes);
    r := if out.Some? then Success(out.value) else Failure(Overlap);
  }

  // The splice of edits that move the attribute of every parent, none reaching into another.
  ghost predicate NestedBy(source: string, parents: seq<Parent>, move: Move, out: string) {
    exists edits :: MovesAll(source, parents, move, edits) && AllClear(source, edits) && out == Spliced(source, edits)
  }

  lemma FirstIsNotMovable(source: string, parents: seq<Parent>, move: Move, error: NestError)
    requires FirstRefused(source, parents, move, error)
    ensures !forall p | p in parents :: Movable(source, p, move)
  {
    hide Refused;
    var i :| 0 <= i < |parents| && Refused(source, parents[i], move, error);
    assert parents[i] in parents && !Movable(source, parents[i], move);
  }

  // ---- Nothing is lost ----

  predicate IsPaste(r: Replacement) {
    r.start == r.end
  }

  // Taking the pastes back out of the result leaves the same bytes as cutting the moved lines from the
  // source: the edit changes nothing else.
  lemma OnlyMovedTextChanges(source: string, parents: seq<Parent>, move: Move)
    requires SoundParents(source, parents) && AllEdits(source, parents, move).Success?
    ensures var edits := Sort(AllEdits(source, parents, move).value, StartLess);
      && InPlace(source, edits, 0)
      && Restores(Spliced(source, AllEdits(source, parents, move).value), Inverse(source, edits, IsPaste, 0, 0), 0,
           SpliceFrom(source, Others(edits, IsPaste), 0))
  {
    var given := AllEdits(source, parents, move).value;
    var edits := Sort(given, StartLess);
    EditsClear(source, parents, move);
    AllClearIsDisjoint(source, given);
    hide AllEdits, SoundParents;
    SortedInPlace(source, given);
    SpliceUndone(source, edits, IsPaste, 0, "");
    assert "" + SpliceFrom(source, edits, 0) == SpliceFrom(source, edits, 0);
  }

  // The pasted text is the segment moved, reversibly, with two brace lines around it when wrapped.
  predicate Carries(segment: string, paste: string, moved: string, indent: string, blockIndent: string, wrap: bool, move: Move) {
    var newIndent := if wrap then blockIndent + "  " else blockIndent;
    && Reindented(segment, indent, newIndent, move.target, move.attribute) == Some(moved)
    && Reindented(moved, newIndent, indent, move.attribute, move.target) == Some(segment)
    && paste == if wrap then blockIndent + move.block + " {\n" + moved + blockIndent + "}\n" else moved
  }

  // Every cut takes the lines of the attribute from its comments to its line break, every paste goes in
  // front of the line of a closing brace, that of the nested block or else the parent's, and carries its
  // cut two spaces deeper than that line: moving the lines back with indentations and names exchanged
  // gives the very text that was cut. A created block adds nothing but its two brace lines.
  lemma PasteCarriesCut(source: string, parent: Parent, move: Move)
    requires ParentEdits(source, parent, move).Success? && ParentEdits(source, parent, move).value != []
    requires IsName(move.attribute) && ValidIdentifier(move.target)
    ensures var edits := ParentEdits(source, parent, move).value;
      |edits| == 2 && parent.attribute.Some? && Moves(source, parent, move, edits[0], edits[1])
    ensures var edits, attr := ParentEdits(source, parent, move).value, parent.attribute.value;
      var indent := IndentAt(source, attr.name);
      && edits[0].value == "" && IsPaste(edits[1]) && edits[0].end == NextLine(source, attr.exprEnd)
      && (parent.targets != [] ==>
            && edits[1].start == LineStart(source, parent.targets[0].close)
            && exists moved :: Carries(source[edits[0].start..edits[0].end], edits[1].value, moved, indent,
                 IndentAt(source, parent.targets[0].close) + "  ", false, move))
      && (parent.targets == [] ==>
            && edits[1].start == LineStart(source, parent.close)
            && exists moved :: Carries(source[edits[0].start..edits[0].end], edits[1].value, moved, indent,
                 IndentAt(source, parent.close) + "  ", true, move))
  {
    EditsShape(source, parent, move);
    ParentMoves(source, parent, move);
    LineIndents(source, parent);
    SafeLinesIff(source, parent.attribute.value);
    SafeBraceIff(source, BraceOf(parent));
    var lines, brace := AttributeLines(source, parent.attribute.value).value, ClosingLine(source, BraceOf(parent)).value;
    hide AttributeLines, ClosingLine, Reindented, Carries, IsIndent, Moves, Refused, SafeLines, SafeBrace, IndentAt, LineStart;
    AdditionCarries(source[lines.start..lines.end], lines.indent, brace.1, CreatesBlock(parent), move);
  }

  lemma AdditionCarries(segment: string, indent: string, braceIndent: string, wrap: bool, move: Move)
    requires Addition(segment, indent, braceIndent, wrap, move).Some?
    requires IsIndent(indent) && IsIndent(braceIndent) && IsName(move.attribute) && ValidIdentifier(move.target)
    ensures exists moved ::
      Carries(segment, Addition(segment, indent, braceIndent, wrap, move).value, moved, indent, braceIndent + "  ", wrap, move)
  {
    var blockIndent := braceIndent + "  ";
    var newIndent := if wrap then blockIndent + "  " else blockIndent;
    var moved := Reindented(segment, indent, newIndent, move.target, move.attribute).value;
    hide Reindented;
    ReindentUndone(segment, indent, newIndent, move.target, move.attribute);
    assert Carries(segment, Addition(segment, indent, braceIndent, wrap, move).value, moved, indent, blockIndent, wrap, move);
  }

  lemma LineIndents(source: string, parent: Parent)
    requires parent.attribute.Some? && AttributeLines(source, parent.attribute.value).Some?
    requires ClosingLine(source, BraceOf(parent)).Some?
    ensures IsIndent(AttributeLines(source, parent.attribute.value).value.indent)
    ensures IsIndent(ClosingLine(source, BraceOf(parent)).value.1)
  {
  }
}
