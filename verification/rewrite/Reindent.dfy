// Moving an attribute to another indentation and name, line by line.
module Reindent {
  import opened Wrappers
  import opened Lines

  predicate IsSpace(c: char) {
    c == ' ' || c == '\t' || c == '\n' || c == '\r' || c == '\U{0B}' || c == '\U{0C}'
  }

  predicate Blank(text: string) {
    forall k | 0 <= k < |text| :: IsSpace(text[k])
  }

  function TrimLeft(text: string): (rest: string) {
    if text != [] && IsSpace(text[0]) then TrimLeft(text[1..]) else text
  }

  predicate IsComment(line: string) {
    var t := TrimLeft(line);
    (|t| >= 1 && t[0] == '#') || (|t| >= 2 && t[0] == '/' && t[1] == '/')
  }

  lemma {:induction false} TrimIndent(indent: string, rest: string)
    requires Blank(indent)
    ensures TrimLeft(indent + rest) == TrimLeft(rest)
  {
    if indent == [] {
      assert indent + rest == rest;
    } else {
      assert (indent + rest)[1..] == indent[1..] + rest;
      TrimIndent(indent[1..], rest);
    }
  }

  // Whitespace with no line break: what can stand in front of a declaration.
  predicate IsIndent(indent: string) {
    Blank(indent) && forall k | 0 <= k < |indent| :: indent[k] != '\n'
  }

  // Starts the way an identifier does, so neither blank nor a comment.
  predicate IsName(name: string) {
    name != [] && !IsSpace(name[0]) && name[0] != '#' && name[0] != '/' && forall k | 0 <= k < |name| :: name[k] != '\n'
  }

  // Blank lines keep their text; every other line must carry the old indentation.
  function ReindentLine(line: string, oldIndent: string, newIndent: string): Option<string> {
    if Blank(line) then Some(line)
    else if oldIndent <= line then Some(newIndent + line[|oldIndent|..])
    else None
  }

  function ReindentLines(lines: seq<string>, oldIndent: string, newIndent: string): (r: Option<seq<string>>)
    ensures r.Some? ==> |r.value| == |lines|
  {
    if lines == [] then Some([])
    else
      var first :- ReindentLine(lines[0], oldIndent, newIndent);
      var rest :- ReindentLines(lines[1..], oldIndent, newIndent);
      Some([first] + rest)
  }

  // What may follow an attribute name on its line.
  predicate FollowsName(following: string) {
    following != [] && (following[0] == ' ' || following[0] == '\t' || following[0] == '=')
  }

  function RenameLine(line: string, indent: string, oldName: string, newName: string): Option<string> {
    var prefix := indent + oldName;
    if prefix <= line && FollowsName(line[|prefix|..]) then Some(indent + newName + line[|prefix|..]) else None
  }

  // Renames the declaration: the first line that is not a comment.
  function RenameFirst(lines: seq<string>, indent: string, oldName: string, newName: string): (r: Option<seq<string>>)
    ensures r.Some? ==> |r.value| == |lines|
  {
    if lines == [] then None
    else if IsComment(lines[0]) then
      var rest :- RenameFirst(lines[1..], indent, oldName, newName);
      Some([lines[0]] + rest)
    else
      var first :- RenameLine(lines[0], indent, oldName, newName);
      Some([first] + lines[1..])
  }

  function Reindented(segment: string, oldIndent: string, newIndent: string, newName: string, oldName: string): Option<string> {
    var lines :- ReindentLines(SplitLines(segment), oldIndent, newIndent);
    var renamed :- RenameFirst(lines, newIndent, oldName, newName);
    Some(Join(renamed))
  }

  // ---- Lines stay lines ----

  lemma ReindentedLineIsLine(line: string, oldIndent: string, newIndent: string)
    requires IsLine(line) && IsIndent(newIndent) && ReindentLine(line, oldIndent, newIndent).Some?
    requires Blank(oldIndent)
    ensures var line' := ReindentLine(line, oldIndent, newIndent).value;
      IsLine(line') && (Terminated(line') <==> Terminated(line))
  {
    if !Blank(line) {
      var rest := line[|oldIndent|..];
      assert line == oldIndent + rest;
      assert rest != [];
    }
  }

  lemma {:induction false} ReindentKeepsFile(lines: seq<string>, oldIndent: string, newIndent: string)
    requires IsFile(lines) && IsIndent(newIndent) && Blank(oldIndent) && ReindentLines(lines, oldIndent, newIndent).Some?
    ensures var lines' := ReindentLines(lines, oldIndent, newIndent).value;
      IsFile(lines') && forall k | 0 <= k < |lines| :: Some(lines'[k]) == ReindentLine(lines[k], oldIndent, newIndent)
  {
    if lines != [] {
      ReindentedLineIsLine(lines[0], oldIndent, newIndent);
      ReindentKeepsFile(lines[1..], oldIndent, newIndent);
    }
  }

  lemma RenamedLineIsLine(line: string, indent: string, oldName: string, newName: string)
    requires IsLine(line) && IsIndent(indent) && IsName(newName) && RenameLine(line, indent, oldName, newName).Some?
    ensures var line' := RenameLine(line, indent, oldName, newName).value;
      IsLine(line') && (Terminated(line') <==> Terminated(line))
  {
    var following := line[|indent + oldName|..];
    assert line == indent + oldName + following;
    var line' := indent + newName + following;
    forall k | 0 <= k < |line'| - 1 ensures line'[k] != '\n' {
      if k >= |indent + newName| { assert line'[k] == line[k - |indent + newName| + |indent + oldName|]; }
    }
  }

  lemma {:induction false} RenameKeepsFile(lines: seq<string>, indent: string, oldName: string, newName: string)
    requires IsFile(lines) && IsIndent(indent) && IsName(newName) && RenameFirst(lines, indent, oldName, newName).Some?
    ensures IsFile(RenameFirst(lines, indent, oldName, newName).value)
  {
    var lines' := RenameFirst(lines, indent, oldName, newName).value;
    if IsComment(lines[0]) {
      RenameKeepsFile(lines[1..], indent, oldName, newName);
    } else {
      RenamedLineIsLine(lines[0], indent, oldName, newName);
      assert lines'[1..] == lines[1..];
      forall k | 0 <= k < |lines'| ensures IsLine(lines'[k]) {
        if k > 0 { assert lines'[k] == lines[k]; }
      }
      forall k | 0 <= k < |lines'| - 1 ensures Terminated(lines'[k]) {
        if k > 0 { assert lines'[k] == lines[k]; }
      }
    }
  }

  // ---- Undoing ----

  // Line by line, renaming and then reindenting back restores what was there.
  lemma LineUndone(line: string, oldIndent: string, newIndent: string)
    requires IsIndent(oldIndent) && IsIndent(newIndent) && ReindentLine(line, oldIndent, newIndent).Some?
    ensures var line' := ReindentLine(line, oldIndent, newIndent).value;
      && ReindentLine(line', newIndent, oldIndent) == Some(line)
      && (Blank(line') <==> Blank(line)) && (IsComment(line') <==> IsComment(line))
  {
    if !Blank(line) {
      var rest := line[|oldIndent|..];
      var line' := newIndent + rest;
      assert line == oldIndent + rest;
      assert !Blank(rest);
      var k :| 0 <= k < |rest| && !IsSpace(rest[k]);
      assert !IsSpace(line'[|newIndent| + k]);
      assert line'[|newIndent|..] == rest;
      TrimIndent(oldIndent, rest);
      TrimIndent(newIndent, rest);
    }
  }

  lemma DeclarationUndone(line: string, oldIndent: string, newIndent: string, oldName: string, newName: string, line2: string)
    requires IsIndent(oldIndent) && IsIndent(newIndent) && IsName(oldName) && IsName(newName)
    requires ReindentLine(line, oldIndent, newIndent).Some?
    requires var line1 := ReindentLine(line, oldIndent, newIndent).value; RenameLine(line1, newIndent, oldName, newName) == Some(line2)
    ensures ReindentLine(line2, newIndent, oldIndent).Some?
    ensures var line3 := ReindentLine(line2, newIndent, oldIndent).value;
      !IsComment(line3) && RenameLine(line3, oldIndent, newName, oldName) == Some(line)
  {
    var line1 := ReindentLine(line, oldIndent, newIndent).value;
    var prefix := newIndent + oldName;
    var following := line1[|prefix|..];
    assert line1 == prefix + following;
    assert line1[|newIndent|] == oldName[0];
    assert !Blank(line1);
    assert line1[|newIndent|..] == oldName + following;
    assert line == oldIndent + (oldName + following) by {
      assert !Blank(line);
      assert line == oldIndent + line[|oldIndent|..];
      assert line1 == newIndent + line[|oldIndent|..];
      assert line1[|newIndent|..] == line[|oldIndent|..];
    }
    assert line2 == newIndent + (newName + following);
    assert line2[|newIndent|] == newName[0];
    assert line2[|newIndent|..] == newName + following;
    var line3 := oldIndent + (newName + following);
    TrimIndent(oldIndent, newName + following);
    var back := oldIndent + newName;
    assert line3 == back + following && line3[|back|..] == following;
    assert line == oldIndent + oldName + following;
  }

  lemma {:induction false} LinesUndone(lines: seq<string>, oldIndent: string, newIndent: string, oldName: string, newName: string,
                                       middle: seq<string>, after: seq<string>)
    requires IsIndent(oldIndent) && IsIndent(newIndent) && IsName(oldName) && IsName(newName)
    requires ReindentLines(lines, oldIndent, newIndent) == Some(middle)
    requires RenameFirst(middle, newIndent, oldName, newName) == Some(after)
    ensures ReindentLines(after, newIndent, oldIndent).Some?
    ensures RenameFirst(ReindentLines(after, newIndent, oldIndent).value, oldIndent, newName, oldName) == Some(lines)
  {
    hide ReindentLine, RenameLine, IsComment, IsIndent, IsName;
    LineUndone(lines[0], oldIndent, newIndent);
    assert middle[1..] == ReindentLines(lines[1..], oldIndent, newIndent).value;
    if IsComment(middle[0]) {
      LinesUndone(lines[1..], oldIndent, newIndent, oldName, newName, middle[1..], after[1..]);
      assert after == [middle[0]] + after[1..];
      assert lines == [lines[0]] + lines[1..];
    } else {
      DeclarationUndone(lines[0], oldIndent, newIndent, oldName, newName, after[0]);
      RestUndone(lines[1..], oldIndent, newIndent);
      assert after[1..] == middle[1..];
      assert lines == [lines[0]] + lines[1..];
    }
  }

  lemma {:induction false} RestUndone(lines: seq<string>, oldIndent: string, newIndent: string)
    requires IsIndent(oldIndent) && IsIndent(newIndent) && ReindentLines(lines, oldIndent, newIndent).Some?
    ensures ReindentLines(ReindentLines(lines, oldIndent, newIndent).value, newIndent, oldIndent) == Some(lines)
  {
    if lines != [] {
      LineUndone(lines[0], oldIndent, newIndent);
      RestUndone(lines[1..], oldIndent, newIndent);
      assert lines == [lines[0]] + lines[1..];
    }
  }

  // Moving an attribute back, with indentations and names exchanged, restores its text exactly:
  // comments, expression and line breaks included.
  lemma ReindentUndone(segment: string, oldIndent: string, newIndent: string, newName: string, oldName: string)
    requires IsIndent(oldIndent) && IsIndent(newIndent) && IsName(oldName) && IsName(newName)
    requires Reindented(segment, oldIndent, newIndent, newName, oldName).Some?
    ensures Reindented(Reindented(segment, oldIndent, newIndent, newName, oldName).value, newIndent, oldIndent, oldName, newName)
      == Some(segment)
  {
    var lines := SplitLines(segment);
    SplitThenJoin(segment);
    var middle := ReindentLines(lines, oldIndent, newIndent).value;
    var after := RenameFirst(middle, newIndent, oldName, newName).value;
    ReindentKeepsFile(lines, oldIndent, newIndent);
    RenameKeepsFile(middle, newIndent, oldName, newName);
    JoinThenSplit(after);
    LinesUndone(lines, oldIndent, newIndent, oldName, newName, middle, after);
  }

  // ---- What moving does, line by line ----

  // A blank line stays; any other swaps the old indentation for the new one.
  predicate MovedLine(line: string, out: string, oldIndent: string, newIndent: string) {
    if Blank(line) then out == line else oldIndent <= line && out == newIndent + line[|oldIndent|..]
  }

  // The declaration in its old place: its indentation, its name, and a space, a tab or the equals sign.
  predicate Declares(line: string, indent: string, name: string) {
    && indent + name <= line && |line| > |indent + name|
    && (line[|indent + name|] == ' ' || line[|indent + name|] == '\t' || line[|indent + name|] == '=')
  }

  // The first line that is no comment.
  function FirstCode(lines: seq<string>): (d: nat)
    ensures d <= |lines| && (d < |lines| ==> !IsComment(lines[d]))
    ensures forall k | 0 <= k < d :: IsComment(lines[k])
  {
    if lines == [] || !IsComment(lines[0]) then 0 else FirstCode(lines[1..]) + 1
  }

  lemma {:induction false} LinesMoved(lines: seq<string>, oldIndent: string, newIndent: string)
    ensures var r := ReindentLines(lines, oldIndent, newIndent);
      && (r.Some? <==> forall line | line in lines :: Blank(line) || oldIndent <= line)
      && (r.Some? ==> forall k | 0 <= k < |lines| :: MovedLine(lines[k], r.value[k], oldIndent, newIndent))
  {
    if lines != [] {
      LinesMoved(lines[1..], oldIndent, newIndent);
      assert forall line :: line in lines <==> line == lines[0] || line in lines[1..];
      hide Blank;
    }
  }

  lemma {:induction false} DeclarationRenamed(lines: seq<string>, indent: string, oldName: string, newName: string)
    ensures var r, d := RenameFirst(lines, indent, oldName, newName), FirstCode(lines);
      && (r.Some? <==> d < |lines| && Declares(lines[d], indent, oldName))
      && (r.Some? ==> r.value == lines[d := indent + newName + lines[d][|indent + oldName|..]])
  {
    hide IsComment;
    if lines != [] && IsComment(lines[0]) {
      DeclarationRenamed(lines[1..], indent, oldName, newName);
    }
  }

  // The declaration can be found after the indentation was changed exactly when it could before.
  lemma StillDeclares(line: string, out: string, oldIndent: string, newIndent: string, name: string)
    requires IsIndent(oldIndent) && IsIndent(newIndent) && IsName(name) && MovedLine(line, out, oldIndent, newIndent)
    ensures Declares(out, newIndent, name) <==> Declares(line, oldIndent, name)
    ensures IsComment(out) <==> IsComment(line)
    ensures Declares(line, oldIndent, name) ==> out[|newIndent + name|..] == line[|oldIndent + name|..]
  {
    if Blank(line) {
      assert (oldIndent + name)[|oldIndent|] == name[0] && (newIndent + name)[|newIndent|] == name[0];
    } else {
      var rest := line[|oldIndent|..];
      assert line == oldIndent + rest && out == newIndent + rest;
      TrimIndent(oldIndent, rest);
      TrimIndent(newIndent, rest);
      SamePrefix(oldIndent, name, rest);
      SamePrefix(newIndent, name, rest);
    }
  }

  lemma SamePrefix(indent: string, name: string, rest: string)
    ensures indent + name <= indent + rest <==> name <= rest
    ensures name <= rest ==> (indent + rest)[|indent + name|..] == rest[|name|..]
  {
    assert (indent + rest)[|indent|..] == rest;
    if name <= rest { assert rest == name + rest[|name|..]; }
    if indent + name <= indent + rest { assert (indent + rest)[|indent|..][..|name|] == name; }
  }

  // The whole move. It goes through exactly when every line that is not blank carries the old
  // indentation and the first line that is no comment declares the old name; then that line changes
  // its indentation and its name, all others their indentation only, and each keeps the rest.
  lemma ReindentMoves(segment: string, oldIndent: string, newIndent: string, newName: string, oldName: string)
    requires IsIndent(oldIndent) && IsIndent(newIndent) && IsName(oldName) && IsName(newName)
    ensures var lines, r := SplitLines(segment), Reindented(segment, oldIndent, newIndent, newName, oldName);
      var d := FirstCode(lines);
      && (r.Some? <==>
            (forall line | line in lines :: Blank(line) || oldIndent <= line) && d < |lines| && Declares(lines[d], oldIndent, oldName))
      && (r.Some? ==>
            var out := SplitLines(r.value);
            && |out| == |lines| && out[d] == newIndent + newName + lines[d][|oldIndent + oldName|..]
            && forall k | 0 <= k < |lines| && k != d :: MovedLine(lines[k], out[k], oldIndent, newIndent))
  {
    var lines := SplitLines(segment);
    SplitThenJoin(segment);
    var middle := ReindentLines(lines, oldIndent, newIndent);
    LinesMoved(lines, oldIndent, newIndent);
    if middle.Some? {
      ReindentKeepsFile(lines, oldIndent, newIndent);
      DeclarationRenamed(middle.value, newIndent, oldName, newName);
      SameFirstCode(lines, middle.value, oldIndent, newIndent, oldName);
      if RenameFirst(middle.value, newIndent, oldName, newName).Some? {
        RenameKeepsFile(middle.value, newIndent, oldName, newName);
        JoinThenSplit(RenameFirst(middle.value, newIndent, oldName, newName).value);
      }
    }
    hide SplitLines, Join, ReindentLines, RenameFirst, FirstCode, IsComment, IsIndent, IsName, Declares, MovedLine;
  }

  lemma SameFirstCode(lines: seq<string>, middle: seq<string>, oldIndent: string, newIndent: string, name: string)
    requires IsIndent(oldIndent) && IsIndent(newIndent) && IsName(name) && |middle| == |lines|
    requires forall k | 0 <= k < |lines| :: MovedLine(lines[k], middle[k], oldIndent, newIndent)
    ensures var d := FirstCode(lines);
      && FirstCode(middle) == d
      && (d < |lines| ==> Declares(middle[d], newIndent, name) == Declares(lines[d], oldIndent, name))
      && (d < |lines| && Declares(lines[d], oldIndent, name) ==> middle[d][|newIndent + name|..] == lines[d][|oldIndent + name|..])
  {
    forall k | 0 <= k < |lines| ensures IsComment(middle[k]) <==> IsComment(lines[k]) {
      StillDeclares(lines[k], middle[k], oldIndent, newIndent, name);
    }
    if FirstCode(lines) < |lines| {
      StillDeclares(lines[FirstCode(lines)], middle[FirstCode(lines)], oldIndent, newIndent, name);
    }
    hide IsComment, Declares, MovedLine, IsIndent, IsName;
  }

  // ---- The method ----

  function After<T>(done: seq<T>, rest: Option<seq<T>>): Option<seq<T>> {
    match rest case None => None case Some(more) => Some(done + more)
  }

  function JoinAfter(done: string, rest: Option<seq<string>>): Option<string> {
    match rest case None => None case Some(lines) => Some(done + Join(lines))
  }

  lemma AfterStep<T>(done: seq<T>, x: T, rest: Option<seq<T>>)
    ensures After(done + [x], rest) == After(done, After([x], rest))
  {
    if rest.Some? { assert (done + [x]) + rest.value == done + ([x] + rest.value); }
  }

  method ReindentAttribute(segment: string, oldIndent: string, newIndent: string, newName: string, oldName: string)
    returns (moved: Option<string>)
    requires IsIndent(oldIndent) && IsIndent(newIndent)
    ensures moved == Reindented(segment, oldIndent, newIndent, newName, oldName)
  {
    var lines := SplitLines(segment);
    SplitThenJoin(segment);
    ghost var all := ReindentLines(lines, oldIndent, newIndent);
    var done: seq<string> := [];
    assert lines[0..] == lines;
    assert all.Some? ==> [] + all.value == all.value;
    for i := 0 to |lines|
      invariant |done| == i
      invariant all == After(done, ReindentLines(lines[i..], oldIndent, newIndent))
    {
      assert lines[i..][0] == lines[i] && lines[i..][1..] == lines[i + 1..];
      var line := lines[i];
      if !Blank(line) && !(oldIndent <= line) {
        return None;
      }
      var line' := if Blank(line) then line else newIndent + line[|oldIndent|..];
      AfterStep(done, line', ReindentLines(lines[i + 1..], oldIndent, newIndent));
      done := done + [line'];
    }
    assert done + [] == done;
    ReindentKeepsFile(lines, oldIndent, newIndent);
    var output := Join(done);
    JoinThenSplit(done);
    assert all == Some(done);
    moved := RenameDeclaration(output, newIndent, oldName, newName);
    assert moved.Some? ==> "" + Join(RenameFirst(done, newIndent, oldName, newName).value) == Join(RenameFirst(done, newIndent, oldName, newName).value);
  }

  // The two ways RenameFirst treats its first line.
  lemma RenameFirstLine(line: string, rest: seq<string>, indent: string, oldName: string, newName: string)
    ensures IsComment(line) ==>
      RenameFirst([line] + rest, indent, oldName, newName) == After([line], RenameFirst(rest, indent, oldName, newName))
    ensures !IsComment(line) ==>
      RenameFirst([line] + rest, indent, oldName, newName) ==
      match RenameLine(line, indent, oldName, newName) case None => None case Some(first) => Some([first] + rest)
  {
    assert ([line] + rest)[1..] == rest;
  }

  lemma DeclarationReached(done: string, first: string, rest: seq<string>)
    ensures JoinAfter(done, Some([first] + rest)) == Some(done + first + Join(rest))
  {
    assert ([first] + rest)[1..] == rest;
    assert done + (first + Join(rest)) == done + first + Join(rest);
  }

  // One line further into the text.
  lemma LineAt(output: string, offset: nat, line: string, rest: seq<string>)
    requires offset <= |output| && output[offset..] == Join([line] + rest)
    ensures offset + |line| <= |output| && output[offset + |line|..] == Join(rest)
    ensures output[..offset + |line|] == output[..offset] + line
  {
    assert ([line] + rest)[1..] == rest;
    assert output[offset..] == line + Join(rest);
    assert output[offset..][..|line|] == line && output[offset..][|line|..] == Join(rest);
  }

  lemma NothingFound(done: string, indent: string, oldName: string, newName: string)
    ensures JoinAfter(done, None) == None && JoinAfter(done, RenameFirst([], indent, oldName, newName)) == None
  {
  }

  // Finds the declaration by walking the lines with their offset, and replaces just its name.
  method RenameDeclaration(output: string, indent: string, oldName: string, newName: string) returns (renamed: Option<string>)
    ensures renamed == JoinAfter("", RenameFirst(SplitLines(output), indent, oldName, newName))
  {
    var lines := SplitLines(output);
    SplitThenJoin(output);
    var offset: nat := 0;
    hide RenameFirst, SplitLines, IsComment, Join, JoinAfter, After, FollowsName;
    assert lines[0..] == lines && output[0..] == output && output[..0] == "";
    for i := 0 to |lines|
      invariant offset <= |output| && output[offset..] == Join(lines[i..])
      invariant JoinAfter("", RenameFirst(lines, indent, oldName, newName)) ==
        JoinAfter(output[..offset], RenameFirst(lines[i..], indent, oldName, newName))
    {
      var line := lines[i];
      ghost var rest := lines[i + 1..];
      assert lines[i..] == [line] + rest;
      LineAt(output, offset, line, rest);
      RenameFirstLine(line, rest, indent, oldName, newName);
      NothingFound(output[..offset], indent, oldName, newName);
      if !IsComment(line) {
        var prefix := indent + oldName;
        if !(prefix <= line) || !FollowsName(line[|prefix|..]) {
          return None;
        }
        DeclarationReached(output[..offset], indent + newName + line[|prefix|..], rest);
        return Some(output[..offset] + (indent + newName + line[|prefix|..]) + output[offset + |line|..]);
      }
      CommentSkipped(output[..offset], line, RenameFirst(rest, indent, oldName, newName));
      offset := offset + |line|;
    }
    NothingFound(output[..offset], indent, oldName, newName);
    renamed := None;
  }

  lemma CommentSkipped(done: string, line: string, rest: Option<seq<string>>)
    ensures JoinAfter(done + line, rest) == JoinAfter(done, After([line], rest))
  {
    if rest.Some? {
      assert ([line] + rest.value)[1..] == rest.value;
      assert done + line + Join(rest.value) == done + (line + Join(rest.value));
    }
  }
}
