// Splitting a file into lines that keep their newline, the unit the diff works on.
module Lines {
  import opened Wrappers

  // Some text with a newline nowhere but, perhaps, at its end.
  predicate IsLine(line: string) {
    line != [] && forall k | 0 <= k < |line| - 1 :: line[k] != '\n'
  }

  predicate Terminated(line: string) {
    line != [] && line[|line| - 1] == '\n'
  }

  // Only the last line of a file may lack its newline.
  predicate IsFile(lines: seq<string>) {
    && (forall k | 0 <= k < |lines| :: IsLine(lines[k]))
    && (forall k | 0 <= k < |lines| - 1 :: Terminated(lines[k]))
  }

  // The end of the first line: just past its newline, or the end of the text.
  function LineEnd(source: string): (n: nat)
    ensures n <= |source|
    ensures source != [] ==> n > 0 && IsLine(source[..n])
    ensures n < |source| ==> Terminated(source[..n])
  {
    if source == [] then 0
    else if source[0] == '\n' then 1
    else
      var n := LineEnd(source[1..]);
      assert forall k | 0 <= k < n :: source[1..][..n][k] == source[1 + k];
      1 + n
  }

  function SplitLines(source: string): (lines: seq<string>) {
    if source == [] then []
    else [source[..LineEnd(source)]] + SplitLines(source[LineEnd(source)..])
  }

  function Join(lines: seq<string>): (source: string) {
    if lines == [] then [] else lines[0] + Join(lines[1..])
  }

  // Splitting loses nothing and yields a proper file.
  lemma {:induction false} SplitThenJoin(source: string)
    ensures Join(SplitLines(source)) == source
    ensures IsFile(SplitLines(source))
    ensures source == [] <==> SplitLines(source) == []
    decreases |source|
  {
    if source != [] {
      var n := LineEnd(source);
      var line, rest := source[..n], SplitLines(source[n..]);
      SplitThenJoin(source[n..]);
      assert SplitLines(source) == [line] + rest && ([line] + rest)[1..] == rest;
      assert source == line + source[n..];
      hide LineEnd, SplitLines;
      LineBeforeFile(line, rest);
    }
  }

  lemma LineBeforeFile(line: string, rest: seq<string>)
    requires IsLine(line) && IsFile(rest) && (rest == [] || Terminated(line))
    ensures IsFile([line] + rest)
  {
  }

  lemma {:induction false} LineEndOfLine(line: string, rest: string)
    requires IsLine(line) && (Terminated(line) || rest == [])
    ensures LineEnd(line + rest) == |line|
    decreases |line|
  {
    if line[0] != '\n' {
      assert (line + rest)[1..] == line[1..] + rest;
      if |line| == 1 {
        assert line[1..] + rest == [];
      } else {
        assert forall k | 0 <= k < |line[1..]| :: line[1..][k] == line[k + 1];
        LineEndOfLine(line[1..], rest);
      }
    }
  }

  // And there is no other way to write a text as a file of lines.
  lemma {:induction false} JoinThenSplit(lines: seq<string>)
    requires IsFile(lines)
    ensures SplitLines(Join(lines)) == lines
  {
    if lines != [] {
      var rest := Join(lines[1..]);
      JoinThenSplit(lines[1..]);
      if |lines| == 1 { assert rest == []; }
      LineEndOfLine(lines[0], rest);
      assert (lines[0] + rest)[..|lines[0]|] == lines[0] && (lines[0] + rest)[|lines[0]|..] == rest;
    }
  }

  // ---- Decimal numbers, as the hunk headers print them ----

  const DIGITS: string := "0123456789"

  function Decimal(n: nat): (text: string)
    ensures text != []
  {
    if n < 10 then [DIGITS[n]] else Decimal(n / 10) + [DIGITS[n % 10]]
  }

  predicate IsDigit(c: char) {
    '0' <= c <= '9'
  }

  function DigitValue(c: char): (d: nat)
    requires IsDigit(c)
  {
    c as int - '0' as int
  }

  // Reads every leading digit onto acc; the remaining text starts with something else.
  function ReadDigits(text: string, acc: nat): (result: (nat, string))
    ensures |result.1| <= |text|
  {
    if text != [] && IsDigit(text[0]) then ReadDigits(text[1..], acc * 10 + DigitValue(text[0])) else (acc, text)
  }

  lemma DigitsAreDigits(d: nat)
    requires d < 10
    ensures IsDigit(DIGITS[d]) && DigitValue(DIGITS[d]) == d
  {
    assert DIGITS == ['0', '1', '2', '3', '4', '5', '6', '7', '8', '9'];
  }

  lemma {:induction false} ReadDecimal(n: nat, rest: string)
    ensures ReadDigits(Decimal(n) + rest, 0) == ReadDigits(rest, n)
    ensures IsDigit((Decimal(n) + rest)[0])
  {
    DigitsAreDigits(n % 10);
    var last := [DIGITS[n % 10]];
    assert (last + rest)[0] == DIGITS[n % 10] && (last + rest)[1..] == rest;
    if n >= 10 {
      ReadDecimal(n / 10, last + rest);
      assert Decimal(n) + rest == Decimal(n / 10) + (last + rest);
      assert n / 10 * 10 + n % 10 == n;
    }
  }
}
