// Appending a generated block to a file.
module Append {

  predicate EndsBlank(text: string) {
    |text| >= 2 && text[|text| - 2] == '\n' && text[|text| - 1] == '\n'
  }

  // How many line breaks are missing for a blank line after the source.
  function Missing(source: string): nat {
    if source == "" || EndsBlank(source) then 0 else if source[|source| - 1] == '\n' then 1 else 2
  }

  // Just the line breaks that leave a blank line after the source.
  predicate IsGap(source: string, gap: string) {
    && |gap| == Missing(source) && (forall c | c in gap :: c == '\n')
    && (source != "" ==> EndsBlank(source + gap))
  }

  // The source stays as it is and the block comes last, after one blank line that is made up of the
  // source's own line breaks as far as they go; an empty file just becomes the block.
  method AppendBlock(source: string, block: string) returns (out: string)
    ensures exists gap :: IsGap(source, gap) && out == source + gap + block
  {
    ghost var gap := "";
    out := source;
    assert source + gap == source;
    if |out| > 0 {
      if out[|out| - 1] != '\n' {
        out, gap := out + ['\n'], gap + ['\n'];
        assert out == source + gap;
      }
      if !EndsBlank(out) {
        out, gap := out + ['\n'], gap + ['\n'];
        assert out == source + gap;
      }
    }
    assert IsGap(source, gap);
    out := out + block;
  }
}
