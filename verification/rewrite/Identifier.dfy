// The names the rewriter accepts for new attributes and blocks.
module Identifier {

  predicate IsLetter(c: char) {
    c == '_' || 'a' <= c <= 'z' || 'A' <= c <= 'Z'
  }

  predicate ValidIdentifier(name: string) {
    && name != [] && name[|name| - 1] != '-'
    && forall k | 0 <= k < |name| :: IsLetter(name[k]) || (k > 0 && (name[k] == '-' || '0' <= name[k] <= '9'))
  }
}
