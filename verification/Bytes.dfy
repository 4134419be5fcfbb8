/** Bytes, the ASCII codes the parsers test for, and slices of byte strings. */
module Bytes {
  type byte = x: int | 0 <= x < 256
  type bytes = seq<byte>

  const NUL: byte := 0
  const TAB: byte := 9
  const LF: byte := 10
  const CR: byte := 13
  const SPACE: byte := 32
  const QUOTE: byte := 34
  const COMMA: byte := 44
  const MINUS: byte := 45
  const DOT: byte := 46
  const SLASH: byte := 47
  const ZERO: byte := 48
  const NINE: byte := 57
  const COLON: byte := 58
  const LBRACKET: byte := 91
  const BACKSLASH: byte := 92
  const RBRACKET: byte := 93
  const LBRACE: byte := 123
  const RBRACE: byte := 125

  /** The codes of a string of ASCII characters. */
  function Ascii(s: string): (b: bytes)
    requires forall i | 0 <= i < |s| :: s[i] < 128 as char
    ensures |b| == |s|
  {
    seq(|s|, i requires 0 <= i < |s| => s[i] as int)
  }

  predicate IsDigit(c: byte) {
    ZERO <= c <= NINE
  }

  predicate IsSpace(c: byte) {
    c == SPACE || c == LF || c == CR || c == TAB
  }

  /** The byte a NUL-terminated buffer shows at position p: the terminator stands at |t|. */
  function Peek(t: bytes, p: nat): byte {
    if p < |t| then t[p] else NUL
  }

  /** t ends in s, from position p on. */
  predicate Suffix(t: bytes, p: nat, s: bytes) {
    p <= |t| && t[p..] == s
  }

  lemma SuffixSplit(t: bytes, p: nat, a: bytes, s: bytes)
    requires Suffix(t, p, a + s)
    ensures p + |a| <= |t| && t[p..p + |a|] == a && Suffix(t, p + |a|, s)
  {
    assert t[p..p + |a|] == t[p..][..|a|];
    assert t[p + |a|..] == t[p..][|a|..];
  }

  lemma SuffixHead(t: bytes, p: nat, c: byte, s: bytes)
    requires Suffix(t, p, [c] + s)
    ensures p < |t| && t[p] == c && Suffix(t, p + 1, s)
  {
    SuffixSplit(t, p, [c], s);
    assert t[p] == t[p..][0];
  }

  /** The byte a NUL-terminated buffer holding s starts with. */
  function First(s: bytes): byte {
    Peek(s, 0)
  }

  lemma SuffixPeek(t: bytes, p: nat, s: bytes)
    requires Suffix(t, p, s)
    ensures Peek(t, p) == First(s)
  {
    if s != [] {
      assert t[p] == t[p..][0];
    }
  }
}
