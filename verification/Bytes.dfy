/** Bytes, byte strings and the byte classes the parsers test. */
module Bytes {
  newtype byte = x: int | 0 <= x < 256
  type bytes = seq<byte>

  const NUL: byte := 0
  const TAB: byte := 9
  const LF: byte := 10
  const CR: byte := 13
  const SPACE: byte := 32
  const DQUOTE: byte := 34
  const HASH: byte := 35
  const DOLLAR: byte := 36
  const SQUOTE: byte := 39
  const EQUALS: byte := 61
  const BACKSLASH: byte := 92
  const UNDERSCORE: byte := 95
  const LBRACE: byte := 123
  const RBRACE: byte := 125

  // EF BB BF
  const BOM: bytes := [239, 187, 191]
  // "ENVFILE_"
  const CONTROL_PREFIX: bytes := [69, 78, 86, 70, 73, 76, 69, 95]

  predicate IsAlpha(c: byte) { 65 <= c <= 90 || 97 <= c <= 122 }
  predicate IsDigit(c: byte) { 48 <= c <= 57 }
  predicate IsBlankByte(c: byte) { c == SPACE || c == TAB }
  predicate IsNameStart(c: byte) { IsAlpha(c) || c == UNDERSCORE }
  predicate IsNameRest(c: byte) { IsNameStart(c) || IsDigit(c) }

  predicate EndsWith(s: bytes, c: byte) { s != [] && s[|s| - 1] == c }
  predicate AllBlank(s: bytes) { forall c :: c in s ==> IsBlankByte(c) }
  predicate IsIdentifier(s: bytes) {
    s != [] && IsNameStart(s[0]) && forall k :: 1 <= k < |s| ==> IsNameRest(s[k])
  }

  /** The line without one trailing carriage return. */
  function TrimCr(s: bytes): bytes {
    if EndsWith(s, CR) then s[..|s| - 1] else s
  }

  function FindFrom(s: bytes, c: byte, i: nat): (r: nat)
    requires i <= |s|
    ensures i <= r <= |s|
    ensures forall k :: i <= k < r ==> s[k] != c
    ensures r < |s| ==> s[r] == c
    decreases |s| - i
  {
    if i == |s| || s[i] == c then i else FindFrom(s, c, i + 1)
  }

  /** Position of the first c in s, or |s| when there is none (memchr, strchr, IndexByte). */
  function Find(s: bytes, c: byte): (r: nat)
    ensures r <= |s|
    ensures forall k :: 0 <= k < r ==> s[k] != c
    ensures r < |s| ==> s[r] == c
  {
    FindFrom(s, c, 0)
  }

  lemma FindUnique(s: bytes, c: byte, r: nat)
    requires r <= |s| && c !in s[..r] && (r < |s| ==> s[r] == c)
    ensures Find(s, c) == r
  {
    assert forall k :: 0 <= k < r ==> s[..r][k] != c;
  }

  function Concat(parts: seq<bytes>): bytes {
    if parts == [] then [] else parts[0] + Concat(parts[1..])
  }

  function Max(a: nat, b: nat): nat { if a < b then b else a }
}
