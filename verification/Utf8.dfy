/** UTF-8 text as the expression language sees it.  The source scans the bytes of a `&str`; a byte is
    written here as the character with the same code, so that ASCII literals stay readable. */
module Utf8 {

  type Bytes = string

  predicate IsContinuation(b: char) {
    0x80 <= b as int < 0xC0
  }

  predicate IsAscii(b: char) {
    b as int < 0x80
  }

  /** How many bytes the character that opens with `lead` occupies (`len_utf8`). */
  function Width(lead: char): (w: nat)
    ensures 1 <= w <= 4
    ensures IsAscii(lead) <==> w == 1
  {
    if IsAscii(lead) then 1 else if lead as int < 0xE0 then 2 else if lead as int < 0xF0 then 3 else 4
  }

  /** A whole character starts at `i`: a lead byte and its continuation bytes. */
  predicate WholeAt(s: Bytes, i: nat) {
    && i < |s|
    && !IsContinuation(s[i])
    && i + Width(s[i]) <= |s|
    && (forall k | i < k < i + Width(s[i]) :: IsContinuation(s[k]))
  }

  /** From `i` on, `s` is a sequence of whole characters: `i` is a character boundary of a `&str`. */
  predicate ValidFrom(s: Bytes, i: nat)
    decreases |s| - i
  {
    i == |s| || (WholeAt(s, i) && ValidFrom(s, i + Width(s[i])))
  }

  /** The shape every `&str` has. */
  predicate Valid(s: Bytes) {
    ValidFrom(s, 0)
  }

  /** Between ASCII bytes every index is a character boundary. */
  lemma {:induction false} AsciiRun(s: Bytes, i: nat, j: nat)
    requires i <= j <= |s| && ValidFrom(s, i)
    requires forall k | i <= k < j :: IsAscii(s[k])
    ensures ValidFrom(s, j)
    decreases j - i
  {
    if i < j {
      AsciiRun(s, i + 1, j);
    }
  }

  /** The bytes of a code point (section 3 of RFC 3629). */
  function Encode(c: nat): (s: Bytes)
    requires c < 0x11_0000
  {
    if c < 0x80 then [c as char]
    else if c < 0x800 then [(0xC0 + c / 64) as char, (0x80 + c % 64) as char]
    else if c < 0x1_0000 then [(0xE0 + c / 4096) as char, (0x80 + c / 64 % 64) as char, (0x80 + c % 64) as char]
    else [(0xF0 + c / 262144) as char, (0x80 + c / 4096 % 64) as char,
          (0x80 + c / 64 % 64) as char, (0x80 + c % 64) as char]
  }

  /** An encoded code point is one whole character, of the width its first byte announces. */
  lemma EncodedIsWhole(c: nat)
    requires c < 0x11_0000
    ensures var s := Encode(c); WholeAt(s, 0) && Width(s[0]) == |s| && Valid(s)
  {
    var s := Encode(c);
    assert ValidFrom(s, |s|);
  }
}
