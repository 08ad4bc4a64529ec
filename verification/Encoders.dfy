/** The byte encoders, each with the decoder it is measured by: standard base64
    (crates/tmx-core/src/merge.rs, section 4 of RFC 4648), URI encoding (crates/tmx-adapters/src/store.rs,
    section 2 of RFC 3986) and form encoding (crates/tmx-core/src/dispatch.rs). */
module Encoders {
  import opened Wrappers
  import opened Alphabets

  type Byte = b: int | 0 <= b < 256

  // ---------- Base64 ----------

  const BASE64_ALPHABET: string := UPPER + LOWER + DIGITS + "+/"
  const BASE64_PAD: char := '='

  type Sextet = n: int | 0 <= n < 64

  function Sextets(b0: Byte, b1: Byte, b2: Byte): (r: (Sextet, Sextet, Sextet, Sextet)) {
    var packed := b0 * 65536 + b1 * 256 + b2;
    (packed / 262144, packed / 4096 % 64, packed / 64 % 64, packed % 64)
  }

  function Letter(n: Sextet): (c: char) {
    BASE64_ALPHABET[n]
  }

  /** The four characters of a group of one to three bytes. */
  function Quantum(group: seq<Byte>): (s: string)
    requires 1 <= |group| <= 3
    ensures |s| == 4
  {
    var b1, b2 := if |group| > 1 then group[1] else 0, if |group| > 2 then group[2] else 0;
    var (i0, i1, i2, i3) := Sextets(group[0], b1, b2);
    [Letter(i0), Letter(i1),
     if |group| > 1 then Letter(i2) else BASE64_PAD,
     if |group| > 2 then Letter(i3) else BASE64_PAD]
  }

  function Base64(bytes: seq<Byte>): (s: string) {
    if bytes == [] then []
    else if |bytes| <= 3 then Quantum(bytes)
    else Quantum(bytes[..3]) + Base64(bytes[3..])
  }

  /** The output has four characters for every started group of three bytes. */
  lemma {:induction false} Base64Length(bytes: seq<Byte>)
    ensures |Base64(bytes)| == 4 * ((|bytes| + 2) / 3)
    decreases |bytes|
  {
    if |bytes| > 3 {
      Base64Length(bytes[3..]);
      assert (|bytes| + 2) / 3 == (|bytes| - 1) / 3 + 1;
    }
  }

  /** One group: four sextets, of which a short group emits one more than it has bytes. */
  method EncodeGroup(group: seq<Byte>) returns (quantum: string)
    requires 1 <= |group| <= 3
    ensures quantum == Quantum(group)
  {
    var b1 := if |group| > 1 then group[1] else 0;
    var b2 := if |group| > 2 then group[2] else 0;
    var (i0, i1, i2, i3) := Sextets(group[0], b1, b2);
    var indices := [i0, i1, i2, i3];
    var emit := |group| + 1;
    quantum := "";
    for k := 0 to 4
      invariant |quantum| == k
      invariant forall j | 0 <= j < k :: quantum[j] == if j < emit then Letter(indices[j]) else BASE64_PAD
    {
      quantum := quantum + [if k < emit then Letter(indices[k]) else BASE64_PAD];
    }
  }

  lemma FirstGroup(bytes: seq<Byte>, i: nat, end: nat)
    requires i < |bytes| && end == if i + 3 <= |bytes| then i + 3 else |bytes|
    ensures Base64(bytes[i..]) == Quantum(bytes[i..end]) + Base64(bytes[end..])
  {
    var rest := bytes[i..];
    if |rest| <= 3 {
      assert bytes[i..end] == rest && Quantum(rest) + [] == Quantum(rest);
    } else {
      assert bytes[i..end] == rest[..3] && bytes[end..] == rest[3..];
    }
  }

  lemma GroupStep(out: string, bytes: seq<Byte>, i: nat, end: nat)
    requires i < |bytes| && end == if i + 3 <= |bytes| then i + 3 else |bytes|
    ensures out + Base64(bytes[i..]) == (out + Quantum(bytes[i..end])) + Base64(bytes[end..])
  {
    FirstGroup(bytes, i, end);
  }

  /** `base64_encode`. */
  method Base64Encode(bytes: seq<Byte>) returns (out: string)
    ensures out == Base64(bytes)
  {
    out := "";
    var i := 0;
    assert bytes[0..] == bytes;
    while i < |bytes|
      invariant i <= |bytes|
      invariant Base64(bytes) == out + Base64(bytes[i..])
    {
      var end := if i + 3 <= |bytes| then i + 3 else |bytes|;
      GroupStep(out, bytes, i, end);
      var quantum := EncodeGroup(bytes[i..end]);
      out := out + quantum;
      i := end;
    }
  }

  /** The sextet of a base64 letter. */
  function SextetOf(c: char): (n: Option<Sextet>) {
    if 'A' <= c <= 'Z' then Some(c as int - 'A' as int)
    else if 'a' <= c <= 'z' then Some(c as int - 'a' as int + 26)
    else if '0' <= c <= '9' then Some(c as int - '0' as int + 52)
    else if c == '+' then Some(62)
    else if c == '/' then Some(63)
    else None
  }

  lemma LetterDecodes(n: Sextet)
    ensures SextetOf(Letter(n)) == Some(n) && Letter(n) != BASE64_PAD
  {
    if n < 26 {
      UpperAt(n);
    } else if n < 52 {
      LowerAt(n - 26);
    } else if n < 62 {
      DigitAt(n - 52);
    }
  }

  function Pack(i0: Sextet, i1: Sextet, i2: Sextet, i3: Sextet): (packed: int)
    ensures 0 <= packed < 16777216
  {
    i0 * 262144 + i1 * 4096 + i2 * 64 + i3
  }

  /** How many padding characters end a quantum. */
  function Pads(q: string): (n: nat)
    requires |q| == 4
    ensures n <= 2
  {
    if q[3] != BASE64_PAD then 0 else if q[2] != BASE64_PAD then 1 else 2
  }

  function Unpack(packed: int, count: nat): (bytes: seq<Byte>)
    requires count <= 3 && 0 <= packed < 16777216
  {
    [packed / 65536, packed / 256 % 256, packed % 256][..count]
  }

  /** The bytes of four characters, padding only at their end. */
  function Unquantum(q: string): (r: Option<seq<Byte>>)
    requires |q| == 4
  {
    var i0, i1, i2, i3 := SextetOf(q[0]), SextetOf(q[1]), SextetOrPad(q, 2), SextetOrPad(q, 3);
    if i0.None? || i1.None? || i2.None? || i3.None? then None
    else Some(Unpack(Pack(i0.value, i1.value, i2.value, i3.value), 3 - Pads(q)))
  }

  /** The sextet at `k`, a padding character counting as zero. */
  function SextetOrPad(q: string, k: nat): (n: Option<Sextet>)
    requires |q| == 4 && k < 4
  {
    if k + Pads(q) >= 4 then Some(0) else SextetOf(q[k])
  }

  function Unbase64(s: string): (r: Option<seq<Byte>>)
    decreases |s|
  {
    if s == [] then Some([])
    else if |s| < 4 then None
    else
      var head, tail := Unquantum(s[..4]), Unbase64(s[4..]);
      if head.None? || tail.None? then None else Some(head.value + tail.value)
  }

  /** The sextets of a 24-bit number put it together again. */
  lemma DigitsRepack(packed: int)
    requires 0 <= packed < 16777216
    ensures packed / 262144 * 262144 + packed / 4096 % 64 * 4096 + packed / 64 % 64 * 64 + packed % 64 == packed
  {
    var a, b := packed / 64, packed / 4096;
    assert a / 64 == b && b / 64 == packed / 262144;
    assert packed == 64 * a + packed % 64 && a == 64 * b + a % 64 && b == 64 * (b / 64) + b % 64;
  }

  lemma SextetsRepack(b0: Byte, b1: Byte, b2: Byte)
    ensures var (i0, i1, i2, i3) := Sextets(b0, b1, b2);
            Pack(i0, i1, i2, i3) == b0 * 65536 + b1 * 256 + b2
  {
    DigitsRepack(b0 * 65536 + b1 * 256 + b2);
  }

  lemma AbsentBytesAreZeroSextets(b0: Byte, b1: Byte, b2: Byte)
    ensures var (i0, i1, i2, i3) := Sextets(b0, b1, b2);
            (b2 == 0 ==> i3 == 0) && (b1 == 0 && b2 == 0 ==> i2 == 0)
  {
    LowBits(b0 * 1024 + b1 * 4);
    LowBits(b0 * 16);
  }

  lemma LowBits(n: nat)
    ensures 64 * n % 64 == 0 && 64 * n / 64 == n
  {
  }

  lemma LowByte(n: nat, b: Byte)
    ensures (n * 256 + b) / 256 == n && (n * 256 + b) % 256 == b
  {
  }

  lemma BytesUnpack(b0: Byte, b1: Byte, b2: Byte, count: nat)
    requires count <= 3
    ensures Unpack(b0 * 65536 + b1 * 256 + b2, count) == [b0, b1, b2][..count]
  {
    var packed := b0 * 65536 + b1 * 256 + b2;
    LowByte(b0 * 256 + b1, b2);
    LowByte(b0, b1);
    assert packed == (b0 * 256 + b1) * 256 + b2;
    assert packed / 65536 == packed / 256 / 256;
  }

  /** The four characters of a group give back its sextets. */
  lemma QuantumSextets(group: seq<Byte>, b1: Byte, b2: Byte)
    requires 1 <= |group| <= 3
    requires b1 == (if |group| > 1 then group[1] else 0) && b2 == (if |group| > 2 then group[2] else 0)
    ensures var q := Quantum(group);
            var (i0, i1, i2, i3) := Sextets(group[0], b1, b2);
            && Pads(q) == 3 - |group|
            && SextetOf(q[0]) == Some(i0) && SextetOf(q[1]) == Some(i1)
            && SextetOrPad(q, 2) == Some(i2) && SextetOrPad(q, 3) == Some(i3)
  {
    var (i0, i1, i2, i3) := Sextets(group[0], b1, b2);
    AbsentBytesAreZeroSextets(group[0], b1, b2);
    LetterDecodes(i0);
    LetterDecodes(i1);
    LetterDecodes(i2);
    LetterDecodes(i3);
  }

  lemma QuantumAssembles(q: string, i0: Sextet, i1: Sextet, i2: Sextet, i3: Sextet)
    requires |q| == 4
    requires SextetOf(q[0]) == Some(i0) && SextetOf(q[1]) == Some(i1)
    requires SextetOrPad(q, 2) == Some(i2) && SextetOrPad(q, 3) == Some(i3)
    ensures Unquantum(q) == Some(Unpack(Pack(i0, i1, i2, i3), 3 - Pads(q)))
  {
  }

  lemma PaddedGroup(group: seq<Byte>, b1: Byte, b2: Byte)
    requires 1 <= |group| <= 3
    requires b1 == (if |group| > 1 then group[1] else 0) && b2 == (if |group| > 2 then group[2] else 0)
    ensures [group[0], b1, b2][..|group|] == group
  {
  }

  /** What is read back from `q` is what its sextets pack to. */
  lemma QuantumUnpacks(q: string, group: seq<Byte>, b1: Byte, b2: Byte)
    requires 1 <= |group| <= 3 && |q| == 4 && Pads(q) == 3 - |group|
    requires var (i0, i1, i2, i3) := Sextets(group[0], b1, b2);
             && SextetOf(q[0]) == Some(i0) && SextetOf(q[1]) == Some(i1)
             && SextetOrPad(q, 2) == Some(i2) && SextetOrPad(q, 3) == Some(i3)
    ensures Unquantum(q) == Some([group[0], b1, b2][..|group|])
  {
    var (i0, i1, i2, i3) := Sextets(group[0], b1, b2);
    QuantumAssembles(q, i0, i1, i2, i3);
    SextetsRepack(group[0], b1, b2);
    BytesUnpack(group[0], b1, b2, |group|);
  }

  lemma QuantumDecodes(group: seq<Byte>)
    requires 1 <= |group| <= 3
    ensures Unquantum(Quantum(group)) == Some(group)
  {
    var b1, b2 := if |group| > 1 then group[1] else 0, if |group| > 2 then group[2] else 0;
    QuantumSextets(group, b1, b2);
    QuantumUnpacks(Quantum(group), group, b1, b2);
    PaddedGroup(group, b1, b2);
  }

  /** Base64 is undone by decoding. */
  lemma {:induction false} Base64Decodes(bytes: seq<Byte>)
    ensures Unbase64(Base64(bytes)) == Some(bytes)
    decreases |bytes|
  {
    if bytes == [] {
    } else if |bytes| <= 3 {
      QuantumDecodes(bytes);
      assert Quantum(bytes)[..4] == Quantum(bytes) && Quantum(bytes)[4..] == [];
      assert bytes + [] == bytes;
    } else {
      QuantumDecodes(bytes[..3]);
      Base64Decodes(bytes[3..]);
      var s := Base64(bytes);
      assert s[..4] == Quantum(bytes[..3]) && s[4..] == Base64(bytes[3..]);
      assert bytes == bytes[..3] + bytes[3..];
    }
  }

  // ---------- Percent encoding ----------

  const HEX: string := "0123456789ABCDEF"

  predicate IsUnreserved(b: Byte) {
    || 'A' as int <= b <= 'Z' as int || 'a' as int <= b <= 'z' as int || '0' as int <= b <= '9' as int
    || b == '-' as int || b == '.' as int || b == '_' as int || b == '~' as int
  }

  function PercentByte(b: Byte): (s: string)
    ensures |s| == 3
  {
    ['%', HEX[b / 16], HEX[b % 16]]
  }

  /** One byte of a URI; a slash is kept in object-key paths. */
  function UriByte(b: Byte, encodeSlash: bool): (s: string) {
    if IsUnreserved(b) || (!encodeSlash && b == '/' as int) then [b as char] else PercentByte(b)
  }

  function UriText(bytes: seq<Byte>, encodeSlash: bool): (s: string) {
    if bytes == [] then [] else UriByte(bytes[0], encodeSlash) + UriText(bytes[1..], encodeSlash)
  }

  /** `uri_encode`. */
  method UriEncode(bytes: seq<Byte>, encodeSlash: bool) returns (out: string)
    ensures out == UriText(bytes, encodeSlash)
  {
    out := "";
    assert bytes[0..] == bytes;
    for i := 0 to |bytes|
      invariant UriText(bytes, encodeSlash) == out + UriText(bytes[i..], encodeSlash)
    {
      UriTextStep(out, bytes, i, encodeSlash);
      var unreserved := IsUnreserved(bytes[i]) || (!encodeSlash && bytes[i] == '/' as int);
      if unreserved {
        out := out + [bytes[i] as char];
      } else {
        out := out + ['%', HEX[bytes[i] / 16], HEX[bytes[i] % 16]];
      }
    }
  }

  lemma UriTextStep(out: string, bytes: seq<Byte>, i: nat, encodeSlash: bool)
    requires i < |bytes|
    ensures out + UriText(bytes[i..], encodeSlash)
         == (out + UriByte(bytes[i], encodeSlash)) + UriText(bytes[i + 1..], encodeSlash)
  {
    assert bytes[i..][0] == bytes[i] && bytes[i..][1..] == bytes[i + 1..];
  }

  // The unreserved characters of section 2.3 of RFC 3986.
  const UNRESERVED: string := UPPER + LOWER + DIGITS + "-._~"

  lemma UnreservedIsListed(b: Byte)
    ensures IsUnreserved(b) <==> b as char in UNRESERVED
  {
    UpperIsListed(b as char);
    LowerIsListed(b as char);
    DigitIsListed(b as char);
  }

  /** URI encoding goes byte by byte. */
  lemma {:induction false} UriTextConcat(a: seq<Byte>, b: seq<Byte>, encodeSlash: bool)
    ensures UriText(a + b, encodeSlash) == UriText(a, encodeSlash) + UriText(b, encodeSlash)
    decreases |a|
  {
    if a == [] {
      assert a + b == b;
    } else {
      assert (a + b)[1..] == a[1..] + b;
      UriTextConcat(a[1..], b, encodeSlash);
    }
  }

  /** A byte stands for itself exactly when it is unreserved, or a slash that is to be kept; every other byte
      takes three characters. */
  lemma UriCopiesExactly(b: Byte, encodeSlash: bool)
    ensures UriText([b], encodeSlash) == [b as char] <==> (b as char in UNRESERVED || (b == '/' as int && !encodeSlash))
    ensures UriText([b], encodeSlash) != [b as char] ==>
              |UriText([b], encodeSlash)| == 3 && UriText([b], encodeSlash)[0] == '%'
  {
    UnreservedIsListed(b);
    assert UriText([b], encodeSlash) == UriByte(b, encodeSlash) + UriText([b][1..], encodeSlash);
    assert [b][1..] == [];
  }

  /** With slashes encoded the output holds none. */
  lemma {:induction false} EncodedSlashesAreGone(bytes: seq<Byte>)
    ensures '/' !in UriText(bytes, true)
  {
    if bytes != [] {
      EncodedSlashesAreGone(bytes[1..]);
      HexDecodes(bytes[0] / 16);
      HexDecodes(bytes[0] % 16);
    }
  }

  /** One byte of a form field: a space becomes a plus. */
  function FormByte(b: Byte): (s: string) {
    if IsUnreserved(b) then [b as char] else if b == ' ' as int then ['+'] else PercentByte(b)
  }

  function FormText(bytes: seq<Byte>): (s: string) {
    if bytes == [] then [] else FormByte(bytes[0]) + FormText(bytes[1..])
  }

  /** `percent_encode`. */
  method PercentEncode(bytes: seq<Byte>) returns (out: string)
    ensures out == FormText(bytes)
  {
    out := "";
    assert bytes[0..] == bytes;
    for i := 0 to |bytes|
      invariant FormText(bytes) == out + FormText(bytes[i..])
    {
      ghost var rest := FormText(bytes[i + 1..]);
      assert bytes[i..][0] == bytes[i] && bytes[i..][1..] == bytes[i + 1..];
      assert out + (FormByte(bytes[i]) + rest) == (out + FormByte(bytes[i])) + rest;
      out := out + FormByte(bytes[i]);
    }
  }

  function HexValue(c: char): (n: Option<nat>) {
    if '0' <= c <= '9' then Some(c as int - '0' as int)
    else if 'A' <= c <= 'F' then Some(c as int - 'A' as int + 10)
    else None
  }

  /** Percent decoding; in a form a plus is a space. */
  function PercentDecode(s: string, plusIsSpace: bool): (r: Option<seq<Byte>>)
    decreases |s|
  {
    if s == [] then Some([])
    else if s[0] == '%' then
      if |s| < 3 || HexValue(s[1]).None? || HexValue(s[2]).None? then None
      else
        var rest := PercentDecode(s[3..], plusIsSpace);
        if rest.None? then None else Some([HexValue(s[1]).value * 16 + HexValue(s[2]).value] + rest.value)
    else if s[0] as int >= 128 then None
    else
      var b: Byte := if plusIsSpace && s[0] == '+' then ' ' as int else s[0] as int;
      var rest := PercentDecode(s[1..], plusIsSpace);
      if rest.None? then None else Some([b] + rest.value)
  }

  lemma HexDecodes(n: nat)
    requires n < 16
    ensures HexValue(HEX[n]) == Some(n)
  {
  }

  lemma PercentByteDecodes(b: Byte, rest: string, plusIsSpace: bool)
    ensures PercentDecode(PercentByte(b) + rest, plusIsSpace)
         == match PercentDecode(rest, plusIsSpace) case None => None case Some(more) => Some([b] + more)
  {
    HexDecodes(b / 16);
    HexDecodes(b % 16);
    var s := PercentByte(b) + rest;
    assert s[1] == HEX[b / 16] && s[2] == HEX[b % 16] && s[3..] == rest;
    assert b == b / 16 * 16 + b % 16;
  }

  /** URI encoding is undone by decoding, slashes kept or not. */
  lemma {:induction false} UriDecodes(bytes: seq<Byte>, encodeSlash: bool)
    ensures PercentDecode(UriText(bytes, encodeSlash), false) == Some(bytes)
    decreases |bytes|
  {
    if bytes != [] {
      var rest := UriText(bytes[1..], encodeSlash);
      UriDecodes(bytes[1..], encodeSlash);
      PercentByteDecodes(bytes[0], rest, false);
      assert ([bytes[0] as char] + rest)[1..] == rest;
      assert bytes == [bytes[0]] + bytes[1..];
    }
  }

  lemma {:induction false} FormDecodes(bytes: seq<Byte>)
    ensures PercentDecode(FormText(bytes), true) == Some(bytes)
    decreases |bytes|
  {
    if bytes != [] {
      var rest := FormText(bytes[1..]);
      FormDecodes(bytes[1..]);
      PercentByteDecodes(bytes[0], rest, true);
      assert ([bytes[0] as char] + rest)[1..] == rest && (['+'] + rest)[1..] == rest;
      assert bytes == [bytes[0]] + bytes[1..];
    }
  }

  // ---------- Form bodies ----------

  /** A key and the text its value renders to. */
  datatype Field = Field(key: seq<Byte>, value: seq<Byte>)

  function FieldText(f: Field): (s: string)
    ensures s != []
  {
    FormText(f.key) + ['='] + FormText(f.value)
  }

  /** `form_urlencode` of an object: its fields, joined by ampersands. */
  function FormBody(fields: seq<Field>): (s: string)
    ensures fields != [] ==> s != []
  {
    if fields == [] then []
    else if |fields| == 1 then FieldText(fields[0])
    else FieldText(fields[0]) + ['&'] + FormBody(fields[1..])
  }

  /** The index of the first `c`, or the length. */
  function IndexOf(s: string, c: char): (i: nat)
    ensures i <= |s| && c !in s[..i]
    ensures i < |s| ==> s[i] == c
  {
    if s == [] || s[0] == c then 0
    else
      var i := IndexOf(s[1..], c);
      assert s[..i + 1] == [s[0]] + s[1..][..i];
      i + 1
  }

  function FieldDecode(s: string): (f: Option<Field>) {
    var i := IndexOf(s, '=');
    if i == |s| then None
    else
      var key, value := PercentDecode(s[..i], true), PercentDecode(s[i + 1..], true);
      if key.None? || value.None? then None else Some(Field(key.value, value.value))
  }

  /** Split at ampersands, then each part at its first equals sign; no text is no field. */
  function FormDecode(s: string): (fields: Option<seq<Field>>)
    decreases |s|
  {
    if s == [] then Some([])
    else
      var i := IndexOf(s, '&');
      var first := FieldDecode(s[..i]);
      if first.None? then None
      else if i == |s| then Some([first.value])
      else if i + 1 == |s| then None
      else
        var rest := FormDecode(s[i + 1..]);
        if rest.None? then None else Some([first.value] + rest.value)
  }

  /** Encoded text holds neither separator. */
  lemma {:induction false} FormTextHasNoSeparator(bytes: seq<Byte>)
    ensures '&' !in FormText(bytes) && '=' !in FormText(bytes)
    decreases |bytes|
  {
    if bytes != [] {
      FormTextHasNoSeparator(bytes[1..]);
      FormByteHasNoSeparator(bytes[0]);
    }
  }

  lemma FormByteHasNoSeparator(b: Byte)
    ensures '&' !in FormByte(b) && '=' !in FormByte(b)
  {
    if !IsUnreserved(b) && b != ' ' as int {
      HexDecodes(b / 16);
      HexDecodes(b % 16);
    }
  }

  lemma {:induction false} FirstIndex(a: string, c: char, b: string)
    requires c !in a
    ensures IndexOf(a + [c] + b, c) == |a| && IndexOf(a, c) == |a|
  {
    if a == [] {
    } else {
      assert a[0] in a && forall x | x in a[1..] :: x in a;
      FirstIndex(a[1..], c, b);
      assert (a + [c] + b)[1..] == a[1..] + [c] + b;
    }
  }

  lemma FieldDecodes(f: Field)
    ensures FieldDecode(FieldText(f)) == Some(f) && '&' !in FieldText(f)
  {
    var key, value := FormText(f.key), FormText(f.value);
    FormTextHasNoSeparator(f.key);
    FormTextHasNoSeparator(f.value);
    FirstIndex(key, '=', value);
    FormDecodes(f.key);
    FormDecodes(f.value);
    var s := FieldText(f);
    assert s[..|key|] == key && s[|key| + 1..] == value;
  }

  lemma OneFieldDecodes(f: Field)
    ensures FormDecode(FieldText(f)) == Some([f])
  {
    var text := FieldText(f);
    FieldDecodes(f);
    FirstIndex(text, '&', []);
    assert text[..|text|] == text;
  }

  /** Decoding splits at the first ampersand. */
  lemma FieldThenFormDecodes(f: Field, rest: string, more: seq<Field>)
    requires rest != [] && FormDecode(rest) == Some(more)
    ensures FormDecode(FieldText(f) + ['&'] + rest) == Some([f] + more)
  {
    var text := FieldText(f);
    var s := text + ['&'] + rest;
    FieldDecodes(f);
    FirstIndex(text, '&', rest);
    assert s[..|text|] == text && s[|text| + 1..] == rest;
  }

  lemma FormBodyUnfolds(fields: seq<Field>)
    requires fields != []
    ensures |fields| == 1 ==> FormBody(fields) == FieldText(fields[0])
    ensures |fields| > 1 ==> FormBody(fields) == FieldText(fields[0]) + ['&'] + FormBody(fields[1..])
  {
  }

  /** In a form a byte stands for itself exactly when it is unreserved, and only a space becomes a plus. */
  lemma FormCopiesExactly(b: Byte)
    ensures FormText([b]) == [b as char] <==> b as char in UNRESERVED
    ensures FormText([b]) == "+" <==> b as char == ' '
    ensures |FormText([b])| == 1 || (|FormText([b])| == 3 && FormText([b])[0] == '%')
  {
    UnreservedIsListed(b);
    assert [b][1..] == [] && FormText([]) == [];
    assert FormText([b]) == FormByte(b) + [] == FormByte(b);
  }

  /** A form body decodes to its fields, in order. */
  lemma {:induction false} FormBodyDecodes(fields: seq<Field>)
    ensures FormDecode(FormBody(fields)) == Some(fields)
    decreases |fields|
  {
    if fields != [] {
      FormBodyUnfolds(fields);
      OneFieldDecodes(fields[0]);
      assert fields == [fields[0]] + fields[1..];
      if |fields| == 1 {
        assert fields == [fields[0]];
      } else {
        FormBodyDecodes(fields[1..]);
        FieldThenFormDecodes(fields[0], FormBody(fields[1..]), fields[1..]);
      }
    }
  }
}
