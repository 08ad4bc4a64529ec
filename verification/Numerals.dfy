/** Numbers as decimal text (`Display` and `{:0width}` of Rust integers), and the reading of it back. */
module Numerals {
  import opened Wrappers
  import opened Utf8
  import opened Json
  import Lexer

  function Digit(n: nat): (c: char)
    requires n < 10
  {
    '0' + n as char
  }

  /** `n` in decimal, without padding. */
  function Decimal(n: nat): (s: Bytes) {
    if n < 10 then [Digit(n)] else Decimal(n / 10) + [Digit(n % 10)]
  }

  /** The last `width` decimal digits of `n`. */
  function LastDigits(n: nat, width: nat): (s: Bytes)
    ensures |s| == width
  {
    if width == 0 then [] else LastDigits(n / 10, width - 1) + [Digit(n % 10)]
  }

  function Pow10(width: nat): (p: nat)
    ensures p >= 1
  {
    if width == 0 then 1 else 10 * Pow10(width - 1)
  }

  /** `n` in decimal, padded with zeros to at least `width` digits (`{:0width}`). */
  function Pad(n: nat, width: nat): (s: Bytes) {
    if n < Pow10(width) then LastDigits(n, width) else Decimal(n)
  }

  // ---------- Reading ----------

  /** The number that a run of digits writes. */
  function DigitsValue(s: Bytes): (n: nat)
    requires forall b | b in s :: Lexer.IsDigit(b)
  {
    if s == [] then 0
    else
      var last := s[|s| - 1];
      assert last in s && Lexer.IsDigit(last);
      DigitsValue(s[..|s| - 1]) * 10 + (last as int - '0' as int)
  }

  /** Digits alone, and the number they write. */
  predicate Writes(s: Bytes, n: nat) {
    s != [] && (forall b | b in s :: Lexer.IsDigit(b)) && DigitsValue(s) == n
  }

  /** `as_u64`: an integer number is written in digits alone, any other with a sign, point or exponent. */
  function AsIndex(n: Num): (i: Option<nat>) {
    if n.text != [] && forall b | b in n.text :: Lexer.IsDigit(b) then Some(DigitsValue(n.text)) else None
  }

  /** A number indexes an element exactly when digits alone write it. */
  lemma IndexesAreWritten(n: Num, i: nat)
    ensures AsIndex(n) == Some(i) <==> Writes(n.text, i)
  {
  }

  /** The JSON number of a position. */
  function PositionNumber(i: nat): (n: Num) { Num(Decimal(i), i as real, false) }

  lemma DigitAdds(s: Bytes, n: nat, d: nat)
    requires d < 10 && ((s == [] && n == 0) || Writes(s, n))
    ensures Writes(s + [Digit(d)], n * 10 + d)
  {
    var t := s + [Digit(d)];
    assert t[..|t| - 1] == s;
    assert Digit(d) as int == '0' as int + d;
  }

  lemma {:induction false} DecimalIsRead(n: nat)
    ensures Writes(Decimal(n), n)
  {
    if n < 10 {
      DigitAdds([], 0, n);
      assert [] + [Digit(n)] == [Digit(n)];
    } else {
      DecimalIsRead(n / 10);
      DigitAdds(Decimal(n / 10), n / 10, n % 10);
    }
  }

  lemma {:induction false} LastDigitsAreRead(n: nat, width: nat)
    requires n < Pow10(width) && width > 0
    ensures Writes(LastDigits(n, width), n)
    decreases width
  {
    if width == 1 {
      assert Pow10(1) == 10 && LastDigits(n / 10, 0) == [];
      DigitAdds([], 0, n);
    } else {
      LastDigitsAreRead(n / 10, width - 1);
      DigitAdds(LastDigits(n / 10, width - 1), n / 10, n % 10);
    }
  }

  /** Padded text is at least so wide, and is read back; a number that fits has exactly that width. */
  lemma PaddedIsRead(n: nat, width: nat)
    requires width > 0
    ensures Writes(Pad(n, width), n) && |Pad(n, width)| >= width && (n < Pow10(width) ==> |Pad(n, width)| == width)
  {
    if n < Pow10(width) {
      LastDigitsAreRead(n, width);
    } else {
      DecimalIsRead(n);
      DecimalIsLong(n, width);
    }
  }

  lemma {:induction false} DecimalIsLong(n: nat, width: nat)
    requires n >= Pow10(width)
    ensures |Decimal(n)| > width
    decreases width
  {
    if width > 0 {
      DecimalIsLong(n / 10, width - 1);
    }
  }

  /** A position is an index that reads as itself. */
  lemma PositionIsRead(i: nat)
    ensures AsIndex(PositionNumber(i)) == Some(i) && PositionNumber(i).value == i as real
  {
    DecimalIsRead(i);
  }
}
