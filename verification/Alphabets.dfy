/** The ASCII letters and digits, listed. */
module Alphabets {

  const UPPER: string := "ABCDEFGHIJKLMNOPQRSTUVWXYZ"
  const LOWER: string := "abcdefghijklmnopqrstuvwxyz"
  const DIGITS: string := "0123456789"

  lemma UpperAt(n: nat)
    requires n < 26
    ensures UPPER[n] == ('A' as int + n) as char
  {
  }

  lemma LowerAt(n: nat)
    requires n < 26
    ensures LOWER[n] == ('a' as int + n) as char
  {
  }

  lemma DigitAt(n: nat)
    requires n < 10
    ensures DIGITS[n] == ('0' as int + n) as char
  {
  }

  lemma UpperIsListed(c: char)
    ensures c in UPPER <==> 'A' <= c <= 'Z'
  {
    if 'A' <= c <= 'Z' {
      UpperAt(c as int - 'A' as int);
    }
    forall k | 0 <= k < |UPPER|
      ensures 'A' <= UPPER[k] <= 'Z'
    {
      UpperAt(k);
    }
  }

  lemma LowerIsListed(c: char)
    ensures c in LOWER <==> 'a' <= c <= 'z'
  {
    if 'a' <= c <= 'z' {
      LowerAt(c as int - 'a' as int);
    }
    forall k | 0 <= k < |LOWER|
      ensures 'a' <= LOWER[k] <= 'z'
    {
      LowerAt(k);
    }
  }

  lemma DigitIsListed(c: char)
    ensures c in DIGITS <==> '0' <= c <= '9'
  {
    if '0' <= c <= '9' {
      DigitAt(c as int - '0' as int);
    }
    forall k | 0 <= k < |DIGITS|
      ensures '0' <= DIGITS[k] <= '9'
    {
      DigitAt(k);
    }
  }
}
