/** The digits and letters in order. */
module Alphabets {

  const DIGITS: string := "0123456789"
  const UPPER: string := "ABCDEFGHIJKLMNOPQRSTUVWXYZ"
  const LOWER: string := "abcdefghijklmnopqrstuvwxyz"

  lemma {:induction false} DigitAt(i: nat)
    requires i < 10
    ensures |DIGITS| == 10 && DIGITS[i] == (48 + i) as char
  {
  }

  lemma {:induction false} UpperAt(i: nat)
    requires i < 26
    ensures |UPPER| == 26 && UPPER[i] == (65 + i) as char
  {
    if i < 9 {
    } else if i < 18 {
    } else {
    }
  }

  lemma {:induction false} LowerAt(i: nat)
    requires i < 26
    ensures |LOWER| == 26 && LOWER[i] == (97 + i) as char
  {
    if i < 9 {
    } else if i < 18 {
    } else {
    }
  }
}
