/** The characters that the programs tell apart by ranges of codes, written out. */
module Ascii {

  const DIGITS := "0123456789"

  const CAPITALS := "ABCDEFGHIJKLMNOPQRSTUVWXYZ"

  const SMALLS := "abcdefghijklmnopqrstuvwxyz"

  lemma DigitCode(i: nat)
    requires i < 10
    ensures DIGITS[i] as int == 48 + i
  {
  }

  lemma CapitalCode(i: nat)
    requires i < 26
    ensures CAPITALS[i] as int == 65 + i
  {
  }

  lemma SmallCode(i: nat)
    requires i < 26
    ensures SMALLS[i] as int == 97 + i
  {
  }

  lemma DigitsListed(c: char)
    ensures c in DIGITS <==> 48 <= c as int <= 57
  {
    if 48 <= c as int <= 57 {
      DigitCode(c as int - 48);
      assert DIGITS[c as int - 48] == c;
    }
    if c in DIGITS {
      var i :| 0 <= i < 10 && DIGITS[i] == c;
      DigitCode(i);
    }
  }

  lemma CapitalsListed(c: char)
    ensures c in CAPITALS <==> 65 <= c as int <= 90
  {
    if 65 <= c as int <= 90 {
      CapitalCode(c as int - 65);
      assert CAPITALS[c as int - 65] == c;
    }
    if c in CAPITALS {
      var i :| 0 <= i < 26 && CAPITALS[i] == c;
      CapitalCode(i);
    }
  }

  lemma SmallsListed(c: char)
    ensures c in SMALLS <==> 97 <= c as int <= 122
  {
    if 97 <= c as int <= 122 {
      SmallCode(c as int - 97);
      assert SMALLS[c as int - 97] == c;
    }
    if c in SMALLS {
      var i :| 0 <= i < 26 && SMALLS[i] == c;
      SmallCode(i);
    }
  }
}
