/** Decimal text of integers, as `String(n)` prints them and `Number(s)` reads them back. */
module Decimal {
  import opened Chars

  function DigitChar(d: nat): (c: char)
    requires d < 10
    ensures IsDigit(c) && c as int - '0' as int == d
  {
    ('0' as int + d) as char
  }

  function DigitValue(c: char): (d: nat)
    requires IsDigit(c)
    ensures d < 10 && DigitChar(d) == c
  {
    c as int - '0' as int
  }

  predicate AllDigits(s: string) { forall i :: 0 <= i < |s| ==> IsDigit(s[i]) }

  /** Canonical decimal text: digits only, no leading zero unless it is "0". */
  predicate Canonical(s: string) {
    |s| >= 1 && AllDigits(s) && (s[0] == '0' ==> |s| == 1)
  }

  /** `String(n)` for a non-negative integer. */
  function NatToString(n: nat): (s: string)
    ensures Canonical(s)
    ensures n < 10 <==> |s| == 1
    decreases n
  {
    if n < 10 then [DigitChar(n)] else NatToString(n / 10) + [DigitChar(n % 10)]
  }

  /** `String(n)` for any integer. */
  function IntToString(n: int): (s: string)
    ensures n >= 0 ==> s == NatToString(n)
    ensures n < 0 ==> s == "-" + NatToString(-n)
  {
    if n >= 0 then NatToString(n) else "-" + NatToString(-n)
  }

  /** The value of a string of digits (empty reads as zero). */
  function ParseDigits(s: string): (n: nat)
    requires AllDigits(s)
    decreases |s|
  {
    if s == [] then 0
    else ParseDigits(s[..|s| - 1]) * 10 + DigitValue(s[|s| - 1])
  }

  /** Reading back what `NatToString` printed gives the number. */
  lemma {:induction false} ParseShow(n: nat)
    ensures ParseDigits(NatToString(n)) == n
    decreases n
  {
    if n >= 10 {
      ParseShow(n / 10);
      var s := NatToString(n);
      assert s[..|s| - 1] == NatToString(n / 10);
    }
  }

  /** A value below 10^k needs fewer than k+1 digits; a canonical string of k+1 digits is at least 10^k. */
  lemma {:induction false} ParseBound(s: string)
    requires Canonical(s) && |s| >= 2
    ensures ParseDigits(s) >= 10
    decreases |s|
  {
    var init := s[..|s| - 1];
    if |s| > 2 {
      ParseBound(init);
    } else {
      assert init == [s[0]];
      assert ParseDigits([s[0]]) == ParseDigits([]) * 10 + DigitValue(s[0]);
    }
  }

  /** Printing the value of a canonical string gives the string back. */
  lemma {:induction false} ShowParse(s: string)
    requires Canonical(s)
    ensures NatToString(ParseDigits(s)) == s
    decreases |s|
  {
    var init := s[..|s| - 1];
    if |s| == 1 {
      assert init == [];
    } else {
      assert Canonical(init);
      ShowParse(init);
      ParseBound(s);
      var n := ParseDigits(s);
      assert n / 10 == ParseDigits(init);
      assert s == init + [s[|s| - 1]];
    }
  }

  lemma NatToStringInjective(m: nat, n: nat)
    requires NatToString(m) == NatToString(n)
    ensures m == n
  {
    ParseShow(m);
    ParseShow(n);
  }
}
