/**
 * The dotted-quad IPv4 recogniser and `trimNewLines`.
 *
 * `isValidIPV4` tests `^octet(\.octet){3}$` with the `m` flag, so `^`
 * and `$` match at line boundaries and the test succeeds when some line
 * of the input is a dotted quad. The octet alternatives
 * `25[0-5] | 2[0-4]\d | 1\d\d | [1-9]\d | \d` are the `dec-octet` rule of
 * section 3.2.2 of RFC 3986.
 *
 * `trimNewLines` replaces `^\n+|\n+$` globally (without `m`), which removes
 * the leading run and the trailing run of '\n' characters.
 */
module RegexUtils {
  import opened Seqs
  import opened Chars
  import opened Decimal
  import opened StringUtils

  // ---------------------------------------------------------------------
  // dec-octet

  /** The `dec-octet` alternatives, one per line of the grammar. */
  predicate DecOctet(s: string) {
    (|s| == 1 && IsDigit(s[0])) ||
    (|s| == 2 && '1' <= s[0] <= '9' && IsDigit(s[1])) ||
    (|s| == 3 && s[0] == '1' && IsDigit(s[1]) && IsDigit(s[2])) ||
    (|s| == 3 && s[0] == '2' && '0' <= s[1] <= '4' && IsDigit(s[2])) ||
    (|s| == 3 && s[0] == '2' && s[1] == '5' && '0' <= s[2] <= '5')
  }

  /** A canonical numeral of two, three or four and more digits is at least 10, 100 or 1000. */
  lemma {:induction false} CanonicalAtLeast(s: string)
    requires Canonical(s)
    ensures |s| >= 2 ==> ParseDigits(s) >= 10
    ensures |s| >= 3 ==> ParseDigits(s) >= 100
    ensures |s| >= 4 ==> ParseDigits(s) >= 1000
    decreases |s|
  {
    if |s| >= 2 {
      var init := s[..|s| - 1];
      assert Canonical(init);
      CanonicalAtLeast(init);
      if |s| == 2 {
        assert init == [s[0]];
        assert ParseDigits([s[0]]) == ParseDigits([]) * 10 + DigitValue(s[0]);
      }
    }
  }

  /** The value of a three-digit numeral. */
  lemma ParseThree(s: string)
    requires |s| == 3 && AllDigits(s)
    ensures ParseDigits(s) == 100 * DigitValue(s[0]) + 10 * DigitValue(s[1]) + DigitValue(s[2])
  {
    assert s[..2][..1] == [s[0]];
    assert ParseDigits([s[0]]) == ParseDigits([]) * 10 + DigitValue(s[0]);
  }

  /** The value of a two-digit numeral. */
  lemma ParseTwo(s: string)
    requires |s| == 2 && AllDigits(s)
    ensures ParseDigits(s) == 10 * DigitValue(s[0]) + DigitValue(s[1])
  {
    assert s[..1] == [s[0]];
    assert ParseDigits([s[0]]) == ParseDigits([]) * 10 + DigitValue(s[0]);
  }

  /** A dec-octet is exactly the canonical decimal text of a number from 0 to 255. */
  lemma DecOctetIsByte(s: string)
    ensures DecOctet(s) <==> Canonical(s) && ParseDigits(s) <= 255
  {
    if DecOctet(s) {
      if |s| == 3 { ParseThree(s); }
      else if |s| == 2 { ParseTwo(s); }
      else { assert ParseDigits(s) == ParseDigits([]) * 10 + DigitValue(s[0]); }
    }
    if Canonical(s) && ParseDigits(s) <= 255 {
      CanonicalAtLeast(s);
      if |s| == 3 { ParseThree(s); }
      else if |s| == 2 { ParseTwo(s); }
    }
  }

  /** The decimal text of n is a dec-octet if and only if n is at most 255. */
  lemma OctetOfNumber(n: nat)
    ensures DecOctet(NatToString(n)) <==> n <= 255
  {
    DecOctetIsByte(NatToString(n));
    ParseShow(n);
  }

  // ---------------------------------------------------------------------
  // isValidIPV4

  function DotChar(): char -> bool { c => c == '.' }

  function LineEnd(): char -> bool { c => IsLineTerminator(c) }

  /** A line matching `octet(\.octet){3}`: four dot-separated dec-octets. */
  predicate IsDottedQuad(line: string) {
    var parts := Split(line, DotChar());
    |parts| == 4 && forall i :: 0 <= i < 4 ==> DecOctet(parts[i])
  }

  /** `isValidIPV4(ip)`: some line of the input is a dotted quad. */
  predicate IsValidIpv4(ip: string) {
    var lines := Split(ip, LineEnd());
    exists i :: 0 <= i < |lines| && IsDottedQuad(lines[i])
  }

  /** Without line terminators, the whole input must be the dotted quad. */
  lemma SingleLine(ip: string)
    requires forall c :: c in ip ==> !IsLineTerminator(c)
    ensures IsValidIpv4(ip) <==> IsDottedQuad(ip)
  {
    SplitNoSep(ip, LineEnd());
    assert Split(ip, LineEnd())[0] == ip;
  }

  /** Because of the `m` flag, an input is accepted when either side of a line break is. */
  lemma LineBreak(a: string, c: char, b: string)
    requires IsLineTerminator(c)
    ensures IsValidIpv4(a + [c] + b) <==> IsValidIpv4(a) || IsValidIpv4(b)
  {
    SplitAtSep(a, c, b, LineEnd());
    SomeQuadLine(Split(a, LineEnd()), Split(b, LineEnd()));
  }

  /** A line of `la + lb` is a dotted quad exactly when one of `la` or one of `lb` is. */
  lemma SomeQuadLine(la: seq<string>, lb: seq<string>)
    ensures (exists i :: 0 <= i < |la + lb| && IsDottedQuad((la + lb)[i])) <==>
      (exists i :: 0 <= i < |la| && IsDottedQuad(la[i])) || (exists i :: 0 <= i < |lb| && IsDottedQuad(lb[i]))
  {
    var l := la + lb;
    if exists i :: 0 <= i < |l| && IsDottedQuad(l[i]) {
      var i :| 0 <= i < |l| && IsDottedQuad(l[i]);
      if i < |la| { assert l[i] == la[i]; }
      else { assert l[i] == lb[i - |la|]; }
    }
    if exists i :: 0 <= i < |la| && IsDottedQuad(la[i]) {
      var i :| 0 <= i < |la| && IsDottedQuad(la[i]);
      assert l[i] == la[i];
    }
    if exists i :: 0 <= i < |lb| && IsDottedQuad(lb[i]) {
      var i :| 0 <= i < |lb| && IsDottedQuad(lb[i]);
      assert l[|la| + i] == lb[i];
    }
  }

  /** Decimal text has neither dots nor line terminators. */
  lemma DigitsPlain(n: nat)
    ensures Split(NatToString(n), DotChar()) == [NatToString(n)]
    ensures forall c :: c in NatToString(n) ==> !IsLineTerminator(c) && c != '.'
  {
    var s := NatToString(n);
    forall c | c in s ensures !IsLineTerminator(c) && c != '.' {
      var i :| 0 <= i < |s| && s[i] == c;
      assert IsDigit(s[i]);
    }
    SplitNoSep(s, DotChar());
  }

  /** The pieces of `p + "." + q` are those of p followed by those of q. */
  lemma SplitDot(p: string, q: string)
    ensures Split(p + "." + q, DotChar()) == Split(p, DotChar()) + Split(q, DotChar())
  {
    SplitAtSep(p, '.', q, DotChar());
  }

  /** The text "a.b.c.d" of four numbers. */
  function Quad(a: nat, b: nat, c: nat, d: nat): string {
    NatToString(a) + "." + NatToString(b) + "." + NatToString(c) + "." + NatToString(d)
  }

  /** Four numbers written with dots form a valid address exactly when each is at most 255. */
  lemma QuadOfNumbers(a: nat, b: nat, c: nat, d: nat)
    ensures IsValidIpv4(Quad(a, b, c, d)) <==> a <= 255 && b <= 255 && c <= 255 && d <= 255
  {
    QuadParts(a, b, c, d);
    QuadOneLine(a, b, c, d);
    SingleLine(Quad(a, b, c, d));
    OctetOfNumber(a); OctetOfNumber(b); OctetOfNumber(c); OctetOfNumber(d);
    var parts := Split(Quad(a, b, c, d), DotChar());
    assert parts[0] == NatToString(a) && parts[1] == NatToString(b);
    assert parts[2] == NatToString(c) && parts[3] == NatToString(d);
  }

  /** The dot-separated pieces of "a.b.c.d" are the four numerals. */
  lemma QuadParts(a: nat, b: nat, c: nat, d: nat)
    ensures Split(Quad(a, b, c, d), DotChar()) == [NatToString(a), NatToString(b), NatToString(c), NatToString(d)]
  {
    DigitsPlain(a); DigitsPlain(b); DigitsPlain(c); DigitsPlain(d);
    var sa, sb, sc, sd := NatToString(a), NatToString(b), NatToString(c), NatToString(d);
    SplitDot(sa + "." + sb + "." + sc, sd);
    SplitDot(sa + "." + sb, sc);
    SplitDot(sa, sb);
  }

  /** "a.b.c.d" holds no line terminator. */
  lemma QuadOneLine(a: nat, b: nat, c: nat, d: nat)
    ensures forall x :: x in Quad(a, b, c, d) ==> !IsLineTerminator(x)
  {
    DigitsPlain(a); DigitsPlain(b); DigitsPlain(c); DigitsPlain(d);
    var sa, sb, sc, sd := NatToString(a), NatToString(b), NatToString(c), NatToString(d);
    forall x | x in Quad(a, b, c, d) ensures !IsLineTerminator(x) {
      assert x in sa + "." + sb + "." + sc + "." + sd;
    }
  }

  /** Three numbers with dots are rejected, however small: "192.168.0". */
  lemma ThreeOctetsRejected(a: nat, b: nat, c: nat)
    ensures !IsValidIpv4(NatToString(a) + "." + NatToString(b) + "." + NatToString(c))
  {
    var sa, sb, sc := NatToString(a), NatToString(b), NatToString(c);
    var p := sa + "." + sb;
    var t := p + "." + sc;
    DigitsPlain(a); DigitsPlain(b); DigitsPlain(c);
    SplitDot(p, sc);
    SplitDot(sa, sb);
    assert |Split(t, DotChar())| == 3;
    forall x | x in p ensures !IsLineTerminator(x) {
      assert x in sa || x == '.' || x in sb;
    }
    forall x | x in t ensures !IsLineTerminator(x) {
      assert x in p || x == '.' || x in sc;
    }
    SingleLine(t);
  }

  /** Five numbers with dots are rejected: "192.168.0.1.2". */
  lemma FiveOctetsRejected(a: nat, b: nat, c: nat, d: nat, e: nat)
    ensures !IsValidIpv4(Quad(a, b, c, d) + "." + NatToString(e))
  {
    var q, se := Quad(a, b, c, d), NatToString(e);
    var t := q + "." + se;
    QuadParts(a, b, c, d);
    DigitsPlain(e);
    SplitDot(q, se);
    assert |Split(t, DotChar())| == 5;
    QuadOneLine(a, b, c, d);
    forall x | x in t ensures !IsLineTerminator(x) {
      assert x in q || x == '.' || x in se;
    }
    SingleLine(t);
  }

  /** The addresses of the test suite: "192.168.0.1" is valid, "256.256.256.256" is not. */
  lemma Ipv4Examples()
    ensures IsValidIpv4("192.168.0.1")
    ensures !IsValidIpv4("256.256.256.256")
  {
    LocalAddressText();
    QuadOfNumbers(192, 168, 0, 1);
    OutOfRangeText();
    QuadOfNumbers(256, 256, 256, 256);
  }

  lemma LocalAddressText()
    ensures Quad(192, 168, 0, 1) == "192.168.0.1"
  {
    assert NatToString(192) == "192" && NatToString(168) == "168";
    assert NatToString(0) == "0" && NatToString(1) == "1";
  }

  lemma OutOfRangeText()
    ensures Quad(256, 256, 256, 256) == "256.256.256.256"
  {
    assert NatToString(256) == "256";
  }

  // ---------------------------------------------------------------------
  // trimNewLines

  function NewlineChar(): char -> bool { c => c == '\n' }

  /** How many '\n' characters open the string. */
  function LeadingNewlines(s: string): (n: nat)
    ensures n <= |s|
  {
    |s| - |DropWhile(NewlineChar(), s)|
  }

  /**
   * `trimNewLines(s)`: the slice of `s` left after its leading and trailing
   * runs of '\n'; it does not start or end with '\n'.
   */
  function TrimNewLines(s: string): (r: string)
    ensures LeadingNewlines(s) + |r| <= |s|
    ensures r == s[LeadingNewlines(s)..LeadingNewlines(s) + |r|]
    ensures forall i :: 0 <= i < LeadingNewlines(s) ==> s[i] == '\n'
    ensures forall i :: LeadingNewlines(s) + |r| <= i < |s| ==> s[i] == '\n'
    ensures r == [] || (r[0] != '\n' && r[|r| - 1] != '\n')
  {
    var d := DropWhile(NewlineChar(), s);
    var r := TrimEnd(d, NewlineChar());
    var n := |s| - |d|;
    assert d == s[n..];
    assert r == d[..|r|] == s[n..n + |r|];
    forall i | n + |r| <= i < |s| ensures s[i] == '\n' {
      assert s[i] == d[i - n];
      assert NewlineChar()(d[i - n]);
    }
    r
  }

  /** A string that neither starts nor ends with '\n' is left as it is. */
  lemma {:induction false} TrimNewLinesUnchanged(m: string)
    requires m == [] || (m[0] != '\n' && m[|m| - 1] != '\n')
    ensures TrimNewLines(m) == m
  {
    assert DropWhile(NewlineChar(), m) == m;
    assert TrimEnd(m, NewlineChar()) == m;
  }

  /** Trimming twice is trimming once. */
  lemma TrimNewLinesIdempotent(s: string)
    ensures TrimNewLines(TrimNewLines(s)) == TrimNewLines(s)
  {
    TrimNewLinesUnchanged(TrimNewLines(s));
  }

  /** Dropping a leading run of newlines from `a + m`. */
  lemma {:induction false} DropNewlines(a: string, m: string)
    requires forall i :: 0 <= i < |a| ==> a[i] == '\n'
    requires m == [] || m[0] != '\n'
    ensures DropWhile(NewlineChar(), a + m) == m
    decreases |a|
  {
    if a == [] {
      assert a + m == m;
      assert DropWhile(NewlineChar(), m) == m;
    } else {
      assert (a + m)[1..] == a[1..] + m;
      DropNewlines(a[1..], m);
    }
  }

  /** Trimming a trailing run of newlines from `m + b`. */
  lemma {:induction false} TrimNewlinesEnd(m: string, b: string)
    requires forall i :: 0 <= i < |b| ==> b[i] == '\n'
    requires m == [] || m[|m| - 1] != '\n'
    ensures TrimEnd(m + b, NewlineChar()) == m
    decreases |b|
  {
    if b == [] {
      assert m + b == m;
      assert TrimEnd(m, NewlineChar()) == m;
    } else {
      assert (m + b)[..|m + b| - 1] == m + b[..|b| - 1];
      TrimNewlinesEnd(m, b[..|b| - 1]);
    }
  }

  /** Exactly the leading and trailing newline runs go; everything between them, newlines included, stays. */
  lemma TrimNewLinesRuns(a: string, m: string, b: string)
    requires forall i :: 0 <= i < |a| ==> a[i] == '\n'
    requires forall i :: 0 <= i < |b| ==> b[i] == '\n'
    requires m == [] || (m[0] != '\n' && m[|m| - 1] != '\n')
    ensures TrimNewLines(a + m + b) == m
  {
    if m == [] {
      assert a + m + b == a + b;
      var ab := a + b;
      assert forall i :: 0 <= i < |ab| ==> ab[i] == '\n' by {
        forall i | 0 <= i < |ab| ensures ab[i] == '\n' {
          if i < |a| { assert ab[i] == a[i]; } else { assert ab[i] == b[i - |a|]; }
        }
      }
      DropNewlines(ab, []);
      assert ab + [] == ab;
      assert TrimEnd([], NewlineChar()) == [];
    } else {
      assert a + m + b == a + (m + b);
      DropNewlines(a, m + b);
      TrimNewlinesEnd(m, b);
    }
  }
}
