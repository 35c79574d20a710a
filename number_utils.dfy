/**
 * `rangeParser`: "6", "1,6" or "1-6" become the integer run they name.
 * The text is split at every ',' and '-', each piece is read with
 * `Number`, and only the first two readings are used. A falsy end
 * (missing, NaN or 0) makes the start the end and 1 the start; the run is
 * then built with `Array.from` of length `end - start + 1`, which reads
 * a NaN or negative length as 0 and throws a RangeError for a length above
 * 2^32 - 1, the largest array length.
 */
module NumberUtils {
  import opened Wrappers
  import opened Seqs
  import opened Decimal
  import opened JsValue

  /** The separator class `[,-]`. */
  function RangeSep(): char -> bool { c => c == ',' || c == '-' }

  /** The largest length an array can have, 2^32 - 1. */
  const MaxArrayLength: int := 0xFFFF_FFFF

  /**
   * `Array.from({ length: end - start + 1 }, (_, i) => i + start)`: the
   * integers from start to end, or `None` for the RangeError of a run longer
   * than an array can be.
   */
  function Interval(start: int, end: int): (r: Option<seq<int>>)
    ensures r.None? <==> end - start + 1 > MaxArrayLength
    ensures r.Some? ==> |r.value| == if start <= end then end - start + 1 else 0
    ensures r.Some? ==> forall i :: 0 <= i < |r.value| ==> r.value[i] == start + i
    ensures r.Some? ==> forall x :: x in r.value <==> start <= x <= end
  {
    if end - start + 1 > MaxArrayLength then None
    else
      var r := seq(if start <= end then end - start + 1 else 0, i => i + start);
      forall x | start <= x <= end ensures x in r {
        assert r[x - start] == x;
      }
      Some(r)
  }

  /**
   * `rangeParser(range)`; `None` readings stand for NaN (and for the missing
   * second piece), and a `None` result for the RangeError.
   */
  function RangeParser(range: string): (r: Option<seq<int>>)
    ensures r.Some? ==> forall i :: 0 < i < |r.value| ==> r.value[i] == r.value[i - 1] + 1
  {
    var parts := Split(range, RangeSep());
    var start := StringToNumber(parts[0]);
    var end := if |parts| >= 2 then StringToNumber(parts[1]) else None;
    if end.None? || end == Some(0) then
      (if start.Some? then Interval(1, start.value) else Some([]))
    else if start.Some? then Interval(start.value, end.value)
    else Some([])
  }

  /** Decimal text of a natural number contains no separator. */
  lemma DigitsHaveNoSep(n: nat)
    ensures forall c :: c in NatToString(n) ==> !RangeSep()(c)
    ensures Split(NatToString(n), RangeSep()) == [NatToString(n)]
    ensures StringToNumber(NatToString(n)) == Some(n)
  {
    var s := NatToString(n);
    forall c | c in s ensures !RangeSep()(c) {
      var i :| 0 <= i < |s| && s[i] == c;
      assert Chars.IsDigit(s[i]);
    }
    SplitNoSep(s, RangeSep());
    StringToNumberOfInt(n);
  }

  /** A single number N gives 1..N, or the RangeError above the largest array length; "0" gives the empty run. */
  lemma SingleNumber(n: nat)
    ensures RangeParser(NatToString(n)) == Interval(1, n)
    ensures n <= MaxArrayLength ==> RangeParser(NatToString(n)).Some? && |RangeParser(NatToString(n)).value| == n
    ensures n > MaxArrayLength ==> RangeParser(NatToString(n)).None?
    ensures RangeParser(NatToString(0)) == Some([])
  {
    DigitsHaveNoSep(n);
    DigitsHaveNoSep(0);
  }

  /** "A-B" and "A,B" give A..B; an end of 0 counts as absent, and an end below the start gives nothing. */
  lemma TwoNumbers(a: nat, b: nat, sep: char)
    requires RangeSep()(sep)
    ensures var r := RangeParser(NatToString(a) + [sep] + NatToString(b));
      r == (if b == 0 then Interval(1, a) else Interval(a, b))
    ensures b != 0 && a <= b && b - a + 1 <= MaxArrayLength ==>
      var r := RangeParser(NatToString(a) + [sep] + NatToString(b));
      r.Some? && |r.value| == b - a + 1
    ensures b != 0 && b - a + 1 > MaxArrayLength ==> RangeParser(NatToString(a) + [sep] + NatToString(b)).None?
    ensures b != 0 && b < a ==> RangeParser(NatToString(a) + [sep] + NatToString(b)) == Some([])
  {
    DigitsHaveNoSep(a);
    DigitsHaveNoSep(b);
    SplitAtSep(NatToString(a), sep, NatToString(b), RangeSep());
  }

  /** Only the first two pieces are read: "1-2-3" is "1-2". */
  lemma ExtraPiecesIgnored(a: string, c: char, b: string, d: char, rest: string)
    requires forall x :: x in a ==> !RangeSep()(x)
    requires forall x :: x in b ==> !RangeSep()(x)
    requires RangeSep()(c) && RangeSep()(d)
    ensures RangeParser(a + [c] + b + [d] + rest) == RangeParser(a + [c] + b)
  {
    SplitNoSep(a, RangeSep());
    SplitNoSep(b, RangeSep());
    SplitAtSep(a, c, b, RangeSep());
    SplitAtSep(a + [c] + b, d, rest, RangeSep());
  }

  /** A leading separator leaves an empty first piece, which `Number` reads as 0: "-5" gives 0..5. */
  lemma LeadingSeparator(b: nat, sep: char)
    requires RangeSep()(sep) && b != 0
    ensures RangeParser([sep] + NatToString(b)) == Interval(0, b)
  {
    DigitsHaveNoSep(b);
    SplitAtSep([], sep, NatToString(b), RangeSep());
    assert [] + [sep] + NatToString(b) == [sep] + NatToString(b);
    assert TrimWhite([]) == [];
  }

  /** Text that is not a number gives the empty run. */
  lemma NotANumber(s: string)
    requires forall x :: x in s ==> !RangeSep()(x)
    requires StringToNumber(s).None?
    ensures RangeParser(s) == Some([])
  {
    SplitNoSep(s, RangeSep());
  }
}
