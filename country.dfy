/**
 * `getFlagEmoji`: each UTF-16 code unit of the upper-cased country code is
 * shifted by 127397 (U+1F1E6 REGIONAL INDICATOR SYMBOL LETTER A minus 'A')
 * and the results are read back as code points.
 */
module Country {
  import opened Chars

  const RegionalOffset: int := 127397

  /** The UTF-16 code units of one character, as `split('')` and `charCodeAt` see them. */
  function CodeUnits(c: char): (u: seq<int>)
    ensures c as int < 0x10000 ==> u == [c as int]
    ensures 1 <= |u| <= 2 && forall i :: 0 <= i < |u| ==> 0 <= u[i] < 0x10000
  {
    if c as int < 0x10000 then [c as int]
    else
      var v := c as int - 0x10000;
      [0xD800 + v / 0x400, 0xDC00 + v % 0x400]
  }

  /** The code units of a whole string. */
  function Utf16(s: string): (u: seq<int>)
    ensures forall i :: 0 <= i < |u| ==> 0 <= u[i] < 0x10000
    ensures |u| >= |s|
  {
    if s == [] then [] else CodeUnits(s[0]) + Utf16(s[1..])
  }

  /** Every character of the string is in the Basic Multilingual Plane. */
  predicate Bmp(s: string) { forall i :: 0 <= i < |s| ==> s[i] as int < 0x10000 }

  /** The code point `127397 + unit`; it is never a surrogate and never beyond U+10FFFF. */
  function Shifted(unit: int): (c: char)
    requires 0 <= unit < 0x10000
    ensures c as int == RegionalOffset + unit
  {
    (RegionalOffset + unit) as char
  }

  /** `getFlagEmoji(countryCode)`. */
  function GetFlagEmoji(countryCode: string): (r: string)
    ensures |r| == |Utf16(UpperStr(countryCode))|
    ensures Bmp(countryCode) ==>
      |r| == |countryCode| &&
      (forall i :: 0 <= i < |r| ==> r[i] as int == RegionalOffset + Upper(countryCode[i]) as int)
  {
    var units := Utf16(UpperStr(countryCode));
    var r := seq(|units|, i requires 0 <= i < |units| => Shifted(units[i]));
    BmpUnits(UpperStr(countryCode));
    r
  }

  /** In the Basic Multilingual Plane every character is one code unit. */
  lemma {:induction false} BmpUnits(s: string)
    ensures Bmp(s) ==> Utf16(s) == seq(|s|, i requires 0 <= i < |s| => s[i] as int)
    decreases |s|
  {
    if s != [] && Bmp(s) {
      assert Bmp(s[1..]) by {
        forall i | 0 <= i < |s[1..]| ensures s[1..][i] as int < 0x10000 { assert s[1..][i] == s[i + 1]; }
      }
      BmpUnits(s[1..]);
    }
  }

  /** The letter a regional indicator stands for. */
  function IndicatorLetter(c: char): (l: char)
    requires 0x1F1E6 <= c as int <= 0x1F1FF
    ensures IsUpper(l)
  {
    (c as int - RegionalOffset) as char
  }

  /** The letters a flag spells, the inverse of `GetFlagEmoji` on letter codes. */
  function FlagLetters(flag: string): (code: string)
    requires forall i :: 0 <= i < |flag| ==> 0x1F1E6 <= flag[i] as int <= 0x1F1FF
    ensures |code| == |flag|
  {
    seq(|flag|, i requires 0 <= i < |flag| => IndicatorLetter(flag[i]))
  }

  /** The case of the code does not matter. */
  lemma CaseInsensitive(code: string)
    ensures GetFlagEmoji(LowerStr(code)) == GetFlagEmoji(code)
    ensures GetFlagEmoji(UpperStr(code)) == GetFlagEmoji(code)
  {
    assert UpperStr(LowerStr(code)) == UpperStr(code);
    assert UpperStr(UpperStr(code)) == UpperStr(code);
  }

  /** A code of letters becomes regional indicators, and reading them back gives the upper-case code. */
  lemma LettersRoundTrip(code: string)
    requires forall i :: 0 <= i < |code| ==> IsAlpha(code[i])
    ensures var flag := GetFlagEmoji(code);
      (forall i :: 0 <= i < |flag| ==> 0x1F1E6 <= flag[i] as int <= 0x1F1FF) &&
      FlagLetters(flag) == UpperStr(code)
  {
    assert Bmp(code);
  }

  /** The flags of the test suite: 'US' and 'GB'. */
  lemma FlagExamples()
    ensures GetFlagEmoji("US") == "\U{1F1FA}\U{1F1F8}"
    ensures GetFlagEmoji("GB") == "\U{1F1EC}\U{1F1E7}"
  {
    var us := GetFlagEmoji("US");
    assert us[0] as int == 0x1F1FA && us[1] as int == 0x1F1F8;
    var gb := GetFlagEmoji("GB");
    assert gb[0] as int == 0x1F1EC && gb[1] as int == 0x1F1E7;
  }
}
