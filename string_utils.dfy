/**
 * The string helpers: case conversions, HTML escaping, zero-width
 * character removal, prefix and suffix tests, the UUID shape test and
 * slugs. Each regular expression of the library is written out as the
 * scan it performs; case mapping is ASCII case mapping.
 */
module StringUtils {
  import opened Seqs
  import opened Chars
  import opened Wrappers

  // ---------------------------------------------------------------------
  // escapeHtml
  // ---------------------------------------------------------------------

  /** `s.replaceAll(c, rep)` for a one-character pattern. */
  function ReplaceAll(s: string, c: char, rep: string): string
    decreases |s|
  {
    if s == [] then []
    else (if s[0] == c then rep else [s[0]]) + ReplaceAll(s[1..], c, rep)
  }

  lemma {:induction false} ReplaceAllConcat(a: string, b: string, c: char, rep: string)
    ensures ReplaceAll(a + b, c, rep) == ReplaceAll(a, c, rep) + ReplaceAll(b, c, rep)
    decreases |a|
  {
    if a == [] {
      assert a + b == b;
    } else {
      assert (a + b)[0] == a[0] && (a + b)[1..] == a[1..] + b;
      ReplaceAllConcat(a[1..], b, c, rep);
    }
  }

  /** The five replacements in the order the library applies them, `&` first. */
  function EscapeHtml(unsafe: string): string {
    var s1 := ReplaceAll(unsafe, '&', "&amp;");
    var s2 := ReplaceAll(s1, '<', "&lt;");
    var s3 := ReplaceAll(s2, '>', "&gt;");
    var s4 := ReplaceAll(s3, '"', "&quot;");
    ReplaceAll(s4, '\'', "&#039;")
  }

  /** The entity of one character, the character itself when it needs none. */
  function EscapeChar(c: char): string {
    if c == '&' then "&amp;"
    else if c == '<' then "&lt;"
    else if c == '>' then "&gt;"
    else if c == '"' then "&quot;"
    else if c == '\'' then "&#039;"
    else [c]
  }

  /** Escaping character by character. */
  function EscapeEach(s: string): string
    decreases |s|
  {
    if s == [] then [] else EscapeChar(s[0]) + EscapeEach(s[1..])
  }

  lemma EscapeHtmlConcat(a: string, b: string)
    ensures EscapeHtml(a + b) == EscapeHtml(a) + EscapeHtml(b)
  {
    ReplaceAllConcat(a, b, '&', "&amp;");
    var a1, b1 := ReplaceAll(a, '&', "&amp;"), ReplaceAll(b, '&', "&amp;");
    ReplaceAllConcat(a1, b1, '<', "&lt;");
    var a2, b2 := ReplaceAll(a1, '<', "&lt;"), ReplaceAll(b1, '<', "&lt;");
    ReplaceAllConcat(a2, b2, '>', "&gt;");
    var a3, b3 := ReplaceAll(a2, '>', "&gt;"), ReplaceAll(b2, '>', "&gt;");
    ReplaceAllConcat(a3, b3, '"', "&quot;");
    var a4, b4 := ReplaceAll(a3, '"', "&quot;"), ReplaceAll(b3, '"', "&quot;");
    ReplaceAllConcat(a4, b4, '\'', "&#039;");
  }

  /** Replacing a character that does not occur changes nothing. */
  lemma {:induction false} ReplaceAllAbsent(s: string, c: char, rep: string)
    requires c !in s
    ensures ReplaceAll(s, c, rep) == s
    decreases |s|
  {
    if s != [] {
      assert s[0] != c && c !in s[1..];
      ReplaceAllAbsent(s[1..], c, rep);
      assert s == [s[0]] + s[1..];
    }
  }

  lemma ReplaceAllSingle(x: char, c: char, rep: string)
    ensures ReplaceAll([x], c, rep) == if x == c then rep else [x]
  {
    assert [x][1..] == [];
  }

  /** No entity introduced by an earlier replacement is touched by a later one. */
  lemma EscapeHtmlChar(c: char)
    ensures EscapeHtml([c]) == EscapeChar(c)
  {
    if c == '&' {
      EscapeHtmlAmp(c);
    } else if c == '<' {
      EscapeHtmlLt(c);
    } else if c == '>' {
      EscapeHtmlGt(c);
    } else {
      EscapeHtmlQuotes(c);
    }
  }

  lemma EscapeHtmlAmp(c: char)
    requires c == '&'
    ensures EscapeHtml([c]) == EscapeChar(c)
  {
    ReplaceAllSingle(c, '&', "&amp;");
    AbsentChain(ReplaceAll([c], '&', "&amp;"));
  }

  lemma EscapeHtmlLt(c: char)
    requires c == '<'
    ensures EscapeHtml([c]) == EscapeChar(c)
  {
    ReplaceAllSingle(c, '&', "&amp;");
    ReplaceAllSingle(c, '<', "&lt;");
    AbsentChain3(ReplaceAll([c], '<', "&lt;"));
  }

  lemma EscapeHtmlGt(c: char)
    requires c == '>'
    ensures EscapeHtml([c]) == EscapeChar(c)
  {
    ReplaceAllSingle(c, '&', "&amp;");
    ReplaceAllSingle(c, '<', "&lt;");
    ReplaceAllSingle(c, '>', "&gt;");
    var s3 := ReplaceAll([c], '>', "&gt;");
    assert s3 == "&gt;";
    ReplaceAllAbsent(s3, '"', "&quot;");
    ReplaceAllAbsent(s3, '\'', "&#039;");
  }

  lemma EscapeHtmlQuotes(c: char)
    requires c != '&' && c != '<' && c != '>'
    ensures EscapeHtml([c]) == EscapeChar(c)
  {
    ReplaceAllSingle(c, '&', "&amp;");
    ReplaceAllSingle(c, '<', "&lt;");
    ReplaceAllSingle(c, '>', "&gt;");
    ReplaceAllSingle(c, '"', "&quot;");
    if c == '"' {
      ReplaceAllAbsent("&quot;", '\'', "&#039;");
    } else {
      ReplaceAllSingle(c, '\'', "&#039;");
    }
  }

  /** An `&amp;` goes through the last four replacements untouched. */
  lemma AbsentChain(s1: string)
    requires s1 == "&amp;"
    ensures ReplaceAll(ReplaceAll(ReplaceAll(ReplaceAll(s1, '<', "&lt;"), '>', "&gt;"), '"', "&quot;"), '\'', "&#039;") == s1
  {
    ReplaceAllAbsent(s1, '<', "&lt;");
    ReplaceAllAbsent(s1, '>', "&gt;");
    ReplaceAllAbsent(s1, '"', "&quot;");
    ReplaceAllAbsent(s1, '\'', "&#039;");
  }

  /** An `&lt;` goes through the last three replacements untouched. */
  lemma AbsentChain3(s2: string)
    requires s2 == "&lt;"
    ensures ReplaceAll(ReplaceAll(ReplaceAll(s2, '>', "&gt;"), '"', "&quot;"), '\'', "&#039;") == s2
  {
    ReplaceAllAbsent(s2, '>', "&gt;");
    ReplaceAllAbsent(s2, '"', "&quot;");
    ReplaceAllAbsent(s2, '\'', "&#039;");
  }

  /** The chain of replacements is the character-by-character mapping. */
  lemma {:induction false} EscapeHtmlIsPerChar(s: string)
    ensures EscapeHtml(s) == EscapeEach(s)
    decreases |s|
  {
    if s == [] {
    } else {
      assert s == [s[0]] + s[1..];
      EscapeHtmlConcat([s[0]], s[1..]);
      EscapeHtmlChar(s[0]);
      EscapeHtmlIsPerChar(s[1..]);
    }
  }

  lemma {:induction false} EscapeEachConcat(a: string, b: string)
    ensures EscapeEach(a + b) == EscapeEach(a) + EscapeEach(b)
    decreases |a|
  {
    if a == [] {
      assert a + b == b;
    } else {
      assert (a + b)[0] == a[0] && (a + b)[1..] == a[1..] + b;
      EscapeEachConcat(a[1..], b);
    }
  }

  /** The escaped text holds no `<`, `>`, `"` or `'`. */
  lemma {:induction false} EscapeEachClean(s: string)
    ensures forall i :: 0 <= i < |EscapeEach(s)| ==>
      EscapeEach(s)[i] !in {'<', '>', '"', '\''}
    decreases |s|
  {
    if s != [] {
      EscapeEachClean(s[1..]);
      var e := EscapeChar(s[0]);
      assert forall i :: 0 <= i < |e| ==> e[i] !in {'<', '>', '"', '\''};
    }
  }

  /** Decoding of the five entities, the inverse of escaping. */
  function Unescape(s: string): string
    decreases |s|
  {
    if s == [] then []
    else if "&amp;" <= s then "&" + Unescape(s[5..])
    else if "&lt;" <= s then "<" + Unescape(s[4..])
    else if "&gt;" <= s then ">" + Unescape(s[4..])
    else if "&quot;" <= s then "\"" + Unescape(s[6..])
    else if "&#039;" <= s then "'" + Unescape(s[6..])
    else [s[0]] + Unescape(s[1..])
  }

  lemma UnescapeChar(c: char, rest: string)
    ensures Unescape(EscapeChar(c) + rest) == [c] + Unescape(rest)
  {
    var e := EscapeChar(c);
    var s := e + rest;
    assert s[..|e|] == e && s[|e|..] == rest;
    assert s[0] == e[0];
    if c == '&' {
    } else if c == '<' || c == '>' {
      assert s[1] == e[1];
    } else if c == '"' || c == '\'' {
      assert s[1] == e[1];
    } else {
      assert s == [c] + rest;
      assert !("&amp;" <= s) && !("&lt;" <= s) && !("&gt;" <= s) && !("&quot;" <= s) && !("&#039;" <= s);
    }
  }

  /** Decoding the escaped text gives back the original. */
  lemma {:induction false} UnescapeEscape(s: string)
    ensures Unescape(EscapeHtml(s)) == s
    decreases |s|
  {
    EscapeHtmlIsPerChar(s);
    if s != [] {
      UnescapeChar(s[0], EscapeEach(s[1..]));
      UnescapeEscape(s[1..]);
      EscapeHtmlIsPerChar(s[1..]);
    }
  }

  /** The library's own example, tag by tag. */
  lemma EscapeHtmlExample(open: string, text: string, close: string)
    requires open == "<div>" && text == "Hello World" && close == "</div>"
    ensures EscapeHtml(open + text + close) == "&lt;div&gt;" + text + "&lt;/div&gt;"
  {
    EscapeHtmlIsPerChar(open + text + close);
    EscapeEachConcat(open + text, close);
    EscapeEachConcat(open, text);
    EscapeTagText(open, "div", "&lt;div&gt;");
    EscapeTagText(close, "/div", "&lt;/div&gt;");
    EscapePlainText(text);
  }

  lemma EscapeTagText(tag: string, name: string, escaped: string)
    requires name == "div" || name == "/div"
    requires tag == "<" + name + ">" && escaped == "&lt;" + name + "&gt;"
    ensures EscapeEach(tag) == escaped
  {
    EscapeEachTag(name);
  }

  lemma EscapePlainText(text: string)
    requires text == "Hello World"
    ensures EscapeEach(text) == text
  {
    EscapeEachPlain(text);
  }

  /** Text without special characters is its own escape. */
  lemma {:induction false} EscapeEachPlain(s: string)
    requires forall i :: 0 <= i < |s| ==> s[i] !in {'&', '<', '>', '"', '\''}
    ensures EscapeEach(s) == s
    decreases |s|
  {
    if s != [] {
      EscapeEachPlain(s[1..]);
      assert s == [s[0]] + s[1..];
    }
  }

  /** A tag `<name>` escapes to `&lt;name&gt;`. */
  lemma EscapeEachTag(name: string)
    requires forall i :: 0 <= i < |name| ==> name[i] !in {'&', '<', '>', '"', '\''}
    ensures EscapeEach("<" + name + ">") == "&lt;" + name + "&gt;"
  {
    EscapeEachPlain(name);
    EscapeEachWrap('<', name, '>');
    assert "<" + name + ">" == ['<'] + name + ['>'];
    EscapeAngles();
  }

  lemma EscapeAngles()
    ensures EscapeChar('<') == "&lt;" && EscapeChar('>') == "&gt;"
  {
  }

  /** Escaping `[a] + s + [b]` escapes the two ends and the middle apart. */
  lemma EscapeEachWrap(a: char, s: string, b: char)
    ensures EscapeEach([a] + s + [b]) == EscapeChar(a) + EscapeEach(s) + EscapeChar(b)
  {
    EscapeEachConcat([a] + s, [b]);
    EscapeEachConcat([a], s);
    EscapeEachSingle(a);
    EscapeEachSingle(b);
  }

  lemma EscapeEachSingle(c: char)
    ensures EscapeEach([c]) == EscapeChar(c)
  {
    assert [c][1..] == [];
  }

  // ---------------------------------------------------------------------
  // removeZeroWidthSpace
  // ---------------------------------------------------------------------

  /** `[\u200B-\u200D\uFEFF]`: zero-width space, non-joiner, joiner and the byte-order mark. */
  predicate IsZeroWidth(c: char) {
    ('\U{200B}' <= c <= '\U{200D}') || c == '\U{FEFF}'
  }

  function NotZeroWidth(): char -> bool { c => !IsZeroWidth(c) }

  /** Deletes exactly the zero-width characters and keeps every other character, in order. */
  function RemoveZeroWidthSpace(str: string): (r: string)
    ensures forall i :: 0 <= i < |r| ==> !IsZeroWidth(r[i])
    ensures forall c :: !IsZeroWidth(c) ==> multiset(r)[c] == multiset(str)[c]
    ensures Subseq(r, str)
  {
    FilterMembers(NotZeroWidth(), str);
    FilterMultiset(NotZeroWidth(), str);
    FilterSubseq(NotZeroWidth(), str);
    var r := Filter(NotZeroWidth(), str);
    assert forall i :: 0 <= i < |r| ==> r[i] in r;
    r
  }

  /** Text without zero-width characters is unchanged, so removal is idempotent. */
  lemma RemoveZeroWidthSpaceIdempotent(str: string)
    ensures RemoveZeroWidthSpace(RemoveZeroWidthSpace(str)) == RemoveZeroWidthSpace(str)
    ensures (forall i :: 0 <= i < |str| ==> !IsZeroWidth(str[i])) ==> RemoveZeroWidthSpace(str) == str
  {
    var r := RemoveZeroWidthSpace(str);
    FilterAll(NotZeroWidth(), r);
    if forall i :: 0 <= i < |str| ==> !IsZeroWidth(str[i]) {
      FilterAll(NotZeroWidth(), str);
    }
  }

  // ---------------------------------------------------------------------
  // startsWithAny / endsWithAny
  // ---------------------------------------------------------------------

  /** `data.endsWith(e)`. */
  predicate IsSuffix(e: string, data: string) {
    |e| <= |data| && data[|data| - |e|..] == e
  }

  /** `items.some(e => data.startsWith(e))`. */
  predicate StartsWithAny(data: string, items: seq<string>)
    ensures StartsWithAny(data, items) <==> exists i :: 0 <= i < |items| && items[i] <= data
    decreases |items|
  {
    if items == [] then false
    else items[0] <= data || StartsWithAny(data, items[1..])
  }

  /** `items.some(e => data.endsWith(e))`. */
  predicate EndsWithAny(data: string, items: seq<string>)
    ensures EndsWithAny(data, items) <==> exists i :: 0 <= i < |items| && IsSuffix(items[i], data)
    decreases |items|
  {
    if items == [] then false
    else IsSuffix(items[0], data) || EndsWithAny(data, items[1..])
  }

  /** Both tests are false for an empty list, and true as soon as the empty string is listed. */
  lemma AnyEdgeCases(data: string, items: seq<string>)
    ensures !StartsWithAny(data, []) && !EndsWithAny(data, [])
    ensures "" in items ==> StartsWithAny(data, items) && EndsWithAny(data, items)
  {
    if "" in items {
      var i :| 0 <= i < |items| && items[i] == "";
      assert IsSuffix(items[i], data);
    }
  }

  /** The library's own examples: the tests are case-sensitive. */
  lemma AnyExamples(data: string)
    requires data == "Hello World"
    ensures StartsWithAny(data, ["Hello", "Hel"])
    ensures !StartsWithAny(data, ["hello", "rld"])
    ensures EndsWithAny(data, ["World", "Hel"])
    ensures !EndsWithAny(data, ["hello", "drf"])
  {
    assert "Hello" == data[..5];
    assert "World" == data[6..];
    assert data[0] == 'H' && data[1] == 'e' && data[9] == 'l';
  }

  // ---------------------------------------------------------------------
  // isValidUUID
  // ---------------------------------------------------------------------

  predicate HexRun(s: string) { forall i :: 0 <= i < |s| ==> IsHexDigit(s[i]) }

  /**
   * The anchored pattern: five runs of 8, 4, 4, 4 and 12 hex digits joined by
   * `-`. The `\b` before each `-` always holds between a digit and a dash.
   */
  predicate IsValidUuid(id: string) {
    |id| == 36 &&
    HexRun(id[..8]) && id[8] == '-' &&
    HexRun(id[9..13]) && id[13] == '-' &&
    HexRun(id[14..18]) && id[18] == '-' &&
    HexRun(id[19..23]) && id[23] == '-' &&
    HexRun(id[24..])
  }

  /** The positions of the dashes in the textual form of section 3 of RFC 4122. */
  predicate DashPosition(i: int) { i == 8 || i == 13 || i == 18 || i == 23 }

  /** The pattern is the positional shape: 36 characters, dashes at 8, 13, 18 and 23, hex digits elsewhere. */
  lemma UuidPositions(id: string)
    ensures IsValidUuid(id) <==>
      |id| == 36 && forall i :: 0 <= i < 36 ==> if DashPosition(i) then id[i] == '-' else IsHexDigit(id[i])
  {
    if |id| == 36 {
      if IsValidUuid(id) {
        forall i | 0 <= i < 36 && !DashPosition(i) ensures IsHexDigit(id[i]) {
          if i < 8 { assert id[i] == id[..8][i]; }
          else if i < 13 { assert id[i] == id[9..13][i - 9]; }
          else if i < 18 { assert id[i] == id[14..18][i - 14]; }
          else if i < 23 { assert id[i] == id[19..23][i - 19]; }
          else { assert id[i] == id[24..][i - 24]; }
        }
      }
      if forall i :: 0 <= i < 36 ==> if DashPosition(i) then id[i] == '-' else IsHexDigit(id[i]) {
        assert forall i :: 0 <= i < 8 ==> id[..8][i] == id[i];
        assert forall i :: 0 <= i < 4 ==> id[9..13][i] == id[i + 9];
        assert forall i :: 0 <= i < 4 ==> id[14..18][i] == id[i + 14];
        assert forall i :: 0 <= i < 4 ==> id[19..23][i] == id[i + 19];
        assert forall i :: 0 <= i < 12 ==> id[24..][i] == id[i + 24];
      }
    }
  }

  /** Five hex runs of the right lengths joined by dashes form a valid UUID, and every valid UUID is such a join. */
  lemma UuidGroups(a: string, b: string, c: string, d: string, e: string)
    requires |a| == 8 && |b| == 4 && |c| == 4 && |d| == 4 && |e| == 12
    ensures IsValidUuid(a + "-" + b + "-" + c + "-" + d + "-" + e) <==>
      HexRun(a) && HexRun(b) && HexRun(c) && HexRun(d) && HexRun(e)
  {
    var id := a + "-" + b + "-" + c + "-" + d + "-" + e;
    assert id[..8] == a && id[9..13] == b && id[14..18] == c && id[19..23] == d && id[24..] == e;
  }

  lemma UuidSplits(id: string)
    requires IsValidUuid(id)
    ensures id == id[..8] + "-" + id[9..13] + "-" + id[14..18] + "-" + id[19..23] + "-" + id[24..]
  {
  }

  /** The library's own examples: one hex digit short is rejected. */
  lemma UuidExamples(a: string, b: string, e: string)
    requires a == "12345678" && b == "1234" && e == "123456789abc"
    ensures IsValidUuid(a + "-" + b + "-" + b + "-" + b + "-" + e)
    ensures !IsValidUuid(a + "-" + b + "-" + b + "-" + b + "-" + e[..11])
  {
    assert HexRun(a) && HexRun(b) && HexRun(e);
    UuidGroups(a, b, b, b, e);
  }

  // ---------------------------------------------------------------------
  // pascalCase
  // ---------------------------------------------------------------------

  function IsChar(sep: char): char -> bool { c => c == sep }

  function NotChar(sep: char): char -> bool { c => c != sep }

  /** `word.replace(/^\w/, c => c.toUpperCase())`. */
  function UpFirst(w: string): (r: string)
    ensures |r| == |w|
  {
    if w != [] && IsWordChar(w[0]) then [Upper(w[0])] + w[1..] else w
  }

  function ConcatAll(pieces: seq<string>): string
    decreases |pieces|
  {
    if pieces == [] then [] else pieces[0] + ConcatAll(pieces[1..])
  }

  /** Each piece with its first word character upper-cased, joined with nothing between. */
  function CapitaliseAll(pieces: seq<string>): string
    decreases |pieces|
  {
    if pieces == [] then [] else UpFirst(pieces[0]) + CapitaliseAll(pieces[1..])
  }

  /** `str.split(separator).map(upper-case first).join('')`, for a one-character separator. */
  function PascalCase(str: string, separator: char): string {
    CapitaliseAll(Split(str, IsChar(separator)))
  }

  /** The default separator is a space. */
  function PascalCaseDefault(str: string): string {
    PascalCase(str, ' ')
  }

  lemma LowerStrConcat(a: string, b: string)
    ensures LowerStr(a + b) == LowerStr(a) + LowerStr(b)
  {
  }

  lemma {:induction false} CapitaliseAllLower(pieces: seq<string>)
    ensures LowerStr(CapitaliseAll(pieces)) == LowerStr(ConcatAll(pieces))
    decreases |pieces|
  {
    if pieces != [] {
      CapitaliseAllLower(pieces[1..]);
      var w := pieces[0];
      LowerStrConcat(UpFirst(w), CapitaliseAll(pieces[1..]));
      LowerStrConcat(w, ConcatAll(pieces[1..]));
      if w != [] && IsWordChar(w[0]) {
        LowerUpper(w[0]);
        assert LowerStr(UpFirst(w)) == LowerStr(w);
      }
    }
  }

  /** Joining the pieces of a split with nothing between them deletes the separators. */
  lemma {:induction false} ConcatSplit(s: string, sep: char)
    ensures ConcatAll(Split(s, IsChar(sep))) == Filter(NotChar(sep), s)
    decreases |s|
  {
    if s != [] {
      ConcatSplit(s[1..], sep);
      var rest := Split(s[1..], IsChar(sep));
      if s[0] == sep {
        assert ([[]] + rest)[1..] == rest;
      } else {
        var r := [[s[0]] + rest[0]] + rest[1..];
        assert r[1..] == rest[1..];
        assert ConcatAll(rest) == rest[0] + ConcatAll(rest[1..]);
      }
    }
  }

  /** Up to case, the result is the input with every separator deleted. */
  lemma PascalCaseLetters(str: string, separator: char)
    ensures LowerStr(PascalCase(str, separator)) == LowerStr(Filter(NotChar(separator), str))
    ensures |PascalCase(str, separator)| == |Filter(NotChar(separator), str)|
  {
    CapitaliseAllLower(Split(str, IsChar(separator)));
    ConcatSplit(str, separator);
  }

  /** A separator ends a word: the next word starts upper-cased, independently of what came before. */
  lemma PascalCaseWords(w: string, separator: char, rest: string)
    requires separator !in w
    ensures PascalCase(w + [separator] + rest, separator) == UpFirst(w) + PascalCase(rest, separator)
  {
    SplitAtSep(w, separator, rest, IsChar(separator));
    SplitNoSep(w, IsChar(separator));
    assert Split(w + [separator] + rest, IsChar(separator)) == [w] + Split(rest, IsChar(separator));
    assert ([w] + Split(rest, IsChar(separator)))[1..] == Split(rest, IsChar(separator));
  }

  /** A word without separators only has its first character upper-cased. */
  lemma PascalCaseWord(w: string, separator: char)
    requires separator !in w
    ensures PascalCase(w, separator) == UpFirst(w)
  {
    SplitNoSep(w, IsChar(separator));
    assert CapitaliseAll([w]) == UpFirst(w) + CapitaliseAll([w][1..]);
    assert [w][1..] == [];
  }

  /** The library's own examples: "hello world", "hello World" and "hello-world" with separator "-" all give "HelloWorld". */
  lemma PascalCaseExamples(hello: string, world: string, sep: char)
    requires hello == "hello" && (world == "world" || world == "World") && (sep == ' ' || sep == '-')
    ensures PascalCase(hello + [sep] + world, sep) == "HelloWorld"
  {
    PascalHello(hello, sep, world);
    PascalWorld(world, sep);
    HelloWorldUp(hello, world);
  }

  lemma PascalHello(hello: string, sep: char, rest: string)
    requires hello == "hello" && (sep == ' ' || sep == '-')
    ensures PascalCase(hello + [sep] + rest, sep) == UpFirst(hello) + PascalCase(rest, sep)
  {
    PascalCaseWords(hello, sep, rest);
  }

  lemma PascalWorld(world: string, sep: char)
    requires (world == "world" || world == "World") && (sep == ' ' || sep == '-')
    ensures PascalCase(world, sep) == UpFirst(world)
  {
    PascalCaseWord(world, sep);
  }

  lemma HelloWorldUp(hello: string, world: string)
    requires hello == "hello" && (world == "world" || world == "World")
    ensures UpFirst(hello) + UpFirst(world) == "HelloWorld"
  {
    assert UpFirst(hello) == "Hello";
    assert UpFirst(world) == "World";
  }

  // ---------------------------------------------------------------------
  // Runs of characters
  // ---------------------------------------------------------------------

  /** What is left after a leading run of characters satisfying `p`. */
  function DropWhile(p: char -> bool, s: string): (r: string)
    ensures |r| <= |s| && r == s[|s| - |r|..]
    ensures r == [] || !p(r[0])
    ensures s != [] && p(s[0]) ==> |r| < |s|
    ensures forall i :: 0 <= i < |s| - |r| ==> p(s[i])
    decreases |s|
  {
    if s != [] && p(s[0]) then
      var r := DropWhile(p, s[1..]);
      assert s[1..][|s| - 1 - |r|..] == s[|s| - |r|..];
      assert forall i :: 1 <= i < |s| - |r| ==> s[i] == s[1..][i - 1];
      r
    else s
  }

  /** Filtering out a leading run that the filter rejects anyway changes nothing. */
  lemma {:induction false} FilterDropWhile(q: char -> bool, p: char -> bool, s: string)
    requires forall x :: p(x) ==> !q(x)
    ensures Filter(q, DropWhile(p, s)) == Filter(q, s)
    decreases |s|
  {
    if s != [] && p(s[0]) {
      FilterDropWhile(q, p, s[1..]);
    }
  }

  // ---------------------------------------------------------------------
  // camelCase
  // ---------------------------------------------------------------------

  /** Lower-casing, then `/[^a-zA-Z0-9 ]/g` to a space. */
  function CamelPrep(c: char): (r: char)
    ensures IsLower(r) || IsDigit(r) || r == ' '
    ensures r != ' ' <==> IsAlnum(Lower(c))
  {
    var l := Lower(c);
    if IsAlnum(l) then l else ' '
  }

  function Prepared(s: string): (r: string)
    ensures |r| == |s| && forall i :: 0 <= i < |s| ==> r[i] == CamelPrep(s[i])
  {
    seq(|s|, i requires 0 <= i < |s| => CamelPrep(s[i]))
  }

  function SpaceChar(): char -> bool { c => IsRegExpSpace(c) }

  function NotSpaceChar(): char -> bool { c => !IsRegExpSpace(c) }

  function AlnumChar(): char -> bool { c => IsAlnum(c) }

  function Prepend(w: string, o: Option<string>): Option<string> {
    match o
    case None => None
    case Some(r) => Some(w + r)
  }

  /**
   * `.replace(/\s+(\w)?/g, (m, l) => l.toUpperCase())`: every run of white
   * space is deleted together with the word character after it, which is
   * put back upper-cased; a run with no word character after it leaves
   * `l` undefined and the call throws (`None`).
   */
  function Capitalise(t: string): Option<string>
    decreases |t|
  {
    if t == [] then Some([])
    else if IsRegExpSpace(t[0]) then
      var u := DropWhile(SpaceChar(), t);
      if u == [] || !IsWordChar(u[0]) then None
      else Prepend([Upper(u[0])], Capitalise(u[1..]))
    else Prepend([t[0]], Capitalise(t[1..]))
  }

  /** `camelCase(str)`; `None` when it throws. */
  function CamelCase(str: string): Option<string> {
    Capitalise(Prepared(str))
  }

  /** Only lower-case letters, digits and spaces. */
  predicate Clean(t: string) {
    forall i :: 0 <= i < |t| ==> IsLower(t[i]) || IsDigit(t[i]) || t[i] == ' '
  }

  lemma {:induction false} CapitaliseFails(t: string)
    requires Clean(t)
    ensures Capitalise(t).None? <==> t != [] && t[|t| - 1] == ' '
    decreases |t|
  {
    if t != [] {
      if IsRegExpSpace(t[0]) {
        var u := DropWhile(SpaceChar(), t);
        if u != [] {
          assert u[0] == t[|t| - |u|];
          assert Clean(u[1..]) by {
            forall i | 0 <= i < |u[1..]| ensures IsLower(u[1..][i]) || IsDigit(u[1..][i]) || u[1..][i] == ' ' {
              assert u[1..][i] == t[|t| - |u| + 1 + i];
            }
          }
          CapitaliseFails(u[1..]);
          assert u[|u| - 1] == t[|t| - 1];
          if |u| > 1 {
            assert u[1..][|u[1..]| - 1] == u[|u| - 1];
          }
        } else {
          assert !IsRegExpSpace(t[|t| - 1]) ==> false by {
            assert |t| - 1 < |t| - |u|;
          }
        }
      } else {
        assert Clean(t[1..]) by {
          forall i | 0 <= i < |t[1..]| ensures IsLower(t[1..][i]) || IsDigit(t[1..][i]) || t[1..][i] == ' ' {
            assert t[1..][i] == t[1 + i];
          }
        }
        CapitaliseFails(t[1..]);
        if |t| > 1 {
          assert t[1..][|t[1..]| - 1] == t[|t| - 1];
        }
      }
    }
  }

  /** `camelCase` throws exactly when the input ends in a character that is not an ASCII letter or digit. */
  lemma CamelCaseFails(str: string)
    ensures CamelCase(str).None? <==> str != [] && !IsAlnum(Lower(str[|str| - 1]))
  {
    CapitaliseFails(Prepared(str));
  }

  lemma {:induction false} CapitaliseLetters(t: string, r: string)
    requires Clean(t) && Capitalise(t) == Some(r)
    ensures LowerStr(r) == Filter(NotSpaceChar(), t)
    decreases |t|
  {
    if t != [] {
      if IsRegExpSpace(t[0]) {
        var u := DropWhile(SpaceChar(), t);
        CleanSuffix(t, |t| - |u| + 1);
        assert t[|t| - |u| + 1..] == u[1..];
        var r' := Capitalise(u[1..]).value;
        CapitaliseLetters(u[1..], r');
        CapitaliseLettersAfterSpace(t, u, r, r');
      } else {
        CleanSuffix(t, 1);
        var r' := Capitalise(t[1..]).value;
        CapitaliseLetters(t[1..], r');
        LowerStrConcat([t[0]], r');
      }
    }
  }

  lemma CleanSuffix(t: string, i: nat)
    requires Clean(t) && i <= |t|
    ensures Clean(t[i..])
  {
    forall j | 0 <= j < |t[i..]| ensures IsLower(t[i..][j]) || IsDigit(t[i..][j]) || t[i..][j] == ' ' {
      assert t[i..][j] == t[i + j];
    }
  }

  /** The step of `CapitaliseLetters` for a space run: the run is dropped and the letter after it keeps its lower-case form. */
  lemma CapitaliseLettersAfterSpace(t: string, u: string, r: string, r': string)
    requires Clean(t) && t != [] && IsRegExpSpace(t[0])
    requires u == DropWhile(SpaceChar(), t) && u != [] && IsWordChar(u[0])
    requires r == [Upper(u[0])] + r' && LowerStr(r') == Filter(NotSpaceChar(), u[1..])
    ensures LowerStr(r) == Filter(NotSpaceChar(), t)
  {
    var c := u[0];
    assert c == t[|t| - |u|];
    LowerStrConcat([Upper(c)], r');
    LowerOfUpper(c);
    DropSpacesKeepsLetters(t);
    FilterHead(NotSpaceChar(), u);
  }

  /** A lower-case letter or a digit comes back from `Upper` by `Lower`. */
  lemma LowerOfUpper(c: char)
    requires IsLower(c) || IsDigit(c)
    ensures LowerStr([Upper(c)]) == [c]
  {
    LowerUpper(c);
  }

  lemma DropSpacesKeepsLetters(t: string)
    ensures Filter(NotSpaceChar(), DropWhile(SpaceChar(), t)) == Filter(NotSpaceChar(), t)
  {
    FilterDropWhile(NotSpaceChar(), SpaceChar(), t);
  }

  lemma {:induction false} PreparedLetters(s: string)
    ensures Filter(NotSpaceChar(), Prepared(s)) == Filter(AlnumChar(), LowerStr(s))
    decreases |s|
  {
    if s != [] {
      PreparedLetters(s[1..]);
      assert Prepared(s)[1..] == Prepared(s[1..]);
      assert LowerStr(s)[1..] == LowerStr(s[1..]);
    }
  }

  /** When it succeeds, `camelCase` keeps exactly the ASCII letters and digits of the input, in order, changing only their case. */
  lemma CamelCaseLetters(str: string, r: string)
    requires CamelCase(str) == Some(r)
    ensures LowerStr(r) == Filter(AlnumChar(), LowerStr(str))
  {
    CapitaliseLetters(Prepared(str), r);
    PreparedLetters(str);
  }

  lemma PrependPrepend(a: string, b: string, o: Option<string>)
    ensures Prepend(a, Prepend(b, o)) == Prepend(a + b, o)
  {
    match o
    case None =>
    case Some(r) => assert a + (b + r) == a + b + r;
  }

  /** A character that is not white space is kept as it is. */
  lemma CapitaliseNonSpace(t: string)
    requires t != [] && !IsRegExpSpace(t[0])
    ensures Capitalise(t) == Prepend([t[0]], Capitalise(t[1..]))
  {
  }

  /** Characters that are not white space are kept. */
  lemma {:induction false} CapitaliseWord(w: string, rest: string)
    requires forall i :: 0 <= i < |w| ==> !IsRegExpSpace(w[i])
    ensures Capitalise(w + rest) == Prepend(w, Capitalise(rest))
    decreases |w|
  {
    if w == [] {
      assert w + rest == rest;
      match Capitalise(rest)
      case None =>
      case Some(r) => assert w + r == r;
    } else {
      var t := w + rest;
      assert t[0] == w[0] && t[1..] == w[1..] + rest;
      CapitaliseNonSpace(t);
      CapitaliseWord(w[1..], rest);
      PrependPrepend([w[0]], w[1..], Capitalise(rest));
      assert [w[0]] + w[1..] == w;
    }
  }

  /** A space run before a word upper-cases its first letter. */
  lemma CapitaliseAfterSpace(w: string, rest: string)
    requires w != [] && IsWordChar(w[0])
    ensures Capitalise([' '] + w + rest) == Prepend([Upper(w[0])], Capitalise(w[1..] + rest))
  {
    var t := [' '] + w + rest;
    var v := w + rest;
    DropOneSpace(w, rest);
    assert t[0] == ' ' && v[0] == w[0];
    assert v[1..] == w[1..] + rest;
  }

  /** One space before a word character is all that `DropWhile` takes away. */
  lemma DropOneSpace(w: string, rest: string)
    requires w != [] && IsWordChar(w[0])
    ensures DropWhile(SpaceChar(), [' '] + w + rest) == w + rest
  {
    var t := [' '] + w + rest;
    var v := w + rest;
    assert t[0] == ' ' && t[1..] == v;
    assert v[0] == w[0] && !IsRegExpSpace(v[0]);
    assert DropWhile(SpaceChar(), v) == v;
  }

  lemma PreparedConcat(a: string, b: string)
    ensures Prepared(a + b) == Prepared(a) + Prepared(b)
  {
  }

  /** Lower-case letters and digits are prepared as themselves. */
  lemma PreparedLowerWord(w: string)
    requires forall i :: 0 <= i < |w| ==> IsLower(w[i]) || IsDigit(w[i])
    ensures Prepared(w) == w
  {
  }

  /** Preparing the example inputs gives the same text. */
  lemma PreparedExample(hello: string, sep: char, world: string)
    requires hello == "hello" && (sep == ' ' || sep == '-') && (world == "world" || world == "World")
    ensures Prepared(hello + [sep] + world) == hello + ([' '] + "world")
  {
    PreparedConcat(hello + [sep], world);
    PreparedConcat(hello, [sep]);
    PreparedLowerWord(hello);
    assert Prepared(world) == "world";
    assert Prepared([sep]) == [' '];
  }

  lemma CapitaliseWorld(lower: string, tail: string)
    requires lower == "world" && tail == "orld"
    ensures Capitalise([' '] + lower) == Some("World")
  {
    WorldLetters(lower, tail);
    CapitaliseSpaceWord(lower);
  }

  /** A space before a word with no white space in it: the word comes back with its first letter upper-cased. */
  lemma CapitaliseSpaceWord(w: string)
    requires w != [] && IsWordChar(w[0])
    requires forall i :: 0 <= i < |w| ==> !IsRegExpSpace(w[i])
    ensures Capitalise([' '] + w) == Some([Upper(w[0])] + w[1..])
  {
    var none: string := [];
    var tail := w[1..];
    ConcatEmpty([' '] + w);
    ConcatEmpty(tail);
    CapitaliseAfterSpace(w, none);
    assert forall i :: 0 <= i < |tail| ==> !IsRegExpSpace(tail[i]) by {
      forall i | 0 <= i < |tail| ensures !IsRegExpSpace(tail[i]) {
        assert tail[i] == w[i + 1];
      }
    }
    CapitaliseWord(tail, none);
    assert Capitalise(none) == Some(none);
  }

  lemma WorldLetters(lower: string, tail: string)
    requires lower == "world" && tail == "orld"
    ensures lower != [] && IsWordChar(lower[0]) && Upper(lower[0]) == 'W'
    ensures lower[1..] == tail && ['W'] + tail == "World"
  {
  }

  lemma CapitaliseExample(hello: string, lower: string)
    requires hello == "hello" && lower == "world"
    ensures Capitalise(hello + ([' '] + lower)) == Some("helloWorld")
  {
    CapitaliseHello(hello, [' '] + lower);
    CapitaliseWorld(lower, "orld");
    HelloWorldJoin(hello, "World");
  }

  lemma CapitaliseHello(hello: string, rest: string)
    requires hello == "hello"
    ensures Capitalise(hello + rest) == Prepend(hello, Capitalise(rest))
  {
    CapitaliseWord(hello, rest);
  }

  lemma HelloWorldJoin(hello: string, world: string)
    requires hello == "hello" && world == "World"
    ensures Prepend(hello, Some(world)) == Some("helloWorld")
  {
    assert hello + world == "helloWorld";
  }

  /** The library's own examples: "hello world", "hello World" and "hello-world" all give "helloWorld". */
  lemma CamelCaseExamples(hello: string, sep: char, world: string)
    requires hello == "hello" && (sep == ' ' || sep == '-') && (world == "world" || world == "World")
    ensures CamelCase(hello + [sep] + world) == Some("helloWorld")
  {
    PreparedExample(hello, sep, world);
    CapitaliseExample(hello, "world");
  }

  // ---------------------------------------------------------------------
  // kebabCase
  // ---------------------------------------------------------------------

  /** A lower-case letter directly followed by an upper-case one at position `i`. */
  predicate Boundary(s: string, i: int) {
    0 <= i && i + 1 < |s| && IsLower(s[i]) && IsUpper(s[i + 1])
  }

  /** `.replace(/([a-z])([A-Z])/g, '$1-$2')`: the left-to-right scan for non-overlapping matches. */
  function Hyphenate(s: string): string
    decreases |s|
  {
    if s == [] then []
    else if |s| >= 2 && IsLower(s[0]) && IsUpper(s[1]) then [s[0], '-', s[1]] + Hyphenate(s[2..])
    else [s[0]] + Hyphenate(s[1..])
  }

  /** Reference definition: every character, followed by `-` exactly where a boundary starts. */
  function Spread(s: string, i: nat): string
    requires i <= |s|
    decreases |s| - i
  {
    if i == |s| then []
    else [s[i]] + (if Boundary(s, i) then "-" else "") + Spread(s, i + 1)
  }

  /** Matches cannot overlap, since a match ends in an upper-case letter and a match starts with a lower-case one. */
  lemma {:induction false} HyphenateSpread(s: string, i: nat)
    requires i <= |s|
    ensures Hyphenate(s[i..]) == Spread(s, i)
    decreases |s| - i
  {
    if i < |s| {
      var t := s[i..];
      assert t[0] == s[i];
      if Boundary(s, i) {
        assert t[1] == s[i + 1] && t[2..] == s[i + 2..];
        HyphenateSpread(s, i + 2);
        assert !Boundary(s, i + 1);
        assert Spread(s, i + 1) == [s[i + 1]] + Spread(s, i + 2);
      } else {
        assert t[1..] == s[i + 1..];
        HyphenateSpread(s, i + 1);
      }
    }
  }

  /** `.replace(/[\s_]/g, '-')` followed by `.toLowerCase()`, for one character. */
  function KebabChar(c: char): (r: char)
    ensures !IsRegExpSpace(r) && r != '_' && !IsUpper(r)
  {
    LowerKeepsClasses(c);
    if IsRegExpSpace(c) || c == '_' then '-' else Lower(c)
  }

  function KebabMap(t: string): (r: string)
    ensures |r| == |t| && forall i :: 0 <= i < |t| ==> r[i] == KebabChar(t[i])
  {
    seq(|t|, i requires 0 <= i < |t| => KebabChar(t[i]))
  }

  /** `kebabCase(str)`: no white space, no underscore and no upper-case letter is left. */
  function KebabCase(str: string): (r: string)
    ensures forall i :: 0 <= i < |r| ==> !IsRegExpSpace(r[i]) && r[i] != '_' && !IsUpper(r[i])
  {
    KebabMap(Hyphenate(str))
  }

  /** Each character is mapped, and a `-` goes between every lower-case letter and a following upper-case one. */
  lemma KebabCaseSpread(str: string)
    ensures KebabCase(str) == KebabMap(Spread(str, 0))
  {
    HyphenateSpread(str, 0);
    assert str[0..] == str;
  }

  /** Without case boundaries, every character maps on its own and the length is kept. */
  lemma {:induction false} SpreadNoBoundary(s: string, i: nat)
    requires i <= |s| && forall j :: 0 <= j < |s| ==> !Boundary(s, j)
    ensures Spread(s, i) == s[i..]
    decreases |s| - i
  {
    if i < |s| {
      SpreadNoBoundary(s, i + 1);
      assert s[i..] == [s[i]] + s[i + 1..];
    }
  }

  lemma KebabCaseNoBoundary(str: string)
    requires forall j :: 0 <= j < |str| ==> !Boundary(str, j)
    ensures KebabCase(str) == KebabMap(str)
  {
    KebabCaseSpread(str);
    SpreadNoBoundary(str, 0);
    assert str[0..] == str;
  }

  /** The library's own example, "hello world", and a camel-cased word. */
  lemma KebabCaseExamples(s: string, t: string)
    requires s == "hello world" && t == "helloWorld"
    ensures KebabCase(s) == "hello-world"
    ensures KebabCase(t) == "hello-world"
  {
    HelloWorldText(s, t);
    KebabTwoWords("hello", "world");
    HyphenateCamel("hell", 'o', 'W', "orld");
  }

  lemma HelloWorldText(s: string, t: string)
    requires s == "hello world" && t == "helloWorld"
    ensures s == "hello" + " " + "world" && t == "hell" + ['o', 'W'] + "orld"
    ensures "hello" + "-" + "world" == "hello-world" && "hell" + ['o', '-', Lower('W')] + "orld" == "hello-world"
    ensures forall j :: 0 <= j < |"hello"| ==> IsLower("hello"[j])
    ensures forall j :: 0 <= j < |"world"| ==> IsLower("world"[j])
    ensures forall j :: 0 <= j < |"hell"| ==> IsLower("hell"[j])
    ensures forall j :: 0 <= j < |"orld"| ==> IsLower("orld"[j])
  {
  }

  /** Two lower-case words separated by a space are joined by a hyphen. */
  lemma KebabTwoWords(a: string, b: string)
    requires forall j :: 0 <= j < |a| ==> IsLower(a[j])
    requires forall j :: 0 <= j < |b| ==> IsLower(b[j])
    ensures KebabCase(a + " " + b) == a + "-" + b
  {
    JoinedNoUpper(a, b);
    KebabCaseNoUpper(a + " " + b);
    KebabMapJoined(a, b);
  }

  lemma JoinedNoUpper(a: string, b: string)
    requires forall j :: 0 <= j < |a| ==> IsLower(a[j])
    requires forall j :: 0 <= j < |b| ==> IsLower(b[j])
    ensures forall j :: 0 <= j < |a + " " + b| ==> !IsUpper((a + " " + b)[j])
  {
    var s := a + " " + b;
    forall j | 0 <= j < |s| ensures !IsUpper(s[j]) {
      if j < |a| { assert s[j] == a[j]; } else if j > |a| { assert s[j] == b[j - |a| - 1]; }
    }
  }

  /** Without upper-case letters there is no boundary, so only the characters are mapped. */
  lemma KebabCaseNoUpper(s: string)
    requires forall j :: 0 <= j < |s| ==> !IsUpper(s[j])
    ensures KebabCase(s) == KebabMap(s)
  {
    KebabCaseNoBoundary(s);
  }

  lemma KebabMapJoined(a: string, b: string)
    requires forall j :: 0 <= j < |a| ==> IsLower(a[j])
    requires forall j :: 0 <= j < |b| ==> IsLower(b[j])
    ensures KebabMap(a + " " + b) == a + "-" + b
  {
    var s := a + " " + b;
    var r := a + "-" + b;
    forall j | 0 <= j < |s| ensures KebabChar(s[j]) == r[j] {
      if j < |a| {
        assert s[j] == a[j] && r[j] == a[j];
      } else if j > |a| {
        assert s[j] == b[j - |a| - 1] && r[j] == b[j - |a| - 1];
      }
    }
  }

  lemma HyphenateCamel(a: string, x: char, y: char, b: string)
    requires IsLower(x) && IsUpper(y)
    requires forall j :: 0 <= j < |a| ==> IsLower(a[j])
    requires forall j :: 0 <= j < |b| ==> IsLower(b[j])
    ensures KebabCase(a + [x, y] + b) == a + [x, '-', Lower(y)] + b
  {
    var s := a + [x, y] + b;
    KebabCaseSpread(s);
    var w := a + [x, '-', y] + b;
    SpreadCamel(s, 0, a, x, y, b);
    assert a[0..] == a;
    ConcatAssoc(a, [x, '-', y], b);
    assert KebabMap(w) == a + [x, '-', Lower(y)] + b;
  }

  lemma {:induction false} SpreadCamel(s: string, i: nat, a: string, x: char, y: char, b: string)
    requires s == a + [x, y] + b && i <= |s|
    requires IsLower(x) && IsUpper(y)
    requires forall j :: 0 <= j < |a| ==> IsLower(a[j])
    requires forall j :: 0 <= j < |b| ==> IsLower(b[j])
    ensures i <= |a| ==> Spread(s, i) == a[i..] + ([x, '-', y] + b)
    ensures |a| + 2 <= i ==> Spread(s, i) == s[i..]
    decreases |s| - i
  {
    if i < |s| {
      SpreadCamel(s, i + 1, a, x, y, b);
      if i < |a| {
        assert s[i] == a[i];
        SpreadPlainStep(s, i);
        assert a[i..][1..] == a[i + 1..];
        ConsConcat(a[i..], [x, '-', y] + b);
      } else if i == |a| {
        assert s[i] == x && s[i + 1] == y;
        SpreadPlainStep(s, i + 1);
        SpreadCamel(s, i + 2, a, x, y, b);
        assert s[i + 2..] == b;
        assert a[i..] == [];
      } else if i >= |a| + 2 {
        assert s[i] == b[i - |a| - 2];
        SpreadPlainStep(s, i);
        assert s[i..] == [s[i]] + s[i + 1..];
      }
    }
  }

  /** Away from a boundary, `Spread` copies one character. */
  lemma SpreadPlainStep(s: string, i: nat)
    requires i < |s| && !Boundary(s, i)
    ensures Spread(s, i) == [s[i]] + Spread(s, i + 1)
  {
  }

  // ---------------------------------------------------------------------
  // slugify
  // ---------------------------------------------------------------------

  function HyphenChar(): char -> bool { c => c == '-' }

  function SlugChar(): char -> bool { c => IsWordChar(c) || c == '-' }

  function WordChar(): char -> bool { c => IsWordChar(c) }

  /** Every maximal run of characters satisfying `p` replaced by the single character `c`. */
  function Collapse(s: string, p: char -> bool, c: char): string
    decreases |s|
  {
    if s == [] then []
    else if p(s[0]) then [c] + Collapse(DropWhile(p, s), p, c)
    else [s[0]] + Collapse(s[1..], p, c)
  }

  /** What is left after a trailing run of characters satisfying `p`. */
  function TrimEnd(s: string, p: char -> bool): (r: string)
    ensures |r| <= |s| && r == s[..|r|]
    ensures r == [] || !p(r[|r| - 1])
    ensures forall i :: |r| <= i < |s| ==> p(s[i])
    decreases |s|
  {
    if s != [] && p(s[|s| - 1]) then TrimEnd(s[..|s| - 1], p) else s
  }

  /** `slugify(text)`, stage by stage. */
  function Slugify(text: string): string {
    SlugOfLowered(LowerStr(text))
  }

  /** The stages of `slugify` after lower-casing. */
  function SlugOfLowered(lowered: string): string {
    var dashed := Collapse(lowered, SpaceChar(), '-');     // /\s+/g -> '-'
    var kept := Filter(SlugChar(), dashed);                // /[^\w-]+/g -> ''
    HyphenStages(kept)
  }

  /** The three hyphen stages of `slugify`. */
  function HyphenStages(kept: string): string {
    var single := Collapse(kept, HyphenChar(), '-');       // /--+/g -> '-'
    var front := DropWhile(HyphenChar(), single);          // /^-+/ -> ''
    TrimEnd(front, HyphenChar())                           // /-+$/ -> ''
  }

  /** No two hyphens in a row. */
  predicate NoDoubleHyphen(s: string) {
    forall i, j :: 0 <= i < |s| && 0 <= j < |s| && j == i + 1 ==> !(s[i] == '-' && s[j] == '-')
  }

  lemma {:induction false} CollapseChars(s: string, p: char -> bool, c: char)
    ensures forall x :: x in Collapse(s, p, c) ==> x == c || (x in s && !p(x))
    decreases |s|
  {
    if s != [] {
      if p(s[0]) {
        var u := DropWhile(p, s);
        CollapseChars(u, p, c);
        assert forall x :: x in u ==> x in s;
      } else {
        CollapseChars(s[1..], p, c);
      }
    }
  }

  lemma {:induction false} CollapseFilter(q: char -> bool, s: string, p: char -> bool, c: char)
    requires forall x :: p(x) ==> !q(x)
    requires !q(c)
    ensures Filter(q, Collapse(s, p, c)) == Filter(q, s)
    decreases |s|
  {
    if s != [] {
      if p(s[0]) {
        var u := DropWhile(p, s);
        CollapseFilter(q, u, p, c);
        FilterDropWhile(q, p, s);
        var r := Collapse(u, p, c);
        assert ([c] + r)[0] == c && ([c] + r)[1..] == r;
      } else {
        CollapseFilter(q, s[1..], p, c);
        var r := Collapse(s[1..], p, c);
        assert ([s[0]] + r)[0] == s[0] && ([s[0]] + r)[1..] == r;
      }
    }
  }

  lemma {:induction false} CollapseNoDouble(s: string)
    ensures NoDoubleHyphen(Collapse(s, HyphenChar(), '-'))
    ensures s != [] ==> Collapse(s, HyphenChar(), '-') != [] &&
                        Collapse(s, HyphenChar(), '-')[0] == (if s[0] == '-' then '-' else s[0])
    decreases |s|
  {
    if s != [] {
      if s[0] == '-' {
        var u := DropWhile(HyphenChar(), s);
        CollapseNoDouble(u);
      } else {
        CollapseNoDouble(s[1..]);
      }
    }
  }

  lemma FilterNone(q: char -> bool, t: string)
    requires forall i :: 0 <= i < |t| ==> !q(t[i])
    ensures Filter(q, t) == []
    decreases |t|
  {
    if t != [] {
      FilterNone(q, t[1..]);
    }
  }

  /** A slug holds only lower-case word characters and hyphens. */
  lemma SlugifyChars(text: string)
    ensures var r := Slugify(text);
      forall i :: 0 <= i < |r| ==> (IsWordChar(r[i]) || r[i] == '-') && !IsUpper(r[i])
  {
    var lowered := LowerStr(text);
    var dashed := Collapse(lowered, SpaceChar(), '-');
    var kept := Filter(SlugChar(), dashed);
    var single := Collapse(kept, HyphenChar(), '-');
    var front := DropWhile(HyphenChar(), single);
    var r := TrimEnd(front, HyphenChar());
    forall x | x in lowered ensures !IsUpper(x) {
      var i :| 0 <= i < |lowered| && lowered[i] == x;
    }
    CollapseChars(lowered, SpaceChar(), '-');
    assert forall x :: x in dashed ==> !IsUpper(x);
    FilterMembers(SlugChar(), dashed);
    assert forall x :: x in kept ==> SlugSafe(x);
    CollapseChars(kept, HyphenChar(), '-');
    assert forall x :: x in single ==> SlugSafe(x);
    forall i | 0 <= i < |r| ensures (IsWordChar(r[i]) || r[i] == '-') && !IsUpper(r[i]) {
      assert r[i] == single[|single| - |front| + i];
      assert SlugSafe(single[|single| - |front| + i]);
    }
  }

  predicate SlugSafe(x: char) { (IsWordChar(x) || x == '-') && !IsUpper(x) }

  /** A slug has no two hyphens in a row and neither starts nor ends with one. */
  lemma SlugifyHyphens(text: string)
    ensures var r := Slugify(text);
      NoDoubleHyphen(r) && (r != [] ==> r[0] != '-' && r[|r| - 1] != '-')
  {
    HyphenStagesShape(Filter(SlugChar(), Collapse(LowerStr(text), SpaceChar(), '-')));
  }

  lemma HyphenStagesShape(kept: string)
    ensures var r := HyphenStages(kept);
      NoDoubleHyphen(r) && (r != [] ==> r[0] != '-' && r[|r| - 1] != '-')
  {
    CollapseNoDouble(kept);
    TrimmedHyphens(Collapse(kept, HyphenChar(), '-'));
  }

  /** Trimming hyphens at both ends keeps the absence of double hyphens. */
  lemma TrimmedHyphens(single: string)
    requires NoDoubleHyphen(single)
    ensures var r := TrimEnd(DropWhile(HyphenChar(), single), HyphenChar());
      NoDoubleHyphen(r) && (r != [] ==> r[0] != '-' && r[|r| - 1] != '-')
  {
    var front := DropWhile(HyphenChar(), single);
    var r := TrimEnd(front, HyphenChar());
    NoDoubleSlice(single, |single| - |front|);
    NoDoublePrefix(front, |r|);
    if r != [] {
      assert r[0] == front[0];
    }
  }

  lemma NoDoubleSlice(s: string, k: nat)
    requires NoDoubleHyphen(s) && k <= |s|
    ensures NoDoubleHyphen(s[k..])
  {
    var t := s[k..];
    forall i, j | 0 <= i < |t| && 0 <= j < |t| && j == i + 1 ensures !(t[i] == '-' && t[j] == '-') {
      assert t[i] == s[k + i] && t[j] == s[k + j];
    }
  }

  lemma NoDoublePrefix(s: string, n: nat)
    requires NoDoubleHyphen(s) && n <= |s|
    ensures NoDoubleHyphen(s[..n])
  {
    var t := s[..n];
    forall i, j | 0 <= i < |t| && 0 <= j < |t| && j == i + 1 ensures !(t[i] == '-' && t[j] == '-') {
      assert t[i] == s[i] && t[j] == s[j];
    }
  }

  lemma TrimEndFilter(q: char -> bool, p: char -> bool, s: string)
    requires forall x :: p(x) ==> !q(x)
    ensures Filter(q, TrimEnd(s, p)) == Filter(q, s)
  {
    var r := TrimEnd(s, p);
    assert s == r + s[|r|..];
    FilterConcat(q, r, s[|r|..]);
    FilterNone(q, s[|r|..]);
  }

  /** The three hyphen stages keep every word character. */
  lemma HyphenStagesKeepWords(kept: string)
    ensures Filter(WordChar(), HyphenStages(kept)) == Filter(WordChar(), kept)
  {
    var single := Collapse(kept, HyphenChar(), '-');
    CollapseFilter(WordChar(), kept, HyphenChar(), '-');
    FilterDropWhile(WordChar(), HyphenChar(), single);
    TrimEndFilter(WordChar(), HyphenChar(), DropWhile(HyphenChar(), single));
  }

  /** A slug keeps every word character of the lower-cased input, in order. */
  lemma SlugifyWords(text: string)
    ensures Filter(WordChar(), Slugify(text)) == Filter(WordChar(), LowerStr(text))
  {
    SlugStagesKeepWords(LowerStr(text));
  }

  lemma SlugStagesKeepWords(lowered: string)
    ensures Filter(WordChar(), SlugOfLowered(lowered)) == Filter(WordChar(), lowered)
  {
    var dashed := Collapse(lowered, SpaceChar(), '-');
    CollapseSpacesKeepsWords(lowered);
    FilterOfFilter(dashed);
    HyphenStagesKeepWords(Filter(SlugChar(), dashed));
  }

  lemma CollapseSpacesKeepsWords(lowered: string)
    ensures Filter(WordChar(), Collapse(lowered, SpaceChar(), '-')) == Filter(WordChar(), lowered)
  {
    CollapseFilter(WordChar(), lowered, SpaceChar(), '-');
  }

  /** Keeping word characters after keeping slug characters is keeping word characters. */
  lemma {:induction false} FilterOfFilter(s: string)
    ensures Filter(WordChar(), Filter(SlugChar(), s)) == Filter(WordChar(), s)
    decreases |s|
  {
    if s != [] {
      FilterOfFilter(s[1..]);
      if SlugChar()(s[0]) {
        var r := Filter(SlugChar(), s[1..]);
        assert ([s[0]] + r)[0] == s[0] && ([s[0]] + r)[1..] == r;
      }
    }
  }

  /** Characters outside the runs are copied. */
  lemma {:induction false} CollapseKeep(w: string, rest: string, p: char -> bool, c: char)
    requires forall i :: 0 <= i < |w| ==> !p(w[i])
    ensures Collapse(w + rest, p, c) == w + Collapse(rest, p, c)
    decreases |w|
  {
    if w == [] {
      assert w + rest == rest;
    } else {
      ConsConcat(w, rest);
      CollapseStep(w + rest, p, c);
      CollapseKeep(w[1..], rest, p, c);
      ConsConcat(w, Collapse(rest, p, c));
    }
  }

  lemma CollapseStep(t: string, p: char -> bool, c: char)
    requires t != [] && !p(t[0])
    ensures Collapse(t, p, c) == [t[0]] + Collapse(t[1..], p, c)
  {
  }

  /** A run of one character becomes `c`. */
  lemma CollapseOne(x: char, rest: string, p: char -> bool, c: char)
    requires p(x) && (rest == [] || !p(rest[0]))
    ensures Collapse([x] + rest, p, c) == [c] + Collapse(rest, p, c)
  {
    var t := [x] + rest;
    assert t[1..] == rest;
    assert DropWhile(p, t) == DropWhile(p, rest) == rest;
  }

  /** A single separator between two runs-free words becomes `c`. */
  lemma CollapseSingle(a: string, x: char, b: string, p: char -> bool, c: char)
    requires p(x)
    requires forall i :: 0 <= i < |a| ==> !p(a[i])
    requires forall i :: 0 <= i < |b| ==> !p(b[i])
    ensures Collapse(a + [x] + b, p, c) == a + [c] + b
  {
    ConcatAssoc(a, [x], b);
    ConcatAssoc(a, [c], b);
    CollapseTail(x, b, p, c);
    CollapseKeepThen(a, [x] + b, [c] + b, p, c);
  }

  lemma CollapseKeepThen(w: string, t: string, u: string, p: char -> bool, c: char)
    requires forall i :: 0 <= i < |w| ==> !p(w[i])
    requires Collapse(t, p, c) == u
    ensures Collapse(w + t, p, c) == w + u
  {
    CollapseKeep(w, t, p, c);
  }

  lemma CollapseTail(x: char, b: string, p: char -> bool, c: char)
    requires p(x)
    requires forall i :: 0 <= i < |b| ==> !p(b[i])
    ensures Collapse([x] + b, p, c) == [c] + b
  {
    assert b == [] || !p(b[0]);
    CollapseOne(x, b, p, c);
    var e: string := [];
    assert b + e == b;
    CollapseKeep(b, e, p, c);
  }

  /** The library's own example: "Hello World" becomes "hello-world". */
  lemma SlugifyExample(hello: string, world: string)
    requires hello == "Hello" && world == "World"
    ensures Slugify(hello + " " + world) == "hello-world"
  {
    var lh, lw := "hello", "world";
    LowerHelloWorld(hello, world, lh, lw);
    SpacesOfHelloWorld(lh, lw);
    SlugCharsOfHelloWorld(lh, lw);
    HyphensOfHelloWorld(lh, lw);
  }

  lemma LowerHelloWorld(hello: string, world: string, lh: string, lw: string)
    requires hello == "Hello" && world == "World" && lh == "hello" && lw == "world"
    ensures LowerStr(hello + " " + world) == lh + [' '] + lw
  {
  }

  lemma SpacesOfHelloWorld(lh: string, lw: string)
    requires lh == "hello" && lw == "world"
    ensures Collapse(lh + [' '] + lw, SpaceChar(), '-') == lh + ['-'] + lw
  {
    CollapseSingle(lh, ' ', lw, SpaceChar(), '-');
  }

  lemma SlugCharsOfHelloWorld(lh: string, lw: string)
    requires lh == "hello" && lw == "world"
    ensures Filter(SlugChar(), lh + ['-'] + lw) == lh + ['-'] + lw
  {
    FilterAll(SlugChar(), lh + ['-'] + lw);
  }

  lemma HyphensOfHelloWorld(lh: string, lw: string)
    requires lh == "hello" && lw == "world"
    ensures HyphenStages(lh + ['-'] + lw) == lh + ['-'] + lw
  {
    var dashed := lh + ['-'] + lw;
    CollapseSingle(lh, '-', lw, HyphenChar(), '-');
    assert DropWhile(HyphenChar(), dashed) == dashed;
    assert TrimEnd(dashed, HyphenChar()) == dashed;
  }
}
