/**
 * `removeHtmlTags`: `text.replace(/<(?:.|\\n)*?>/gm, '')`.
 *
 * The lazy group stops at the first '>' after a '<'. Its `.` does not
 * match line terminators, and its second alternative is the two
 * characters backslash and 'n', which `.` already matches, so a tag is a
 * '<', then characters other than line terminators, then the nearest '>'.
 * The `m` flag changes nothing here, since the pattern has no `^` or `$`.
 * The global replacement removes the tags in one left-to-right scan; a
 * '<' with no '>' later on its line is kept as an ordinary character.
 */
module HtmlUtils {
  import opened Wrappers
  import opened Chars
  import opened Seqs

  /** The index of the first '>' at or after k, provided no line terminator comes before it. */
  function CloseAt(t: string, k: nat): (r: Option<nat>)
    requires k <= |t|
    ensures r.Some? ==> k <= r.value < |t| && t[r.value] == '>'
    ensures r.Some? ==> forall m :: k <= m < r.value ==> t[m] != '>' && !IsLineTerminator(t[m])
    ensures r.None? ==> forall j :: k <= j < |t| && t[j] == '>' ==>
                          exists m :: k <= m < j && IsLineTerminator(t[m])
    decreases |t| - k
  {
    if k == |t| then None
    else if t[k] == '>' then Some(k)
    else if IsLineTerminator(t[k]) then None
    else CloseAt(t, k + 1)
  }

  /** `removeHtmlTags(text)`: the characters surviving the scan, in their original order. */
  function RemoveHtmlTags(text: string): (r: string)
    ensures Subseq(r, text)
    decreases |text|
  {
    if text == [] then []
    else if text[0] == '<' && CloseAt(text, 1).Some? then
      var rest := RemoveHtmlTags(text[CloseAt(text, 1).value + 1..]);
      SubseqTail(rest, text, CloseAt(text, 1).value + 1);
      rest
    else
      var rest := RemoveHtmlTags(text[1..]);
      SubseqCons(text[0], rest, text[1..]);
      assert [text[0]] + text[1..] == text;
      [text[0]] + rest
  }

  /** A subsequence of a suffix is a subsequence of the whole. */
  lemma {:induction false} SubseqTail(a: string, t: string, k: nat)
    requires k <= |t| && Subseq(a, t[k..])
    ensures Subseq(a, t)
    decreases k
  {
    if k > 0 {
      assert t[k - 1..] == [t[k - 1]] + t[k..];
      SubseqDrop(a, t[k - 1], t[k..]);
      SubseqTail(a, t, k - 1);
    }
  }

  /** Putting an element in front keeps a subsequence. */
  lemma SubseqDrop(a: string, x: char, b: string)
    requires Subseq(a, b)
    ensures Subseq(a, [x] + b)
  {
    if a == [] {
    } else {
      SubseqCons(x, a, b);
    }
  }

  /** A character other than '<' is kept. */
  lemma KeepStep(t: string)
    requires t != [] && t[0] != '<'
    ensures RemoveHtmlTags(t) == [t[0]] + RemoveHtmlTags(t[1..])
  {
  }

  /** A '<' that closes on its line starts a tag, which is dropped. */
  lemma TagStep(t: string, j: nat)
    requires t != [] && t[0] == '<' && 1 <= |t| && CloseAt(t, 1) == Some(j)
    ensures RemoveHtmlTags(t) == RemoveHtmlTags(t[j + 1..])
  {
  }

  /** A '<' that does not close on its line is kept. */
  lemma OpenKeptStep(t: string)
    requires t != [] && t[0] == '<' && CloseAt(t, 1).None?
    ensures RemoveHtmlTags(t) == [t[0]] + RemoveHtmlTags(t[1..])
  {
  }

  /** Text without '<' passes through, and so does the text that follows it. */
  lemma {:induction false} KeepPlain(w: string, rest: string)
    requires '<' !in w
    ensures RemoveHtmlTags(w + rest) == w + RemoveHtmlTags(rest)
    decreases |w|
  {
    if w == [] {
      assert w + rest == rest;
    } else {
      ConsConcat(w, rest);
      ConsConcat(w, RemoveHtmlTags(rest));
      KeepStep(w + rest);
      KeepPlain(w[1..], rest);
    }
  }

  /** Text without '<' is returned unchanged. */
  lemma NoOpenUnchanged(text: string)
    requires '<' !in text
    ensures RemoveHtmlTags(text) == text
  {
    KeepPlain(text, []);
    assert text + [] == text;
  }

  /** A '<' followed on its line by a '>' is removed together with everything up to that '>'. */
  lemma RemoveTag(a: string, rest: string)
    requires '>' !in a
    requires forall c :: c in a ==> !IsLineTerminator(c)
    ensures RemoveHtmlTags("<" + a + ">" + rest) == RemoveHtmlTags(rest)
  {
    var t := "<" + a + ">" + rest;
    assert t[|a| + 1] == '>';
    assert forall m :: 1 <= m < |a| + 1 ==> t[m] == a[m - 1];
    assert CloseAt(t, 1) == Some(|a| + 1) by { CloseScan(t, 1, |a| + 1); }
    TagStep(t, |a| + 1);
    assert t[|a| + 2..] == rest;
  }

  /** The scan from k reaches the '>' at j when nothing before it stops it. */
  lemma {:induction false} CloseScan(t: string, k: nat, j: nat)
    requires k <= j < |t| && t[j] == '>'
    requires forall m :: k <= m < j ==> t[m] != '>' && !IsLineTerminator(t[m])
    ensures CloseAt(t, k) == Some(j)
    decreases j - k
  {
    if k < j { CloseScan(t, k + 1, j); }
  }

  /** A '<' whose line ends before any '>' is kept, with the rest of its line. */
  lemma UnclosedKept(a: string, c: char, rest: string)
    requires '>' !in a && '<' !in a
    requires forall x :: x in a ==> !IsLineTerminator(x)
    requires IsLineTerminator(c)
    ensures RemoveHtmlTags("<" + a + [c] + rest) == "<" + a + [c] + RemoveHtmlTags(rest)
  {
    var w := a + [c];
    var t := "<" + a + [c] + rest;
    Shape('<', a, c, rest);
    assert t[|a| + 1] == c;
    assert forall m :: 1 <= m < |a| + 1 ==> t[m] == a[m - 1];
    assert CloseAt(t, 1).None? by { CloseStops(t, 1, |a| + 1); }
    OpenKeptStep(t);
    assert '<' !in w;
    KeepPlain(w, rest);
    Shape('<', a, c, RemoveHtmlTags(rest));
  }

  lemma Shape(x: char, a: string, c: char, rest: string)
    ensures [x] + a + [c] + rest == [x] + ((a + [c]) + rest)
    ensures ([x] + a + [c] + rest)[1..] == (a + [c]) + rest
  {
  }

  /** The scan from k stops at a line terminator at j that no '>' precedes. */
  lemma {:induction false} CloseStops(t: string, k: nat, j: nat)
    requires k <= j < |t| && IsLineTerminator(t[j])
    requires forall m :: k <= m < j ==> t[m] != '>' && !IsLineTerminator(t[m])
    ensures CloseAt(t, k).None?
    decreases j - k
  {
    if k < j { CloseStops(t, k + 1, j); }
  }

  /** An element `<tag>body</tag>` on one line leaves its body, when the body holds no '<'. */
  lemma ElementLeavesBody(tag: string, body: string)
    requires '>' !in tag && '<' !in body
    requires forall c :: c in tag ==> !IsLineTerminator(c)
    ensures RemoveHtmlTags("<" + tag + ">" + body + "</" + tag + ">") == body
  {
    var close := "</" + tag + ">";
    ElementShape(tag, body);
    RemoveTag(tag, body + close);
    KeepPlain(body, close);
    assert '>' !in "/" + tag;
    RemoveTag("/" + tag, []);
    assert RemoveHtmlTags([]) == [];
    ConcatEmpty(body);
  }

  lemma ElementShape(tag: string, body: string)
    ensures "<" + tag + ">" + body + "</" + tag + ">" == "<" + tag + ">" + (body + ("</" + tag + ">"))
    ensures "</" + tag + ">" == "<" + ("/" + tag) + ">" + []
  {
  }

  /** The tests' cases: a paragraph, span or div around "Hello, world!" leaves the text, and the bare text is unchanged. */
  lemma RemoveHtmlTagsExample(tag: string, body: string)
    requires tag == "p" || tag == "span" || tag == "div"
    requires body == "Hello, world!"
    ensures RemoveHtmlTags("<" + tag + ">" + body + "</" + tag + ">") == body
    ensures RemoveHtmlTags(body) == body
  {
    assert '<' !in body by {
      forall i | 0 <= i < |body| ensures body[i] != '<' { }
    }
    assert '>' !in tag && forall c :: c in tag ==> !IsLineTerminator(c) by {
      forall i | 0 <= i < |tag| ensures tag[i] != '>' && !IsLineTerminator(tag[i]) { }
    }
    ElementLeavesBody(tag, body);
    NoOpenUnchanged(body);
  }
}
