/** Extraction of the text between `<cover_letter>` and `</cover_letter>`:
    the search `re.search(r'<cover_letter>(.*?)</cover_letter>', text, re.DOTALL)`
    followed by `group(1)`, or the whole text when nothing matches.

    The leftmost match of that pattern starts at the first opening tag (a
    later opening tag has no closing tag after it unless the first one has),
    and the lazy `.*?` with DOTALL stops at the first closing tag that begins
    at or after the end of that opening tag, whatever characters, newlines
    included, lie in between. */
module TagExtraction {
  import opened Outcomes

  const OPEN: string := "<cover_letter>"
  const CLOSE: string := "</cover_letter>"

  /** `pat` occurs in `s` starting at index `k`. */
  predicate OccursAt(s: string, pat: string, k: int)
  {
    0 <= k && k + |pat| <= |s| && s[k..k + |pat|] == pat
  }

  /** `k` is the first index at or after `from` where `pat` occurs in `s`. */
  predicate FirstFrom(s: string, pat: string, from: int, k: int)
  {
    from <= k && OccursAt(s, pat, k) && forall m :: from <= m < k ==> !OccursAt(s, pat, m)
  }

  /** `pat` does not occur in `s` at or after `from`. */
  ghost predicate AbsentFrom(s: string, pat: string, from: int)
  {
    forall m :: from <= m ==> !OccursAt(s, pat, m)
  }

  /** `pat` occurs nowhere in `s`. */
  ghost predicate Lacks(s: string, pat: string)
  {
    forall m :: !OccursAt(s, pat, m)
  }

  /** The text has an opening tag followed, after its end, by a closing tag. */
  ghost predicate HasPair(text: string)
  {
    exists i, j :: OccursAt(text, OPEN, i) && OccursAt(text, CLOSE, j) && i + |OPEN| <= j
  }

  /** The regular expression's match: `i` is the first opening tag and `j` the
      first closing tag starting at or after the end of it. */
  predicate Delimits(text: string, i: int, j: int)
  {
    FirstFrom(text, OPEN, 0, i) && FirstFrom(text, CLOSE, i + |OPEN|, j)
  }

  /** The first index at or after `from` where `pat` occurs in `s`, if any. */
  function Find(s: string, pat: string, from: nat): (r: Option<nat>)
    ensures r.Some? ==> FirstFrom(s, pat, from, r.value)
    ensures r.None? ==> AbsentFrom(s, pat, from)
    decreases |s| + 1 - from
  {
    if from + |pat| > |s| then None
    else if s[from..from + |pat|] == pat then Some(from)
    else Find(s, pat, from + 1)
  }

  /** `get_formatted_text` applied with the cover-letter pattern. */
  function Extract(text: string): (r: string)
    ensures forall i, j :: Delimits(text, i, j) ==> r == text[i + |OPEN|..j]
    ensures HasPair(text) ==> exists i, j :: Delimits(text, i, j)
    ensures !HasPair(text) ==> r == text
  {
    match Find(text, OPEN, 0)
    case None => text
    case Some(i) =>
      match Find(text, CLOSE, i + |OPEN|)
      case None => text
      case Some(j) =>
        assert Delimits(text, i, j);
        text[i + |OPEN|..j]
  }

  /** There is at most one match. */
  lemma DelimitsUnique(text: string, i: int, j: int, i': int, j': int)
    requires Delimits(text, i, j) && Delimits(text, i', j')
    ensures i == i' && j == j'
  {
  }

  /** An occurrence inside a slice is an occurrence in the whole string. */
  lemma OccursInSlice(s: string, a: int, b: int, pat: string, k: int)
    requires 0 <= a <= b <= |s|
    requires OccursAt(s[a..b], pat, k)
    ensures OccursAt(s, pat, a + k) && a + k + |pat| <= b
  {
    var window := s[a..b][k..k + |pat|];
    forall n | 0 <= n < |pat|
      ensures pat[n] == s[a + k + n]
    {
      assert pat[n] == window[n] == s[a..b][k + n];
    }
    assert s[a + k..a + k + |pat|] == pat;
  }

  /** A tag whose first character occurs nowhere else in it cannot straddle
      the boundary in front of a copy of itself. */
  lemma NoStraddle(x: string, pat: string, y: string, m: int)
    requires |pat| > 0 && pat[0] !in pat[1..]
    requires m < |x| < m + |pat|
    ensures !OccursAt(x + pat + y, pat, m)
  {
    var t := x + pat + y;
    if 0 <= m && m + |pat| <= |t| {
      var d := |x| - m;
      assert t[|x|] == pat[0];
      assert pat[d] == pat[1..][d - 1];
      assert pat[1..][d - 1] in pat[1..];
      assert t[m..m + |pat|][d] != pat[d];
    }
  }

  /** An occurrence that lies wholly within a prefix is an occurrence in it. */
  lemma OccursInPrefix(x: string, rest: string, pat: string, m: int)
    requires OccursAt(x + rest, pat, m) && m + |pat| <= |x|
    ensures OccursAt(x, pat, m)
  {
  }

  /** An occurrence that lies wholly after a prefix is an occurrence in the rest. */
  lemma OccursInSuffix(x: string, rest: string, pat: string, m: int)
    requires OccursAt(x + rest, pat, m) && |x| <= m
    ensures OccursAt(rest, pat, m - |x|)
  {
  }

  lemma TagsStartUniquely()
    ensures OPEN[0] == '<' && '<' !in OPEN[1..]
    ensures CLOSE[0] == '<' && '<' !in CLOSE[1..]
  {
  }

  /** The result is always a contiguous piece of the input, so it is never longer. */
  lemma ExtractIsSubstring(text: string)
    ensures exists a, b :: 0 <= a <= b <= |text| && Extract(text) == text[a..b]
    ensures |Extract(text)| <= |text|
  {
    var r := Extract(text);
    if HasPair(text) {
      var i, j :| Delimits(text, i, j);
      assert Extract(text) == text[i + |OPEN|..j];
    } else {
      assert Extract(text) == text[0..|text|];
    }
  }

  /** On a match the two tags are dropped: the result is shorter than the input
      by at least the length of both tags. */
  lemma ExtractDropsTags(text: string)
    requires HasPair(text)
    ensures |Extract(text)| + |OPEN| + |CLOSE| <= |text|
  {
  }

  /** On a match the lazy capture never contains the closing tag. */
  lemma ExtractOmitsClose(text: string)
    requires HasPair(text)
    ensures Lacks(Extract(text), CLOSE)
  {
    var r := Extract(text);
    var i, j :| Delimits(text, i, j);
    assert r == text[i + |OPEN|..j];
    forall k
      ensures !OccursAt(r, CLOSE, k)
    {
      if OccursAt(r, CLOSE, k) {
        OccursInSlice(text, i + |OPEN|, j, CLOSE, k);
        assert false;
      }
    }
  }

  /** Round trip: wrapping a body without a closing tag in the two tags, after
      a preamble without an opening tag and before any trailer, extracts the
      body; the preamble and the trailer are dropped. */
  lemma {:induction false} ExtractRoundTrip(pre: string, body: string, post: string)
    requires Lacks(pre, OPEN)
    requires Lacks(body, CLOSE)
    ensures Extract(pre + OPEN + body + CLOSE + post) == body
  {
    TagsStartUniquely();
    var text := pre + OPEN + body + CLOSE + post;
    var i := |pre|;
    var j := |pre| + |OPEN| + |body|;
    assert text == pre + OPEN + (body + CLOSE + post);
    assert text == (pre + OPEN + body) + CLOSE + post;
    assert text[i..i + |OPEN|] == OPEN;
    assert text[j..j + |CLOSE|] == CLOSE;
    forall m | 0 <= m < i
      ensures !OccursAt(text, OPEN, m)
    {
      if m + |OPEN| <= i {
        if OccursAt(text, OPEN, m) {
          OccursInPrefix(pre, OPEN + (body + CLOSE + post), OPEN, m);
          assert false;
        }
      } else {
        NoStraddle(pre, OPEN, body + CLOSE + post, m);
      }
    }
    forall m | i + |OPEN| <= m < j
      ensures !OccursAt(text, CLOSE, m)
    {
      if m + |CLOSE| <= j {
        if OccursAt(text, CLOSE, m) {
          OccursInPrefix(pre + OPEN + body, CLOSE + post, CLOSE, m);
          OccursInSuffix(pre + OPEN, body, CLOSE, m);
          assert false;
        }
      } else {
        NoStraddle(pre + OPEN + body, CLOSE, post, m);
      }
    }
    assert Delimits(text, i, j);
    assert text[i + |OPEN|..j] == body;
  }

  /** A string without `<` contains neither tag. */
  lemma NoAngleNoTag(s: string, pat: string)
    requires |pat| > 0 && pat[0] == '<' && '<' !in s
    ensures Lacks(s, pat)
  {
  }

  /** With DOTALL the capture runs across line breaks: a letter of several
      lines, with a preamble before the tag, comes out whole. */
  lemma ExtractKeepsLineBreaks()
    ensures Extract("Here is your letter.\n" + OPEN + "Dear Hiring Manager,\n\nBest regards" + CLOSE)
         == "Dear Hiring Manager,\n\nBest regards"
  {
    TagsStartUniquely();
    NoAngleNoTag("Here is your letter.\n", OPEN);
    NoAngleNoTag("Dear Hiring Manager,\n\nBest regards", CLOSE);
    ExtractRoundTrip("Here is your letter.\n", "Dear Hiring Manager,\n\nBest regards", "");
    assert "Here is your letter.\n" + OPEN + "Dear Hiring Manager,\n\nBest regards" + CLOSE + ""
        == "Here is your letter.\n" + OPEN + "Dear Hiring Manager,\n\nBest regards" + CLOSE;
  }
}
