/**
 * What a match of each highlighter pattern looks like: its delimiters, the
 * lookarounds of the star rules, which rules stay on one line and which
 * start at a line start; and the emphasis layering on a worked example.
 */
module RuleFacts {

  import opened Wrappers
  import opened Text
  import opened Tags
  import opened Patterns
  import opened Scanner
  import opened Highlight

  /** `***x***`: three stars, a body without newline and without `***`, three stars. */
  lemma TripleStarMatch(s: string, i: nat, e: nat)
    requires MatchAt(TripleStar, s, i) == Some(e)
    ensures i + 6 <= e
    ensures StarAt(s, i) && StarAt(s, i + 1) && StarAt(s, i + 2)
    ensures StarAt(s, e - 3) && StarAt(s, e - 2) && StarAt(s, e - 1)
    ensures NoNewline(s, i, e)
    ensures forall m :: i + 3 <= m < e - 3 ==> !(StarAt(s, m) && StarAt(s, m + 1) && StarAt(s, m + 2))
  {
    var j := LazyClose(s, i + 3, Stars3, false).value;
    assert e == j + 3;
    forall m | i + 3 <= m < e - 3
      ensures !(StarAt(s, m) && StarAt(s, m + 1) && StarAt(s, m + 2))
    {
      assert CloseAt(Stars3, s, m).None?;
    }
  }

  /** `**x**` never uses a star that touches a third star, and its body is not empty. */
  lemma DoubleStarMatch(s: string, i: nat, e: nat)
    requires MatchAt(DoubleStar, s, i) == Some(e)
    ensures !StarAt(s, i - 1) && StarAt(s, i) && StarAt(s, i + 1) && !StarAt(s, i + 2)
    ensures !StarAt(s, e - 3) && StarAt(s, e - 2) && StarAt(s, e - 1) && !StarAt(s, e)
    ensures i + 5 <= e
    ensures NoNewline(s, i, e)
  {
    var j := LazyClose(s, i + 2, LoneStars2, false).value;
    assert CloseAt(LoneStars2, s, j).Some?;
  }

  /** `*x*` only uses stars with no star beside them, and its body is not empty. */
  lemma SingleStarMatch(s: string, i: nat, e: nat)
    requires MatchAt(SingleStar, s, i) == Some(e)
    ensures !StarAt(s, i - 1) && StarAt(s, i) && !StarAt(s, i + 1)
    ensures !StarAt(s, e - 2) && StarAt(s, e - 1) && !StarAt(s, e)
    ensures i + 3 <= e
    ensures NoNewline(s, i, e)
  {
    var j := LazyClose(s, i + 1, LoneStar, false).value;
    assert CloseAt(LoneStar, s, j).Some?;
  }

  /** `__x__` stays on one line; its body may be empty. */
  lemma DoubleUnderscoreMatch(s: string, i: nat, e: nat)
    requires MatchAt(DoubleUnderscore, s, i) == Some(e)
    ensures At(s, i, '_') && At(s, i + 1, '_') && At(s, e - 2, '_') && At(s, e - 1, '_')
    ensures i + 4 <= e
    ensures NoNewline(s, i, e)
  {
    var j := LazyClose(s, i + 2, Unders2, false).value;
    assert CloseAt(Unders2, s, j).Some?;
  }

  /** `_x_` stays on one line and ends at the first underscore after the opening one. */
  lemma SingleUnderscoreMatch(s: string, i: nat, e: nat)
    requires MatchAt(SingleUnderscore, s, i) == Some(e)
    ensures At(s, i, '_') && At(s, e - 1, '_')
    ensures i + 2 <= e
    ensures NoNewline(s, i, e)
    ensures forall m :: i < m < e - 1 ==> s[m] != '_'
  {
    var j := LazyClose(s, i + 1, Under1, false).value;
    assert e == j + 1;
    forall m | i < m < e - 1
      ensures s[m] != '_'
    {
      assert CloseAt(Under1, s, m).None?;
    }
  }

  /** A fenced block may span lines and stops at the first closing fence. */
  lemma FenceMatch(s: string, i: nat, e: nat)
    requires MatchAt(Fence, s, i) == Some(e)
    ensures At(s, i, '`') && At(s, i + 1, '`') && At(s, i + 2, '`')
    ensures At(s, e - 3, '`') && At(s, e - 2, '`') && At(s, e - 1, '`')
    ensures i + 6 <= e
    ensures forall m :: i + 3 <= m < e - 3 ==> !(At(s, m, '`') && At(s, m + 1, '`') && At(s, m + 2, '`'))
  {
    var j := LazyClose(s, i + 3, Ticks3, true).value;
    assert e == j + 3;
    forall m | i + 3 <= m < e - 3
      ensures !(At(s, m, '`') && At(s, m + 1, '`') && At(s, m + 2, '`'))
    {
      assert CloseAt(Ticks3, s, m).None?;
    }
  }

  /** Inline code: a non-empty body with no backtick and no newline between two backticks. */
  lemma InlineCodeMatch(s: string, i: nat, e: nat)
    requires MatchAt(InlineCode, s, i) == Some(e)
    ensures At(s, i, '`') && At(s, e - 1, '`')
    ensures i + 3 <= e
    ensures forall m :: i < m < e - 1 ==> s[m] != '`' && s[m] != '\n'
  {
  }

  /** A link's text stays on its line; its target runs to the first `)` and may cross lines. */
  lemma LinkMatch(s: string, i: nat, e: nat)
    requires MatchAt(LinkRef, s, i) == Some(e)
    ensures At(s, i, '[') && At(s, e - 1, ')')
    ensures exists j :: (i < j && j + 3 <= e && At(s, j, ']') && At(s, j + 1, '(') && NoNewline(s, i, j)
      && forall m :: j + 2 <= m < e - 1 ==> s[m] != ')')
  {
    var j := LazyClose(s, i + 1, LinkTarget, false).value;
    assert CloseAt(LinkTarget, s, j).Some?;
  }

  /** A header starts a line with one to six `#` and whitespace, and ends at a line end. */
  lemma HeaderMatch(s: string, i: nat, e: nat)
    requires MatchAt(HeaderLine, s, i) == Some(e)
    ensures AtLineStart(s, i) && At(s, i, '#')
    ensures exists h :: i < h <= i + 6 && h < e && (forall m :: i <= m < h ==> s[m] == '#') && IsSpace(s[h])
    ensures s[e - 1] != '\n' && (e == |s| || s[e] == '\n')
  {
    var h := RunEnd(s, i, Hash);
    assert i < h && IsSpace(s[h]);
  }

  /** A list marker starts a line and its match ends at the end of the whitespace after it. */
  lemma ListMatch(s: string, i: nat, e: nat)
    requires MatchAt(ListMarker, s, i) == Some(e)
    ensures AtLineStart(s, i)
    ensures IsSpace(s[e - 1]) && (e == |s| || !IsSpace(s[e]))
  {
  }

  /** A quote starts a line with `>` and runs to the end of that line. */
  lemma QuoteMatch(s: string, i: nat, e: nat)
    requires MatchAt(QuoteLine, s, i) == Some(e)
    ensures AtLineStart(s, i) && At(s, i, '>')
    ensures NoNewline(s, i, e) && (e == |s| || s[e] == '\n')
  {
  }

  /** The `\s+` of the header pattern crosses newlines: `#` alone on a line takes the next line. */
  lemma HeaderWhitespaceCrossesLines()
    ensures MatchAt(HeaderLine, "#\nx\n", 0) == Some(3)
  {
    assert RunEnd("#\nx\n", 0, Hash) == 1;
    assert RunEnd("#\nx\n", 1, Space) == 2;
  }

  /** A fenced block runs over lines. */
  lemma FenceSpansLines()
    ensures MatchAt(Fence, "```\nx\n```", 0) == Some(9)
  {
    var s := "```\nx\n```";
    assert CloseAt(Ticks3, s, 6) == Some(9);
    assert LazyClose(s, 5, Ticks3, true) == Some(6);
    assert LazyClose(s, 3, Ticks3, true) == Some(6);
  }

  /** A link target runs over a newline up to the first `)`. */
  lemma LinkTargetSpansLines()
    ensures MatchAt(LinkRef, "[a](b\nc)", 0) == Some(8)
  {
    var s := "[a](b\nc)";
    assert RunEnd(s, 4, NotCloseParen) == 7;
    assert CloseAt(LinkTarget, s, 2) == Some(8);
    assert LazyClose(s, 1, LinkTarget, false) == Some(2);
  }

  /**
   * Bold wrapped around a final newline, as a format after select-all
   * leaves it: the widget text `**hello\n**` plus Tk's newline has no bold
   * match, since a bold body stays on one line.
   */
  lemma WrappedNewlineBreaksBold()
    ensures forall q :: 0 <= q < |"**hello\n**\n"| ==> MatchAt(DoubleStar, "**hello\n**\n", q).None?
  {
    var s := "**hello\n**\n";
    forall q | 0 <= q < |s|
      ensures MatchAt(DoubleStar, s, q).None?
    {
      if MatchAt(DoubleStar, s, q).Some? {
        var e := MatchAt(DoubleStar, s, q).value;
        DoubleStarMatch(s, q, e);
        assert false;
      }
    }
  }
}
