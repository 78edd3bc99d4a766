/**
 * Emphasis layering on `**bold** and *italic* and ***both***`: the first
 * run is bold only, the second italic only, the third both.
 */
module EmphasisExample {

  import opened Wrappers
  import opened Text
  import opened Tags
  import opened Patterns
  import opened Scanner
  import opened Highlight

  /** The widget text of a buffer holding the example line (Tk's newline included). */
  const Example: string := "**bold** and *italic* and ***both***\n"

  /** The positions of the example's stars, and its lack of underscores. */
  lemma ExampleCharacters()
    ensures |Example| == 37
    ensures forall q :: 0 <= q < |Example| ==> (Example[q] == '*' <==> q in {0, 1, 6, 7, 13, 20, 26, 27, 28, 33, 34, 35})
    ensures forall q :: 0 <= q < |Example| ==> Example[q] != '_'
  {
  }

  /** The only stars with no star on either side are the two around `italic`. */
  lemma ExampleLoneStars()
    ensures forall q: int :: !StarAt(Example, q - 1) && StarAt(Example, q) && !StarAt(Example, q + 1) ==> q == 13 || q == 20
  {
    ExampleCharacters();
  }

  /** The characters around the matches. */
  lemma ExampleText()
    ensures Example[0] == '*' && Example[1] == '*' && Example[2] == 'b'
    ensures Example[12] == ' ' && Example[13] == '*' && Example[14] == 'i'
  {
  }

  /** A scan that finds exactly one match: the pattern matches at a and nowhere outside [a, b). */
  lemma OneMatchScan(p: Pattern, s: string, a: nat, b: nat)
    requires MatchAt(p, s, a) == Some(b)
    requires forall q :: 0 <= q < |s| && !(a <= q < b) ==> MatchAt(p, s, q).None?
    ensures Scan(p, s, 0) == [Range(a, b)]
  {
    var r := [Range(a, b)];
    var t := Matches(p, s);
    forall q | 0 <= q < |t| && !Covered(r, q)
      ensures t[q].None?
    {
      assert !(r[0].start <= q < r[0].end);
    }
    ScanCharacterized(p, s, 0, r);
  }

  lemma TripleStarAt26()
    ensures MatchAt(TripleStar, Example, 26) == Some(36)
  {
    assert CloseAt(Stars3, Example, 33) == Some(36);
    assert LazyClose(Example, 32, Stars3, false) == Some(33);
    assert LazyClose(Example, 29, Stars3, false) == Some(33);
  }

  lemma ExampleTripleStar()
    ensures Scan(TripleStar, Example, 0) == [Range(26, 36)]
  {
    TripleStarAt26();
    forall q | 0 <= q < |Example| && !(26 <= q < 36) ensures MatchAt(TripleStar, Example, q).None? {
      ExampleCharacters();
    }
    OneMatchScan(TripleStar, Example, 26, 36);
  }

  lemma DoubleStarAt0()
    ensures MatchAt(DoubleStar, Example, 0) == Some(8)
  {
    BoldBody();
    ExampleText();
  }

  /** The lazy body after the stars at 0 ends at the stars at 6. */
  lemma BoldBody()
    ensures Enclosed(Example, 2, LoneStars2, false) == Some(8)
  {
    assert CloseAt(LoneStars2, Example, 6) == Some(8);
    assert LazyClose(Example, 6, LoneStars2, false) == Some(6);
    assert LazyClose(Example, 5, LoneStars2, false) == Some(6);
    assert LazyClose(Example, 4, LoneStars2, false) == Some(6);
    assert LazyClose(Example, 3, LoneStars2, false) == Some(6);
    assert LazyClose(Example, 2, LoneStars2, false) == Some(6);
  }

  lemma ExampleDoubleStar()
    ensures Scan(DoubleStar, Example, 0) == [Range(0, 8)]
  {
    DoubleStarAt0();
    forall q | 0 <= q < |Example| && !(0 <= q < 8) ensures MatchAt(DoubleStar, Example, q).None? {
      ExampleCharacters();
    }
    OneMatchScan(DoubleStar, Example, 0, 8);
  }

  lemma LoneStarAt20()
    ensures LazyClose(Example, 17, LoneStar, false) == Some(20)
  {
    assert CloseAt(LoneStar, Example, 20) == Some(21);
    assert LazyClose(Example, 19, LoneStar, false) == Some(20);
    assert LazyClose(Example, 18, LoneStar, false) == Some(20);
  }

  lemma SingleStarAt13()
    ensures MatchAt(SingleStar, Example, 13) == Some(21)
  {
    ItalicBody();
    ExampleText();
  }

  /** The lazy body after the star at 13 ends at the lone star at 20. */
  lemma ItalicBody()
    ensures Enclosed(Example, 14, LoneStar, false) == Some(21)
  {
    LoneStarAt20();
    assert LazyClose(Example, 16, LoneStar, false) == Some(20);
    assert LazyClose(Example, 15, LoneStar, false) == Some(20);
    assert LazyClose(Example, 14, LoneStar, false) == Some(20);
    assert CloseAt(LoneStar, Example, 20) == Some(21);
  }

  lemma ExampleSingleStar()
    ensures Scan(SingleStar, Example, 0) == [Range(13, 21)]
  {
    SingleStarAt13();
    forall q | 0 <= q < |Example| && !(13 <= q < 21) ensures MatchAt(SingleStar, Example, q).None? {
      ExampleLoneStars();
    }
    OneMatchScan(SingleStar, Example, 13, 21);
  }

  lemma ExampleNoDoubleUnderscore()
    ensures Scan(DoubleUnderscore, Example, 0) == []
  {
    forall q | 0 <= q < |Example| ensures MatchAt(DoubleUnderscore, Example, q).None? {
      ExampleCharacters();
    }
    ScanEmptyIff(DoubleUnderscore, Example, 0);
  }

  lemma ExampleNoSingleUnderscore()
    ensures Scan(SingleUnderscore, Example, 0) == []
  {
    forall q | 0 <= q < |Example| ensures MatchAt(SingleUnderscore, Example, q).None? {
      ExampleCharacters();
    }
    ScanEmptyIff(SingleUnderscore, Example, 0);
  }

  /** The rules that add bold and those that add italic. */
  lemma EmphasisRules()
    ensures forall rule :: rule in Rules && Bold in rule.tags ==> rule.pattern in {TripleStar, DoubleStar, DoubleUnderscore}
    ensures forall rule :: rule in Rules && Italic in rule.tags ==> rule.pattern in {TripleStar, SingleStar, SingleUnderscore}
  {
  }

  /** The ranges over which a bold or italic rule matches in the example. */
  lemma EmphasisRanges(rule: Rule, rg: Range)
    requires rule in Rules && rg in Scan(rule.pattern, Example, 0)
    ensures Bold in rule.tags ==> rg == Range(0, 8) || rg == Range(26, 36)
    ensures Italic in rule.tags ==> rg == Range(13, 21) || rg == Range(26, 36)
  {
    EmphasisRules();
    if Bold in rule.tags || Italic in rule.tags {
      var p := rule.pattern;
      if p == TripleStar {
        ExampleTripleStar();
      } else if p == DoubleStar {
        ExampleDoubleStar();
      } else if p == SingleStar {
        ExampleSingleStar();
      } else if p == DoubleUnderscore {
        ExampleNoDoubleUnderscore();
      } else {
        ExampleNoSingleUnderscore();
      }
    }
  }

  /** Where one bold or italic mark of the example can be. */
  lemma ExampleMarkBounded(marks: set<Mark>, m: Mark)
    requires m in HighlightPass(marks, Example)
    ensures m.tag == Bold ==> m.pos < 8 || 26 <= m.pos < 36
    ensures m.tag == Italic ==> 13 <= m.pos < 21 || 26 <= m.pos < 36
  {
    if m.tag == Bold || m.tag == Italic {
      var rule, rg := RuleOfMark(marks, Example, m);
      EmphasisRanges(rule, rg);
    }
  }

  /** The rule and the match a syntax mark after a pass comes from. */
  lemma RuleOfMark(marks: set<Mark>, text: string, m: Mark) returns (rule: Rule, rg: Range)
    requires IsSyntax(m.tag) && m in HighlightPass(marks, text)
    ensures rule in Rules && m.tag in rule.tags && rg in Scan(rule.pattern, text, 0) && rg.start <= m.pos < rg.end
  {
    PassMarks(marks, text, m);
    rule, rg :| rule in Rules && m.tag in rule.tags && rg in Scan(rule.pattern, text, 0) && rg.start <= m.pos < rg.end;
  }

  /** Where the example's bold and italic marks can be. */
  lemma ExampleMarksBounded(marks: set<Mark>)
    ensures forall m :: m in HighlightPass(marks, Example) && m.tag == Bold ==> m.pos < 8 || 26 <= m.pos < 36
    ensures forall m :: m in HighlightPass(marks, Example) && m.tag == Italic ==> 13 <= m.pos < 21 || 26 <= m.pos < 36
  {
    forall m | m in HighlightPass(marks, Example)
      ensures m.tag == Bold ==> m.pos < 8 || 26 <= m.pos < 36
      ensures m.tag == Italic ==> 13 <= m.pos < 21 || 26 <= m.pos < 36
    {
      ExampleMarkBounded(marks, m);
    }
  }

  /** `**bold**` is bold throughout. */
  lemma BoldRun(marks: set<Mark>, k: nat)
    requires k < 8
    ensures Mark(Bold, k) in HighlightPass(marks, Example)
  {
    var rule := Rules[2];
    assert rule == Rule(DoubleStar, [Bold]);
    ExampleDoubleStar();
    assert Range(0, 8) in Scan(rule.pattern, Example, 0);
    MatchMarksPass(marks, Example, rule, Range(0, 8), k);
  }

  /** `*italic*` is italic throughout. */
  lemma ItalicRun(marks: set<Mark>, k: nat)
    requires 13 <= k < 21
    ensures Mark(Italic, k) in HighlightPass(marks, Example)
  {
    var rule := Rules[3];
    assert rule == Rule(SingleStar, [Italic]);
    ExampleSingleStar();
    assert Range(13, 21) in Scan(rule.pattern, Example, 0);
    MatchMarksPass(marks, Example, rule, Range(13, 21), k);
  }

  /** `***both***` is bold and italic throughout. */
  lemma BothRun(marks: set<Mark>, k: nat)
    requires 26 <= k < 36
    ensures Mark(Bold, k) in HighlightPass(marks, Example) && Mark(Italic, k) in HighlightPass(marks, Example)
  {
    var rule := Rules[1];
    assert rule == Rule(TripleStar, [Bold, Italic]);
    ExampleTripleStar();
    assert Range(26, 36) in Scan(rule.pattern, Example, 0);
    MatchMarksPass(marks, Example, rule, Range(26, 36), k);
  }

  /** `**bold**` is bold and not italic. */
  lemma BoldOnly(marks: set<Mark>, k: nat)
    requires k < 8
    ensures Mark(Bold, k) in HighlightPass(marks, Example) && Mark(Italic, k) !in HighlightPass(marks, Example)
  {
    BoldRun(marks, k);
    if Mark(Italic, k) in HighlightPass(marks, Example) {
      ExampleMarkBounded(marks, Mark(Italic, k));
    }
  }

  /** `*italic*` is italic and not bold. */
  lemma ItalicOnly(marks: set<Mark>, k: nat)
    requires 13 <= k < 21
    ensures Mark(Italic, k) in HighlightPass(marks, Example) && Mark(Bold, k) !in HighlightPass(marks, Example)
  {
    ItalicRun(marks, k);
    if Mark(Bold, k) in HighlightPass(marks, Example) {
      ExampleMarkBounded(marks, Mark(Bold, k));
    }
  }

  /**
   * After a highlight pass over the example, `**bold**` carries bold and not
   * italic, `*italic*` italic and not bold, and `***both***` both.
   */
  lemma ExampleLayering(marks: set<Mark>)
    ensures forall k :: 0 <= k < 8 ==> Mark(Bold, k) in HighlightPass(marks, Example) && Mark(Italic, k) !in HighlightPass(marks, Example)
    ensures forall k :: 13 <= k < 21 ==> Mark(Italic, k) in HighlightPass(marks, Example) && Mark(Bold, k) !in HighlightPass(marks, Example)
    ensures forall k :: 26 <= k < 36 ==> Mark(Bold, k) in HighlightPass(marks, Example) && Mark(Italic, k) in HighlightPass(marks, Example)
  {
    forall k: nat | k < 8
      ensures Mark(Bold, k) in HighlightPass(marks, Example) && Mark(Italic, k) !in HighlightPass(marks, Example)
    {
      BoldOnly(marks, k);
    }
    forall k: nat | 13 <= k < 21
      ensures Mark(Italic, k) in HighlightPass(marks, Example) && Mark(Bold, k) !in HighlightPass(marks, Example)
    {
      ItalicOnly(marks, k);
    }
    forall k: nat | 26 <= k < 36
      ensures Mark(Bold, k) in HighlightPass(marks, Example) && Mark(Italic, k) in HighlightPass(marks, Example)
    {
      BothRun(marks, k);
    }
  }
}
