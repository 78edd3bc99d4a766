/**
 * The syntax highlighter: a fixed, ordered list of rules run over the whole
 * widget text. A pass first removes the eight syntax tags and then only adds
 * tags, one `tag_add` per tag of a rule per match of its pattern.
 */
module Highlight {

  import opened Wrappers
  import opened Text
  import opened Tags
  import opened Patterns
  import opened Scanner

  /** A pattern and the tags every one of its matches receives, in order. */
  datatype Rule = Rule(pattern: Pattern, tags: seq<Tag>)

  /** The rules in the order the highlighter runs them. */
  const Rules: seq<Rule> := [
    Rule(HeaderLine, [Header]),
    Rule(TripleStar, [Bold, Italic]),
    Rule(DoubleStar, [Bold]),
    Rule(SingleStar, [Italic]),
    Rule(DoubleUnderscore, [Bold]),
    Rule(SingleUnderscore, [Italic]),
    Rule(Fence, [CodeBlock]),
    Rule(InlineCode, [CodeInline]),
    Rule(LinkRef, [Link]),
    Rule(ListMarker, [List]),
    Rule(QuoteLine, [Quote])
  ]

  /** The `tag_add` calls for one match: each tag of the rule over the same range. */
  function TagEach(tags: seq<Tag>, rg: Range): (r: seq<Span>)
    ensures forall sp :: sp in r <==> sp.tag in tags && sp.start == rg.start && sp.end == rg.end
  {
    if tags == [] then [] else [Span(tags[0], rg.start, rg.end)] + TagEach(tags[1..], rg)
  }

  /** The `tag_add` calls for a rule's matches: for each match, each of its tags. */
  function RangeSpans(ranges: seq<Range>, tags: seq<Tag>): (r: seq<Span>)
    ensures forall sp :: sp in r <==> sp.tag in tags && Range(sp.start, sp.end) in ranges
  {
    if ranges == [] then [] else TagEach(tags, ranges[0]) + RangeSpans(ranges[1..], tags)
  }

  /** The `tag_add` calls of a list of rules run one after the other over the text. */
  function RulesSpans(text: string, rules: seq<Rule>): (r: seq<Span>)
    ensures forall sp :: sp in r <==>
      exists rule :: rule in rules && sp.tag in rule.tags && Range(sp.start, sp.end) in Scan(rule.pattern, text, 0)
  {
    if rules == [] then []
    else RangeSpans(Scan(rules[0].pattern, text, 0), rules[0].tags) + RulesSpans(text, rules[1..])
  }

  /** The spans one highlight pass adds, in the order it adds them. */
  function Highlight(text: string): (r: seq<Span>)
    ensures forall sp :: sp in r ==> IsSyntax(sp.tag)
  {
    RulesAreSyntax();
    RulesSpans(text, Rules)
  }

  /** No rule of the highlighter adds the search tag. */
  lemma RulesAreSyntax()
    ensures forall rule, t :: rule in Rules && t in rule.tags ==> IsSyntax(t)
  {
  }

  /**
   * One highlight pass over the widget text: drop every syntax mark, keep the
   * search marks, add the marks of the spans the rules produce.
   */
  function HighlightPass(marks: set<Mark>, text: string): (r: set<Mark>)
    ensures forall m: Mark :: m.tag == Search ==> (m in r <==> m in marks)
    ensures forall m: Mark :: IsSyntax(m.tag) ==> (m in r <==> m in MarksOf(Highlight(text)))
  {
    WithTag(marks, Search) + MarksOf(Highlight(text))
  }

  /** A span of tag t of a rule list over a position comes from a rule with t that matched over it. */
  lemma CoverHasRule(text: string, rules: seq<Rule>, t: Tag, pos: nat, sp: Span)
    requires sp in RulesSpans(text, rules) && sp.tag == t && sp.start <= pos < sp.end
    ensures exists rule, rg :: rule in rules && t in rule.tags && rg in Scan(rule.pattern, text, 0) && rg.start <= pos < rg.end
  {
    var rule :| rule in rules && sp.tag in rule.tags && Range(sp.start, sp.end) in Scan(rule.pattern, text, 0);
    assert rule in rules && t in rule.tags && Range(sp.start, sp.end) in Scan(rule.pattern, text, 0);
  }

  /** A rule with tag t that matched over a position gives a span of t over it. */
  lemma RuleHasCover(text: string, rules: seq<Rule>, t: Tag, pos: nat, rule: Rule, rg: Range)
    requires rule in rules && t in rule.tags && rg in Scan(rule.pattern, text, 0) && rg.start <= pos < rg.end
    ensures Span(t, rg.start, rg.end) in RulesSpans(text, rules)
  {
  }

  /** A position is covered by a span of tag t of a rule list exactly when some rule with t matched over it. */
  lemma RulesSpansCover(text: string, rules: seq<Rule>, t: Tag, pos: nat)
    ensures (exists sp :: sp in RulesSpans(text, rules) && sp.tag == t && sp.start <= pos < sp.end) <==>
      exists rule, rg :: rule in rules && t in rule.tags && rg in Scan(rule.pattern, text, 0) && rg.start <= pos < rg.end
  {
    if exists sp :: sp in RulesSpans(text, rules) && sp.tag == t && sp.start <= pos < sp.end {
      var sp :| sp in RulesSpans(text, rules) && sp.tag == t && sp.start <= pos < sp.end;
      CoverHasRule(text, rules, t, pos, sp);
    }
    if exists rule, rg :: rule in rules && t in rule.tags && rg in Scan(rule.pattern, text, 0) && rg.start <= pos < rg.end {
      var rule, rg :| rule in rules && t in rule.tags && rg in Scan(rule.pattern, text, 0) && rg.start <= pos < rg.end;
      RuleHasCover(text, rules, t, pos, rule, rg);
    }
  }

  /** A syntax mark is set by a pass exactly when some rule with that tag matched over its position. */
  lemma PassMarks(marks: set<Mark>, text: string, m: Mark)
    requires IsSyntax(m.tag)
    ensures m in HighlightPass(marks, text) <==>
      exists rule, rg :: rule in Rules && m.tag in rule.tags && rg in Scan(rule.pattern, text, 0) && rg.start <= m.pos < rg.end
  {
    var h := Highlight(text);
    assert m in HighlightPass(marks, text) <==> m in MarksOf(h);
    assert m in MarksOf(h) <==> exists sp :: sp in h && sp.tag == m.tag && sp.start <= m.pos < sp.end;
    RulesSpansCover(text, Rules, m.tag, m.pos);
  }

  /** A match of a rule marks every position of its range with each of the rule's tags. */
  lemma MatchMarksPass(marks: set<Mark>, text: string, rule: Rule, rg: Range, k: nat)
    requires rule in Rules && rg in Scan(rule.pattern, text, 0) && rg.start <= k < rg.end
    ensures forall t :: t in rule.tags ==> Mark(t, k) in HighlightPass(marks, text)
  {
    RulesAreSyntax();
    forall t | t in rule.tags ensures Mark(t, k) in HighlightPass(marks, text) {
      RuleHasCover(text, Rules, t, k, rule, rg);
    }
  }

  /** Every span the highlighter adds is a match of one of its rules, inside the text. */
  lemma SpansAreMatches(text: string, sp: Span)
    requires sp in Highlight(text)
    ensures sp.start < sp.end <= |text| && IsSyntax(sp.tag)
    ensures exists rule :: rule in Rules && sp.tag in rule.tags && MatchAt(rule.pattern, text, sp.start) == Some(sp.end)
  {
    RulesAreSyntax();
    var rule :| rule in Rules && sp.tag in rule.tags && Range(sp.start, sp.end) in Scan(rule.pattern, text, 0);
    ScanRangeIsMatch(rule.pattern, text, 0, Range(sp.start, sp.end));
    var rs := Scan(rule.pattern, text, 0);
    var k :| 0 <= k < |rs| && rs[k] == Range(sp.start, sp.end);
  }

  /** Text on which no rule matches anywhere gets no span. */
  lemma NoMatchNoSpans(text: string)
    requires forall rule, q :: rule in Rules && 0 <= q < |text| ==> MatchAt(rule.pattern, text, q).None?
    ensures Highlight(text) == []
  {
    forall rule | rule in Rules ensures Scan(rule.pattern, text, 0) == [] {
      ScanEmptyIff(rule.pattern, text, 0);
    }
    NothingScannedNoSpans(text, Rules);
  }

  lemma {:induction false} NothingScannedNoSpans(text: string, rules: seq<Rule>)
    requires forall rule :: rule in rules ==> Scan(rule.pattern, text, 0) == []
    ensures RulesSpans(text, rules) == []
  {
    if rules != [] {
      NothingScannedNoSpans(text, rules[1..]);
    }
  }

  /** The syntax marks a pass leaves are exactly those of the highlighter's spans over the text. */
  lemma PassSyntaxMarks(marks: set<Mark>, text: string)
    ensures WithoutTag(HighlightPass(marks, text), Search) == MarksOf(Highlight(text))
  {
  }

  /** The syntax marks after a pass depend on the text alone, not on the tags before it. */
  lemma PassDependsOnTextOnly(m1: set<Mark>, m2: set<Mark>, text: string)
    ensures WithoutTag(HighlightPass(m1, text), Search) == WithoutTag(HighlightPass(m2, text), Search)
  {
  }

  /** Running the pass a second time over the same text changes nothing. */
  lemma PassIdempotent(marks: set<Mark>, text: string)
    ensures HighlightPass(HighlightPass(marks, text), text) == HighlightPass(marks, text)
  {
  }
}
