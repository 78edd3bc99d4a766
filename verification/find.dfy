/**
 * The find dialog's search: every case-insensitive occurrence of the query,
 * left to right, each search resuming where the previous occurrence ended,
 * tagged `search` and counted.
 */
module Find {

  import opened Wrappers
  import opened Text
  import opened Tags
  import opened Patterns
  import opened Scanner

  /** What the dialog reports after a search. */
  datatype Outcome =
    | EmptyQuery        // the "enter something to find" warning; nothing else happens
    | Found(count: nat) // "found N matches", N > 0
    | NotFound          // "no match found"

  /** The occurrences a search for the query tags, in order. */
  function Hits(buffer: string, query: string): (r: seq<Range>)
    ensures forall k :: 0 <= k < |r| ==> r[k].start < r[k].end <= |buffer|
    ensures forall k :: 0 <= k < |r| - 1 ==> r[k].end <= r[k + 1].start
  {
    Scan(Literal(query), buffer, 0)
  }

  /**
   * The text widget's `search(query, from, stopindex=END, nocase=True)`:
   * the first offset at or after `from` where the query occurs, ignoring case.
   */
  method SearchFrom(text: string, query: string, from: nat) returns (pos: Option<nat>)
    requires |query| > 0
    ensures pos == FirstIn(Matches(Literal(query), text), from)
  {
    var t := Matches(Literal(query), text);
    var i := from;
    while i < |text|
      invariant from <= i
      invariant forall q :: from <= q < i && q < |text| ==> t[q].None?
      decreases |text| - i
    {
      if FoldsTo(text, i, query) {
        assert t[i] == MatchAt(Literal(query), text, i);
        return Some(i);
      }
      assert t[i] == MatchAt(Literal(query), text, i);
      i := i + 1;
    }
    return None;
  }

  /**
   * `do_search`: for a non-empty query, drop the old search marks, then tag
   * and count the occurrences; other tags are left alone.
   */
  method DoSearch(buffer: string, query: string, marks: set<Mark>) returns (outcome: Outcome, after: set<Mark>)
    ensures query == [] ==> outcome == EmptyQuery && after == marks
    ensures query != [] ==> outcome == (if |Hits(buffer, query)| > 0 then Found(|Hits(buffer, query)|) else NotFound)
    ensures query != [] ==> forall m: Mark :: m.tag != Search ==> (m in after <==> m in marks)
    ensures query != [] ==> forall m: Mark :: m.tag == Search ==>
      (m in after <==> exists rg :: rg in Hits(buffer, query) && rg.start <= m.pos < rg.end)
  {
    if query == [] {
      return EmptyQuery, marks;
    }
    var found, count := CollectHits(buffer, query);
    after := SearchMarks(marks, found);
    outcome := if count > 0 then Found(count) else NotFound;
  }

  /**
   * The loop of `do_search`: search from the start, and after each
   * occurrence go on from its end, counting as it goes.
   */
  method CollectHits(buffer: string, query: string) returns (found: seq<Range>, count: nat)
    requires query != []
    ensures found == Hits(buffer, query) && count == |found|
  {
    var pos := 0;
    found, count := [], 0;
    while true
      invariant pos <= |buffer|
      invariant found + Scan(Literal(query), buffer, pos) == Hits(buffer, query)
      invariant count == |found|
      decreases |buffer| - pos
    {
      var next := SearchFrom(buffer, query, pos);
      if next.None? {
        ScanStop(buffer, query, pos);
        break;
      }
      var i := next.value;
      ScanAdvance(buffer, query, found, pos, i);
      found := found + [Range(i, i + |query|)];
      pos := i + |query|;
      count := count + 1;
    }
  }

  /** A search that finds the query at i reports it, then goes on from its end. */
  lemma ScanStep(buffer: string, query: string, pos: nat, i: nat)
    requires |query| > 0 && FirstIn(Matches(Literal(query), buffer), pos) == Some(i)
    ensures pos <= i && i + |query| <= |buffer|
    ensures Scan(Literal(query), buffer, pos) == [Range(i, i + |query|)] + Scan(Literal(query), buffer, i + |query|)
  {
    var t := Matches(Literal(query), buffer);
    assert t[i] == MatchAt(Literal(query), buffer, i);
    LiteralMatchEnd(query, buffer, i);
    assert Scan(Literal(query), buffer, pos) == ScanTable(t, pos) == [Range(i, t[i].value)] + ScanTable(t, t[i].value);
  }

  /** A literal that matches at i ends |query| characters later. */
  lemma LiteralMatchEnd(query: string, buffer: string, i: nat)
    requires MatchAt(Literal(query), buffer, i).Some?
    ensures MatchAt(Literal(query), buffer, i) == Some(i + |query|)
  {
  }

  /** Reporting the occurrence at i and going on from its end keeps the loop's invariant. */
  lemma ScanAdvance(buffer: string, query: string, found: seq<Range>, pos: nat, i: nat)
    requires |query| > 0 && FirstIn(Matches(Literal(query), buffer), pos) == Some(i)
    requires found + Scan(Literal(query), buffer, pos) == Hits(buffer, query)
    ensures pos < i + |query| <= |buffer|
    ensures (found + [Range(i, i + |query|)]) + Scan(Literal(query), buffer, i + |query|) == Hits(buffer, query)
  {
    ScanStep(buffer, query, pos, i);
    var rest := Scan(Literal(query), buffer, i + |query|);
    assert (found + [Range(i, i + |query|)]) + rest == found + ([Range(i, i + |query|)] + rest);
  }

  /** A search that finds nothing more ends the scan. */
  lemma ScanStop(buffer: string, query: string, pos: nat)
    requires FirstIn(Matches(Literal(query), buffer), pos).None?
    ensures Scan(Literal(query), buffer, pos) == []
  {
  }

  /** The marks after a search: the old ones without `search`, then `search` over every occurrence. */
  function SearchMarks(marks: set<Mark>, found: seq<Range>): (r: set<Mark>)
    ensures forall m: Mark :: m.tag != Search ==> (m in r <==> m in marks)
    ensures forall m: Mark :: m.tag == Search ==>
      (m in r <==> exists rg :: rg in found && rg.start <= m.pos < rg.end)
  {
    var spans := SearchSpans(found);
    forall m: Mark | m.tag == Search && m in MarksOf(spans)
      ensures exists rg :: rg in found && rg.start <= m.pos < rg.end
    {
      var sp :| sp in spans && sp.tag == m.tag && sp.start <= m.pos < sp.end;
      assert Range(sp.start, sp.end) in found;
    }
    forall m: Mark, rg | m.tag == Search && rg in found && rg.start <= m.pos < rg.end
      ensures m in MarksOf(spans)
    {
      assert Span(Search, rg.start, rg.end) in spans;
    }
    WithoutTag(marks, Search) + MarksOf(spans)
  }

  /** One `tag_add('search', …)` per occurrence. */
  function SearchSpans(found: seq<Range>): (r: seq<Span>)
    ensures forall sp :: sp in r <==> sp.tag == Search && Range(sp.start, sp.end) in found
  {
    if found == [] then [] else [Span(Search, found[0].start, found[0].end)] + SearchSpans(found[1..])
  }

  /** `close_search`: closing the dialog removes every search mark and nothing else. */
  function CloseSearch(marks: set<Mark>): (r: set<Mark>)
    ensures forall m :: m in r <==> m in marks && m.tag != Search
  {
    WithoutTag(marks, Search)
  }

  /** Each hit is an occurrence of the query, ignoring case, exactly as long as the query. */
  lemma HitIsOccurrence(buffer: string, query: string, rg: Range)
    requires rg in Hits(buffer, query)
    ensures |query| > 0 && rg.end == rg.start + |query| && FoldsTo(buffer, rg.start, query)
  {
    ScanRangeIsMatch(Literal(query), buffer, 0, rg);
  }

  /** Hits come in increasing order and do not overlap. */
  lemma HitsDisjoint(buffer: string, query: string, j: nat, k: nat)
    requires j < k < |Hits(buffer, query)|
    ensures Hits(buffer, query)[j].end <= Hits(buffer, query)[k].start
  {
    var t := Matches(Literal(query), buffer);
    ScanTableIsScan(t, 0);
    EndBeforeLater(t, 0, Hits(buffer, query), j, k);
  }

  /** An occurrence that is not a hit overlaps an earlier hit. */
  lemma MissedOccurrenceOverlaps(buffer: string, query: string, q: nat)
    requires |query| > 0 && FoldsTo(buffer, q, query)
    ensures Covered(Hits(buffer, query), q)
  {
    var t := Matches(Literal(query), buffer);
    ScanTableIsScan(t, 0);
    assert t[q] == MatchAt(Literal(query), buffer, q);
  }

  /** A search finds something exactly when the query occurs somewhere, ignoring case. */
  lemma FoundIff(buffer: string, query: string)
    requires |query| > 0
    ensures |Hits(buffer, query)| > 0 <==> exists q :: 0 <= q < |buffer| && FoldsTo(buffer, q, query)
  {
    ScanEmptyIff(Literal(query), buffer, 0);
    if exists q :: 0 <= q < |buffer| && FoldsTo(buffer, q, query) {
      var q :| 0 <= q < |buffer| && FoldsTo(buffer, q, query);
      assert MatchAt(Literal(query), buffer, q).Some?;
    }
  }

  /** A search and a close leave the tags as a close alone does. */
  lemma SearchThenClose(buffer: string, query: string, marks: set<Mark>, after: set<Mark>)
    requires query != []
    requires forall m: Mark :: m.tag != Search ==> (m in after <==> m in marks)
    ensures CloseSearch(after) == CloseSearch(marks)
  {
  }
}
