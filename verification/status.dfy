/**
 * The status line after a refresh: the number of characters of the content
 * and the number of `\b\w+\b` matches in it, which are the maximal runs of
 * word characters.
 */
module Status {

  import opened Text
  import opened Patterns
  import opened Scanner

  /** What the status label shows. */
  datatype StatusLine =
    | Ready(chars: nat, words: nat)  // after a refresh or a new document
    | Opened(name: string)           // after opening a file
    | Saved(name: string)            // after saving a file

  /** A run of word characters begins at offset i. */
  predicate RunStart(s: string, i: nat) {
    i < |s| && IsWordChar(s[i]) && (i == 0 || !IsWordChar(s[i - 1]))
  }

  /** The number of word runs beginning in [lo, hi): the reference count of words. */
  function RunStarts(s: string, lo: nat, hi: nat): nat
    requires lo <= hi <= |s|
    decreases hi - lo
  {
    if lo == hi then 0 else (if RunStart(s, lo) then 1 else 0) + RunStarts(s, lo + 1, hi)
  }

  /** `len(re.findall(r'\b\w+\b', content)) if content else 0`. */
  function WordCount(content: string): (n: nat)
    ensures n <= |content|
  {
    if content == [] then 0
    else
      WordMatchesDoNotNest(content);
      ScanCountsMatches(Matches(WordRun, content), 0);
      |Scan(WordRun, content, 0)|
  }

  /** The status a refresh shows for the content. */
  function StatusOf(content: string): (r: StatusLine)
    ensures r.Ready? && r.chars == |content|
    ensures r.words == 0 <==> forall i :: 0 <= i < |content| ==> !IsWordChar(content[i])
  {
    WordsIffWordChar(content);
    Ready(|content|, WordCount(content))
  }

  /** The `\w+` pattern matches exactly at run starts, up to the end of the run. */
  lemma WordMatchAt(s: string, i: nat)
    requires i < |s|
    ensures MatchAt(WordRun, s, i).Some? <==> RunStart(s, i)
  {
  }

  /** A word-run match never starts inside another one. */
  lemma WordMatchesDoNotNest(s: string)
    ensures NoMatchInside(Matches(WordRun, s))
  {
    var t := Matches(WordRun, s);
    forall i, q | 0 <= i < q < |t| && t[i].Some? && q < t[i].value
      ensures t[q].None?
    {
      assert t[i].value == RunEnd(s, i, Word);
      assert IsWordChar(s[q - 1]);
    }
  }

  lemma {:induction false} CountIsRunStarts(s: string, lo: nat)
    requires lo <= |s|
    ensures CountSome(Matches(WordRun, s), lo, |s|) == RunStarts(s, lo, |s|)
    decreases |s| - lo
  {
    if lo < |s| {
      WordMatchAt(s, lo);
      CountIsRunStarts(s, lo + 1);
    }
  }

  /** The word count is the number of maximal runs of word characters. */
  lemma WordCountIsRunStarts(s: string)
    ensures WordCount(s) == RunStarts(s, 0, |s|)
  {
    if s != [] {
      WordMatchesDoNotNest(s);
      ScanCountsMatches(Matches(WordRun, s), 0);
      CountIsRunStarts(s, 0);
    }
  }

  lemma {:induction false} RunStartsZeroIff(s: string, lo: nat)
    requires lo <= |s|
    ensures RunStarts(s, lo, |s|) == 0 <==> forall i :: lo <= i < |s| ==> !RunStart(s, i)
    decreases |s| - lo
  {
    if lo < |s| {
      RunStartsZeroIff(s, lo + 1);
    }
  }

  /** Every word character belongs to a run that starts at or before it. */
  lemma {:induction false} RunStartBefore(s: string, i: nat)
    requires i < |s| && IsWordChar(s[i])
    ensures exists j: nat :: j <= i && RunStart(s, j)
  {
    if !RunStart(s, i) {
      RunStartBefore(s, i - 1);
    }
  }

  /** There are no words exactly when there is no word character. */
  lemma WordsIffWordChar(s: string)
    ensures WordCount(s) == 0 <==> forall i :: 0 <= i < |s| ==> !IsWordChar(s[i])
  {
    WordCountIsRunStarts(s);
    RunStartsZeroIff(s, 0);
    if exists i :: 0 <= i < |s| && IsWordChar(s[i]) {
      var i :| 0 <= i < |s| && IsWordChar(s[i]);
      RunStartBefore(s, i);
      var j: nat :| j <= i && RunStart(s, j);
      assert !(forall k :: 0 <= k < |s| ==> !RunStart(s, k));
    }
  }

  lemma {:induction false} RunStartsSplit(s: string, lo: nat, mid: nat, hi: nat)
    requires lo <= mid <= hi <= |s|
    ensures RunStarts(s, lo, hi) == RunStarts(s, lo, mid) + RunStarts(s, mid, hi)
    decreases mid - lo
  {
    if lo < mid {
      RunStartsSplit(s, lo + 1, mid, hi);
    }
  }

  /** Run starts of a text are run starts of any text it begins, read at the same offsets. */
  lemma {:induction false} RunStartsPrefix(a: string, s: string, lo: nat)
    requires |a| <= |s| && s[..|a|] == a && lo <= |a|
    ensures RunStarts(s, lo, |a|) == RunStarts(a, lo, |a|)
    decreases |a| - lo
  {
    if lo < |a| {
      assert s[lo] == a[lo];
      if lo > 0 {
        assert s[lo - 1] == a[lo - 1];
      }
      RunStartsPrefix(a, s, lo + 1);
    }
  }

  /** Run starts after a non-word character are those of the text that follows it. */
  lemma {:induction false} RunStartsSuffix(s: string, d: nat, b: string, lo: nat)
    requires d + |b| == |s| && s[d..] == b && lo <= |b|
    requires d > 0 && !IsWordChar(s[d - 1])
    ensures RunStarts(s, d + lo, |s|) == RunStarts(b, lo, |b|)
    decreases |b| - lo
  {
    if lo < |b| {
      assert s[d + lo] == b[lo];
      if lo > 0 {
        assert s[d + lo - 1] == b[lo - 1];
      }
      RunStartsSuffix(s, d, b, lo + 1);
    }
  }

  /** Two texts joined by a non-word character have as many words as both together. */
  lemma WordCountJoin(a: string, c: char, b: string)
    requires !IsWordChar(c)
    ensures WordCount(a + [c] + b) == WordCount(a) + WordCount(b)
  {
    var s := a + [c] + b;
    WordCountIsRunStarts(s);
    WordCountIsRunStarts(a);
    WordCountIsRunStarts(b);
    RunStartsSplit(s, 0, |a|, |s|);
    RunStartsSplit(s, |a|, |a| + 1, |s|);
    assert s[..|a|] == a;
    RunStartsPrefix(a, s, 0);
    assert s[|a| + 1..] == b;
    RunStartsSuffix(s, |a| + 1, b, 0);
    assert !RunStart(s, |a|);
  }

  /** A hyphen is not a word character, so "a-b" counts as two words, not one. */
  lemma HyphenSeparatesWords()
    ensures WordCount("a-b") == 2
  {
    WordCountJoin("a", '-', "b");
    assert "a" + ['-'] + "b" == "a-b";
    WordCountIsRunStarts("a");
    WordCountIsRunStarts("b");
    assert RunStart("a", 0) && RunStart("b", 0);
  }
}
