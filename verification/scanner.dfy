/**
 * `re.finditer` for patterns that never match the empty string (and the Tk
 * search loop, which has the same shape): find the leftmost match at or
 * after the current offset, report it, resume at its end.
 *
 * The scan only needs, for every offset, where the match tried there ends;
 * it is written over that table so that it does not depend on the pattern.
 */
module Scanner {

  import opened Wrappers
  import opened Patterns

  datatype Range = Range(start: nat, end: nat)

  /** t[i] is the end of the match tried at offset i, if the pattern matches there. */
  type Table = seq<Option<nat>>

  /** Every match is non-empty and ends inside the text. */
  predicate WellFormed(t: Table) {
    forall i :: 0 <= i < |t| && t[i].Some? ==> i < t[i].value <= |t|
  }

  /** The table of pattern p over text s. */
  function Matches(p: Pattern, s: string): (t: Table)
    ensures |t| == |s| && WellFormed(t)
    ensures forall i :: 0 <= i < |s| ==> t[i] == MatchAt(p, s, i)
  {
    seq(|s|, i requires 0 <= i < |s| => MatchAt(p, s, i))
  }

  /** The leftmost offset at or after `from` where the table has a match. */
  function FirstIn(t: Table, from: nat): (r: Option<nat>)
    ensures r.Some? ==> from <= r.value < |t| && t[r.value].Some?
    ensures forall q :: from <= q < (if r.Some? then r.value else |t|) ==> t[q].None?
    decreases |t| - from
  {
    if from >= |t| then None
    else if t[from].Some? then Some(from)
    else FirstIn(t, from + 1)
  }

  /** The matches reported by a scan that starts at offset `from`. */
  function ScanTable(t: Table, from: nat): (r: seq<Range>)
    requires WellFormed(t)
    ensures forall k :: 0 <= k < |r| ==> from <= r[k].start < r[k].end <= |t|
    ensures forall k :: 0 <= k < |r| ==> t[r[k].start] == Some(r[k].end)
    ensures forall k :: 0 <= k < |r| - 1 ==> r[k].end <= r[k + 1].start
    decreases |t| - from
  {
    match FirstIn(t, from)
    case None => []
    case Some(i) => [Range(i, t[i].value)] + ScanTable(t, t[i].value)
  }

  /** `re.finditer(p, s)` resumed at offset `from`. */
  function Scan(p: Pattern, s: string, from: nat): (r: seq<Range>)
    ensures forall k :: 0 <= k < |r| ==> from <= r[k].start < r[k].end <= |s|
    ensures forall k :: 0 <= k < |r| - 1 ==> r[k].end <= r[k + 1].start
  {
    ScanTable(Matches(p, s), from)
  }

  /** Every range of a scan is the match of the pattern tried at its start. */
  lemma ScanRangeIsMatch(p: Pattern, s: string, from: nat, rg: Range)
    requires rg in Scan(p, s, from)
    ensures MatchAt(p, s, rg.start) == Some(rg.end)
  {
    var r := Scan(p, s, from);
    var k :| 0 <= k < |r| && r[k] == rg;
    assert Matches(p, s)[rg.start] == MatchAt(p, s, rg.start);
  }

  /** Offset q lies inside one of the ranges. */
  predicate Covered(r: seq<Range>, q: nat) {
    exists k :: 0 <= k < |r| && r[k].start <= q < r[k].end
  }

  /**
   * The defining properties of a left-to-right non-overlapping scan: every
   * range is a match at its start, ranges come in order without overlapping,
   * and no match starts at an offset that no range covers.
   */
  predicate IsScanOf(t: Table, from: nat, r: seq<Range>) {
    && (forall k :: 0 <= k < |r| ==> from <= r[k].start < |t| && t[r[k].start] == Some(r[k].end))
    && (forall k :: 0 <= k < |r| - 1 ==> r[k].end <= r[k + 1].start)
    && (forall q {:trigger Covered(r, q)} :: from <= q < |t| && !Covered(r, q) ==> t[q].None?)
  }

  lemma {:induction false} ScanTableIsScan(t: Table, from: nat)
    requires WellFormed(t)
    ensures IsScanOf(t, from, ScanTable(t, from))
    decreases |t| - from
  {
    var r := ScanTable(t, from);
    match FirstIn(t, from)
    case None =>
    case Some(i) =>
      var e := t[i].value;
      var rest := ScanTable(t, e);
      ScanTableIsScan(t, e);
      assert r == [Range(i, e)] + rest;
      forall q | i <= q < |t| && t[q].Some?
        ensures Covered(r, q)
      {
        if q < e {
          assert r[0].start <= q < r[0].end;
        } else {
          assert Covered(rest, q);
          var k :| 0 <= k < |rest| && rest[k].start <= q < rest[k].end;
          assert r[k + 1] == rest[k];
        }
      }
  }

  /** The properties of IsScanOf determine the ranges: there is exactly one such scan. */
  lemma {:induction false} ScanUnique(t: Table, from: nat, r1: seq<Range>, r2: seq<Range>)
    requires WellFormed(t)
    requires IsScanOf(t, from, r1) && IsScanOf(t, from, r2)
    ensures r1 == r2
    decreases |t| - from
  {
    FirstRangeIsFirstMatch(t, from, r1);
    FirstRangeIsFirstMatch(t, from, r2);
    if r1 != [] {
      var e := r1[0].end;
      TailIsScan(t, from, r1);
      TailIsScan(t, from, r2);
      ScanUnique(t, e, r1[1..], r2[1..]);
      assert r1 == [r1[0]] + r1[1..];
      assert r2 == [r2[0]] + r2[1..];
    }
  }

  /** A scan is empty exactly when nothing matches, and otherwise starts at the leftmost match. */
  lemma FirstRangeIsFirstMatch(t: Table, from: nat, r: seq<Range>)
    requires WellFormed(t) && IsScanOf(t, from, r)
    ensures r == [] <==> FirstIn(t, from).None?
    ensures r != [] ==> r[0].start == FirstIn(t, from).value && r[0].end == t[r[0].start].value
  {
    match FirstIn(t, from)
    case None =>
    case Some(i) =>
      assert Covered(r, i);
      var k :| 0 <= k < |r| && r[k].start <= i < r[k].end;
      if k > 0 {
        EndBeforeLater(t, from, r, 0, k);
      }
  }

  /** Dropping the first range of a scan leaves the scan from its end. */
  lemma TailIsScan(t: Table, from: nat, r: seq<Range>)
    requires WellFormed(t) && IsScanOf(t, from, r) && |r| > 0
    ensures IsScanOf(t, r[0].end, r[1..])
  {
    var u := r[1..];
    forall k | 0 <= k < |u|
      ensures r[0].end <= u[k].start
    {
      EndBeforeLater(t, from, r, 0, k + 1);
    }
    forall q | r[0].end <= q < |t| && !Covered(u, q)
      ensures t[q].None?
    {
      assert !Covered(r, q);
    }
  }

  /** In a scan every range ends before any later range starts. */
  lemma {:induction false} EndBeforeLater(t: Table, from: nat, r: seq<Range>, j: nat, k: nat)
    requires WellFormed(t) && IsScanOf(t, from, r)
    requires j < k < |r|
    ensures r[j].end <= r[k].start
    decreases k - j
  {
    if k > j + 1 {
      EndBeforeLater(t, from, r, j, k - 1);
      assert r[k - 1].start < r[k - 1].end;
    }
  }

  /** `Scan` is the one left-to-right non-overlapping scan of the pattern's matches. */
  lemma ScanCharacterized(p: Pattern, s: string, from: nat, r: seq<Range>)
    ensures Scan(p, s, from) == r <==> IsScanOf(Matches(p, s), from, r)
  {
    ScanTableIsScan(Matches(p, s), from);
    if IsScanOf(Matches(p, s), from, r) {
      ScanUnique(Matches(p, s), from, r, Scan(p, s, from));
    }
  }

  /** A scan finds nothing exactly when the pattern matches nowhere from `from` on. */
  lemma ScanEmptyIff(p: Pattern, s: string, from: nat)
    ensures Scan(p, s, from) == [] <==> forall q :: from <= q < |s| ==> MatchAt(p, s, q).None?
  {
    var t := Matches(p, s);
    ScanTableIsScan(t, from);
    var r := Scan(p, s, from);
    if r != [] {
      assert t[r[0].start].Some?;
    } else {
      forall q | from <= q < |s| ensures MatchAt(p, s, q).None? {
        assert !Covered(r, q);
        assert t[q] == MatchAt(p, s, q);
      }
    }
  }

  /** No match starts strictly inside another match. */
  predicate NoMatchInside(t: Table) {
    forall i, q :: 0 <= i < q < |t| && t[i].Some? && q < t[i].value ==> t[q].None?
  }

  /** The number of offsets in [lo, hi) where the table has a match. */
  function CountSome(t: Table, lo: nat, hi: nat): (n: nat)
    requires lo <= hi <= |t|
    ensures n <= hi - lo
    decreases hi - lo
  {
    if lo == hi then 0 else (if t[lo].Some? then 1 else 0) + CountSome(t, lo + 1, hi)
  }

  lemma {:induction false} CountSomeSplit(t: Table, lo: nat, mid: nat, hi: nat)
    requires lo <= mid <= hi <= |t|
    ensures CountSome(t, lo, hi) == CountSome(t, lo, mid) + CountSome(t, mid, hi)
    decreases mid - lo
  {
    if lo < mid {
      CountSomeSplit(t, lo + 1, mid, hi);
    }
  }

  lemma {:induction false} CountSomeNone(t: Table, lo: nat, hi: nat)
    requires lo <= hi <= |t|
    requires forall q :: lo <= q < hi ==> t[q].None?
    ensures CountSome(t, lo, hi) == 0
    decreases hi - lo
  {
    if lo < hi {
      CountSomeNone(t, lo + 1, hi);
    }
  }

  /** When matches cannot nest, the scan reports every match of the table. */
  lemma {:induction false} ScanCountsMatches(t: Table, from: nat)
    requires WellFormed(t) && NoMatchInside(t) && from <= |t|
    ensures |ScanTable(t, from)| == CountSome(t, from, |t|)
    decreases |t| - from
  {
    match FirstIn(t, from)
    case None =>
      CountSomeNone(t, from, |t|);
    case Some(i) =>
      var e := t[i].value;
      ScanCountsMatches(t, e);
      CountSomeSplit(t, from, i, |t|);
      CountSomeNone(t, from, i);
      CountSomeSplit(t, i + 1, e, |t|);
      CountSomeNone(t, i + 1, e);
  }
}
