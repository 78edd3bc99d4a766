/**
 * Format insertion from the toolbar and the format menu: wrap the selection
 * in a prefix and a suffix and select the result, or, with nothing
 * selected, insert prefix and suffix at the cursor and put the cursor
 * between them.
 *
 * Offsets count into the widget text, the buffer followed by Tk's final
 * newline. A selection may take in that final newline (select-all does),
 * so it may end one past the buffer; the insertion cursor never passes it.
 */
module Format {

  import opened Wrappers
  import opened Text

  /** A non-empty selection [start, end) of the widget text. */
  datatype Selection = Selection(start: nat, end: nat)

  /** What `insert_format` reads and changes: the buffer, the selection and the insertion cursor. */
  datatype View = View(buffer: string, sel: Option<Selection>, cursor: nat)

  /**
   * Indices the text widget can hold: the cursor sits in the buffer or just
   * after it, and a selection covers at least one character of the widget
   * text, at most up to and including the final newline.
   */
  predicate Valid(v: View) {
    && v.cursor <= |v.buffer|
    && (v.sel.Some? ==> v.sel.value.start < v.sel.value.end <= |v.buffer| + 1)
  }

  /** Whether the selection takes in the widget's final newline. */
  predicate TakesFinalNewline(v: View) {
    v.sel.Some? && v.sel.value.end > |v.buffer|
  }

  /**
   * Whether the selection runs to "end" from the start of a line other than
   * the first, as a triple-click on the last line selects. Tk reads such a
   * delete as one of whole lines and, keeping its final newline, deletes the
   * newline before the selection instead, which joins the line to the one
   * above.
   */
  predicate JoinsLine(v: View) {
    TakesFinalNewline(v) && At(v.buffer, v.sel.value.start - 1, '\n')
  }

  /**
   * Where Tk's `delete` of [s, e) starts: at s, or one back over the
   * preceding newline when the range runs to "end" from a line start other
   * than the first.
   */
  function DeleteStart(buffer: string, s: nat, e: nat): (d: nat)
    requires s < e <= |buffer| + 1
    ensures d <= s && d <= |buffer|
    ensures d < s <==> e > |buffer| && At(buffer, s - 1, '\n')
    ensures d < s ==> d + 1 == s && buffer[d] == '\n'
  {
    if e > |buffer| && At(buffer, s - 1, '\n') then s - 1 else s
  }

  /**
   * Where Tk's `delete` of [s, e) stops: it never removes the final newline,
   * so a range that ends past the buffer stops at the buffer's end.
   */
  function DeleteEnd(buffer: string, e: nat): (d: nat)
    ensures d <= |buffer| && d <= e
    ensures d == e <==> e <= |buffer|
  {
    if e <= |buffer| then e else |buffer|
  }

  /**
   * Where a mark with right gravity at offset c ends up when [s, e) is
   * replaced by len characters: before the replaced text it stays, inside or
   * at its edges it ends up after the inserted text, after it it shifts.
   */
  function Gravity(c: nat, s: nat, e: nat, len: nat): (r: nat)
    requires s <= e
    ensures c < s ==> r == c
    ensures s <= c ==> s + len <= r && r - (s + len) == (if c <= e then 0 else c - e)
  {
    if c < s then c else if c <= e then s + len else c - (e - s) + len
  }

  /**
   * The mark keeps its neighbours: one before the replaced range has the same
   * text before it, any other has the same text after it as before the
   * edit, counted from the end of the replaced range.
   */
  lemma GravityKeepsText(buffer: string, s: nat, e: nat, w: string, c: nat)
    requires s <= e <= |buffer| && c <= |buffer|
    ensures var b, r := buffer[..s] + w + buffer[e..], Gravity(c, s, e, |w|);
      && r <= |b|
      && (c < s ==> b[..r] == buffer[..c])
      && (s <= c <= e ==> b[r..] == buffer[e..])
      && (e < c ==> b[r..] == buffer[c..])
  {
    var b, r := buffer[..s] + w + buffer[e..], Gravity(c, s, e, |w|);
    assert b == (buffer[..s] + w) + buffer[e..];
    if c < s {
      assert b[..r] == buffer[..s][..c];
    } else if e < c {
      assert b[r..] == buffer[e..][c - e..];
    }
  }

  /**
   * The buffer after the selection [s, e) of the widget text is replaced by
   * prefix, selected text and suffix. The selected text is read from the
   * widget text, so a selection that takes in the final newline carries it
   * into the markup; the delete runs from `DeleteStart` to `DeleteEnd`, and
   * the insert goes where the delete started.
   */
  function WrapBuffer(buffer: string, s: nat, e: nat, prefix: string, suffix: string): (b: string)
    requires s < e <= |buffer| + 1
    ensures var d, wrapped := DeleteStart(buffer, s, e), prefix + WidgetText(buffer)[s..e] + suffix;
      && |b| == d + |wrapped| + |buffer| - DeleteEnd(buffer, e)
      && b[..d] == buffer[..d]
      && b[d..d + |wrapped|] == wrapped
      && b[d + |wrapped|..] == buffer[DeleteEnd(buffer, e)..]
      && |wrapped| == |prefix| + (e - s) + |suffix|
    ensures e > |buffer| ==> b[DeleteStart(buffer, s, e) + |prefix| + (e - 1 - s)] == '\n'
  {
    var d0, d1 := DeleteStart(buffer, s, e), DeleteEnd(buffer, e);
    var wrapped := prefix + WidgetText(buffer)[s..e] + suffix;
    var b := buffer[..d0] + wrapped + buffer[d1..];
    assert b[..d0] == buffer[..d0];
    assert b[d0..d0 + |wrapped|] == wrapped;
    assert b[d0 + |wrapped|..] == buffer[d1..];
    assert e > |buffer| ==> b[d0 + |prefix| + (e - 1 - s)] == wrapped[|prefix| + (e - 1 - s)] == '\n';
    b
  }

  /**
   * The selection `insert_format` sets again: from `sel_start` to
   * `sel_start` plus the markup's length. After a delete that joined lines,
   * the saved index "L.0" names the start of the line after the first
   * newline of the markup, and the count runs past the text, so Tk clamps it
   * to "end".
   */
  function Reselect(b: string, d: nat, s: nat, len: nat): (r: Selection)
    requires 0 < len && d <= s && d + len <= |b|
    requires d < s ==> d + len == |b| && exists j :: d <= j < |b| && b[j] == '\n'
    ensures r.start < r.end <= |b| + 1
    ensures d == s ==> r == Selection(s, s + len)
    ensures d < s ==> r.end == |b| + 1 && r.start == LineEnd(b, d) + 1
  {
    if d < s then
      var l := LineEnd(b, d);
      assert l < |b|;
      Selection(l + 1, |b| + 1)
    else
      Selection(s, s + len)
  }

  /**
   * `insert_format` with a selection: the selected widget text wrapped in
   * prefix and suffix replaces what the delete removed and is selected
   * again, and the cursor keeps to its side of the edit.
   */
  function WrapSelection(v: View, prefix: string, suffix: string): (r: View)
    requires Valid(v) && v.sel.Some?
    ensures Valid(r)
    ensures var s, e := v.sel.value.start, v.sel.value.end;
      var d, wrapped := DeleteStart(v.buffer, s, e), prefix + WidgetText(v.buffer)[s..e] + suffix;
      && |r.buffer| == d + |wrapped| + |v.buffer| - DeleteEnd(v.buffer, e)
      && r.buffer[..d] == v.buffer[..d]
      && r.buffer[d..d + |wrapped|] == wrapped
      && r.buffer[d + |wrapped|..] == v.buffer[DeleteEnd(v.buffer, e)..]
      && (d == s ==> r.sel == Some(Selection(s, s + |wrapped|)))
      && (d < s ==> r.sel == Some(Selection(LineEnd(r.buffer, d) + 1, |r.buffer| + 1)))
      && (v.cursor < d ==> r.cursor == v.cursor)
      && (d <= v.cursor <= e ==> r.cursor == d + |wrapped|)
  {
    var s, e := v.sel.value.start, v.sel.value.end;
    var d := DeleteStart(v.buffer, s, e);
    var len := |prefix| + (e - s) + |suffix|;
    var b := WrapBuffer(v.buffer, s, e, prefix, suffix);
    View(b, Some(Reselect(b, d, s, len)), Gravity(v.cursor, d, DeleteEnd(v.buffer, e), len))
  }

  /**
   * `insert_format(prefix, suffix)`: `WrapSelection` with a selection;
   * without one, prefix and suffix go in at the cursor, which ends up
   * between them.
   */
  function InsertFormat(v: View, prefix: string, suffix: string): (r: View)
    requires Valid(v)
    ensures Valid(r)
    ensures v.sel.None? ==>
      && r.sel.None?
      && r.cursor == v.cursor + |prefix|
      && r.buffer[..r.cursor] == v.buffer[..v.cursor] + prefix
      && r.buffer[r.cursor..] == suffix + v.buffer[v.cursor..]
  {
    if v.sel.Some? then WrapSelection(v, prefix, suffix)
    else View(InsertBuffer(v.buffer, v.cursor, prefix, suffix), None, v.cursor + |prefix|)
  }

  /**
   * The buffer a format leaves, case by case: a selection inside the buffer
   * is wrapped in place; one that takes in the final newline carries it into
   * the markup; one that joins lines also loses the newline before it.
   */
  lemma FormatShapes(v: View, prefix: string, suffix: string)
    requires Valid(v) && v.sel.Some?
    ensures var r, s, e := InsertFormat(v, prefix, suffix), v.sel.value.start, v.sel.value.end;
      && (JoinsLine(v) <==> DeleteStart(v.buffer, s, e) < s)
      && (!TakesFinalNewline(v) ==>
           && |r.buffer| == |v.buffer| + |prefix| + |suffix|
           && r.buffer == v.buffer[..s] + prefix + v.buffer[s..e] + suffix + v.buffer[e..])
      && (TakesFinalNewline(v) && !JoinsLine(v) ==>
           && |r.buffer| == |v.buffer| + |prefix| + |suffix| + 1
           && r.buffer == v.buffer[..s] + prefix + v.buffer[s..] + "\n" + suffix)
      && (JoinsLine(v) ==>
           && |r.buffer| == |v.buffer| + |prefix| + |suffix|
           && r.buffer == v.buffer[..s - 1] + prefix + v.buffer[s..] + "\n" + suffix)
  {
    var s, e := v.sel.value.start, v.sel.value.end;
    if !TakesFinalNewline(v) {
      ShapeInside(v, prefix, suffix);
    } else if JoinsLine(v) {
      ShapeJoined(v, prefix, suffix);
    } else {
      ShapeFinal(v, prefix, suffix);
    }
  }

  /** A buffer cut at d and d + |w| is the three pieces joined again. */
  lemma Spliced(b: string, d: nat, w: string, x: string, y: string)
    requires d + |w| <= |b| && b[..d] == x && b[d..d + |w|] == w && b[d + |w|..] == y
    ensures b == x + w + y
  {
    Rejoin(b, d, d + |w|);
  }

  lemma ShapeInside(v: View, prefix: string, suffix: string)
    requires Valid(v) && v.sel.Some? && !TakesFinalNewline(v)
    ensures var r, s, e := InsertFormat(v, prefix, suffix), v.sel.value.start, v.sel.value.end;
      && |r.buffer| == |v.buffer| + |prefix| + |suffix|
      && r.buffer == v.buffer[..s] + prefix + v.buffer[s..e] + suffix + v.buffer[e..]
  {
    var r, s, e := InsertFormat(v, prefix, suffix), v.sel.value.start, v.sel.value.end;
    assert WidgetText(v.buffer)[s..e] == v.buffer[s..e];
    var w := prefix + v.buffer[s..e] + suffix;
    Spliced(r.buffer, s, w, v.buffer[..s], v.buffer[e..]);
    assert v.buffer[..s] + w + v.buffer[e..] == v.buffer[..s] + prefix + v.buffer[s..e] + suffix + v.buffer[e..];
  }

  lemma ShapeFinal(v: View, prefix: string, suffix: string)
    requires Valid(v) && TakesFinalNewline(v) && !JoinsLine(v)
    ensures var r, s := InsertFormat(v, prefix, suffix), v.sel.value.start;
      && |r.buffer| == |v.buffer| + |prefix| + |suffix| + 1
      && r.buffer == v.buffer[..s] + prefix + v.buffer[s..] + "\n" + suffix
  {
    var r, s, e := InsertFormat(v, prefix, suffix), v.sel.value.start, v.sel.value.end;
    assert WidgetText(v.buffer)[s..e] == v.buffer[s..] + "\n";
    var w := prefix + (v.buffer[s..] + "\n") + suffix;
    Spliced(r.buffer, s, w, v.buffer[..s], []);
    assert v.buffer[..s] + w + [] == v.buffer[..s] + prefix + v.buffer[s..] + "\n" + suffix;
  }

  lemma ShapeJoined(v: View, prefix: string, suffix: string)
    requires Valid(v) && JoinsLine(v)
    ensures var r, s := InsertFormat(v, prefix, suffix), v.sel.value.start;
      && |r.buffer| == |v.buffer| + |prefix| + |suffix|
      && r.buffer == v.buffer[..s - 1] + prefix + v.buffer[s..] + "\n" + suffix
  {
    var r, s, e := InsertFormat(v, prefix, suffix), v.sel.value.start, v.sel.value.end;
    assert WidgetText(v.buffer)[s..e] == v.buffer[s..] + "\n";
    var w := prefix + (v.buffer[s..] + "\n") + suffix;
    Spliced(r.buffer, s - 1, w, v.buffer[..s - 1], []);
    assert v.buffer[..s - 1] + w + [] == v.buffer[..s - 1] + prefix + v.buffer[s..] + "\n" + suffix;
  }

  /** The buffer after prefix and suffix go in together at offset c. */
  function InsertBuffer(buffer: string, c: nat, prefix: string, suffix: string): (b: string)
    requires c <= |buffer|
    ensures |b| == |buffer| + |prefix| + |suffix|
    ensures b[..c + |prefix|] == buffer[..c] + prefix
    ensures b[c + |prefix|..] == suffix + buffer[c..]
  {
    var b := buffer[..c] + prefix + suffix + buffer[c..];
    assert b[..c + |prefix|] == buffer[..c] + prefix;
    assert b[c + |prefix|..] == suffix + buffer[c..];
    b
  }

  /**
   * Removing the prefix and the suffix again: drop |prefix| characters at the
   * start of the selection and |suffix| at its end, or around the cursor.
   */
  function RemoveFormat(r: View, plen: nat, slen: nat): (u: View)
    requires Valid(r)
    requires r.sel.Some? ==> r.sel.value.start + plen + slen <= r.sel.value.end <= |r.buffer|
    requires r.sel.None? ==> plen <= r.cursor && r.cursor + slen <= |r.buffer|
    ensures r.sel.Some? ==> |u.buffer| + plen + slen == |r.buffer|
    ensures r.sel.None? ==> u.cursor + plen == r.cursor && |u.buffer| + plen + slen == |r.buffer|
  {
    match r.sel
    case Some(Selection(s, e)) =>
      View(r.buffer[..s] + r.buffer[s + plen..e - slen] + r.buffer[e..], Some(Selection(s, e - plen - slen)), r.cursor)
    case None =>
      View(r.buffer[..r.cursor - plen] + r.buffer[r.cursor + slen..], None, r.cursor - plen)
  }

  /**
   * The result of a format whose selection joined lines, with the markup
   * selected: it starts where the delete started and runs to the buffer's end.
   */
  function MarkupOfJoined(v: View, prefix: string, suffix: string): (m: View)
    requires Valid(v) && JoinsLine(v)
    ensures Valid(m) && m.sel.Some?
    ensures m.buffer == InsertFormat(v, prefix, suffix).buffer
    ensures m.sel.value.start + 1 == v.sel.value.start && m.sel.value.end == |m.buffer|
    ensures m.sel.value.start + |prefix| + |suffix| <= m.sel.value.end
  {
    var r := InsertFormat(v, prefix, suffix);
    r.(sel := Some(Selection(v.sel.value.start - 1, |r.buffer|)))
  }

  /**
   * Removing the format gives back the selection and the buffer, except that
   * a selection that took in the final newline leaves that newline behind,
   * and one that joined lines leaves the newline before it moved behind it.
   */
  lemma RemoveUndoesInsert(v: View, prefix: string, suffix: string)
    requires Valid(v)
    ensures var r := InsertFormat(v, prefix, suffix);
      !JoinsLine(v) ==>
      && (r.sel.Some? ==> r.sel.value.start + |prefix| + |suffix| <= r.sel.value.end <= |r.buffer|)
      && (r.sel.None? ==> |prefix| <= r.cursor && r.cursor + |suffix| <= |r.buffer|)
      && RemoveFormat(r, |prefix|, |suffix|).buffer == (if TakesFinalNewline(v) then v.buffer + "\n" else v.buffer)
      && RemoveFormat(r, |prefix|, |suffix|).sel == v.sel
    ensures JoinsLine(v) ==>
      var s := v.sel.value.start;
      RemoveFormat(MarkupOfJoined(v, prefix, suffix), |prefix|, |suffix|).buffer == v.buffer[..s - 1] + v.buffer[s..] + "\n"
  {
    if v.sel.Some? {
      RemoveUndoesWrap(v, prefix, suffix);
    } else {
      RemoveUndoesInsertAtCursor(v, prefix, suffix);
    }
  }

  lemma RemoveUndoesWrap(v: View, prefix: string, suffix: string)
    requires Valid(v) && v.sel.Some?
    ensures var r := InsertFormat(v, prefix, suffix);
      !JoinsLine(v) ==>
      && r.sel.value.start + |prefix| + |suffix| <= r.sel.value.end <= |r.buffer|
      && RemoveFormat(r, |prefix|, |suffix|).buffer == (if TakesFinalNewline(v) then v.buffer + "\n" else v.buffer)
      && RemoveFormat(r, |prefix|, |suffix|).sel == v.sel
    ensures JoinsLine(v) ==>
      var s := v.sel.value.start;
      RemoveFormat(MarkupOfJoined(v, prefix, suffix), |prefix|, |suffix|).buffer == v.buffer[..s - 1] + v.buffer[s..] + "\n"
  {
    if JoinsLine(v) {
      RemoveUndoesWrapJoined(v, prefix, suffix);
    } else if TakesFinalNewline(v) {
      RemoveUndoesWrapFinal(v, prefix, suffix);
    } else {
      RemoveUndoesWrapInside(v, prefix, suffix);
    }
  }

  lemma RemoveUndoesWrapInside(v: View, prefix: string, suffix: string)
    requires Valid(v) && v.sel.Some? && !TakesFinalNewline(v)
    ensures var r := InsertFormat(v, prefix, suffix);
      && r.sel.value.start + |prefix| + |suffix| <= r.sel.value.end <= |r.buffer|
      && RemoveFormat(r, |prefix|, |suffix|).buffer == v.buffer
      && RemoveFormat(r, |prefix|, |suffix|).sel == v.sel
  {
    var s, e := v.sel.value.start, v.sel.value.end;
    var r := InsertFormat(v, prefix, suffix);
    var a, m, c := v.buffer[..s], v.buffer[s..e], v.buffer[e..];
    ShapeInside(v, prefix, suffix);
    assert r.buffer == a + prefix + m + suffix + c;
    assert |m| == e - s;
    RemoveWrapped(r, a, prefix, m, suffix, c);
    Rejoin(v.buffer, s, e);
  }

  lemma Rejoin(b: string, s: nat, e: nat)
    requires s <= e <= |b|
    ensures b[..s] + b[s..e] + b[e..] == b
  {
  }

  /** A selection that took in the final newline from the first line or mid-line comes back with one extra newline. */
  lemma RemoveUndoesWrapFinal(v: View, prefix: string, suffix: string)
    requires Valid(v) && TakesFinalNewline(v) && !JoinsLine(v)
    ensures var r := InsertFormat(v, prefix, suffix);
      && r.sel.value.start + |prefix| + |suffix| <= r.sel.value.end <= |r.buffer|
      && RemoveFormat(r, |prefix|, |suffix|).buffer == v.buffer + "\n"
      && RemoveFormat(r, |prefix|, |suffix|).sel == v.sel
  {
    var s := v.sel.value.start;
    var r := InsertFormat(v, prefix, suffix);
    var a, m := v.buffer[..s], v.buffer[s..] + "\n";
    ShapeFinal(v, prefix, suffix);
    assert r.buffer == a + prefix + m + suffix + [];
    RemoveWrapped(r, a, prefix, m, suffix, []);
    assert a + m + [] == v.buffer + "\n";
  }

  /**
   * A selection that joined lines: removing the markup leaves the buffer
   * with the newline before the selection moved behind it.
   */
  lemma RemoveUndoesWrapJoined(v: View, prefix: string, suffix: string)
    requires Valid(v) && JoinsLine(v)
    ensures var s := v.sel.value.start;
      RemoveFormat(MarkupOfJoined(v, prefix, suffix), |prefix|, |suffix|).buffer == v.buffer[..s - 1] + v.buffer[s..] + "\n"
  {
    var s := v.sel.value.start;
    var m := MarkupOfJoined(v, prefix, suffix);
    var a, t := v.buffer[..s - 1], v.buffer[s..] + "\n";
    ShapeJoined(v, prefix, suffix);
    assert m.buffer == a + prefix + t + suffix + [];
    RemoveWrapped(m, a, prefix, t, suffix, []);
  }

  /** Cutting prefix and suffix out of a + prefix + m + suffix + c, selected in the middle, leaves a + m + c. */
  lemma RemoveWrapped(r: View, a: string, prefix: string, m: string, suffix: string, c: string)
    requires Valid(r)
    requires r.buffer == a + prefix + m + suffix + c
    requires r.sel == Some(Selection(|a|, |a| + |prefix| + |m| + |suffix|))
    ensures RemoveFormat(r, |prefix|, |suffix|).buffer == a + m + c
    ensures RemoveFormat(r, |prefix|, |suffix|).sel == Some(Selection(|a|, |a| + |m|))
  {
    var x := r.buffer;
    var i, j := |a| + |prefix|, |a| + |prefix| + |m|;
    var y := a + prefix + m;
    assert x == y + (suffix + c);
    assert x[..j] == y;
    assert x[..|a|] == y[..|a|] == a;
    assert x[i..j] == y[i..] == m;
    assert x[j + |suffix|..] == c;
  }

  lemma RemoveUndoesInsertAtCursor(v: View, prefix: string, suffix: string)
    requires Valid(v) && v.sel.None?
    ensures var r := InsertFormat(v, prefix, suffix);
      && |prefix| <= r.cursor && r.cursor + |suffix| <= |r.buffer|
      && RemoveFormat(r, |prefix|, |suffix|).buffer == v.buffer
      && RemoveFormat(r, |prefix|, |suffix|).sel == v.sel
  {
    var r := InsertFormat(v, prefix, suffix);
    var c := v.cursor;
    assert r.buffer == v.buffer[..c] + prefix + suffix + v.buffer[c..];
    assert r.buffer[..c] == v.buffer[..c];
    assert r.buffer[c + |prefix| + |suffix|..] == v.buffer[c..];
    assert v.buffer == v.buffer[..c] + v.buffer[c..];
  }

  /**
   * Text before the edit and text after it are unchanged; the cursor stays
   * with the text around it. The edit runs from where the delete started to
   * where it stopped, which is short of the final newline.
   */
  lemma OutsideUnchanged(v: View, prefix: string, suffix: string)
    requires Valid(v) && v.sel.Some?
    ensures var r := InsertFormat(v, prefix, suffix);
      var s, e := v.sel.value.start, v.sel.value.end;
      var d, grow := DeleteStart(v.buffer, s, e), |prefix| + |suffix|;
      && d + (e - s) + grow <= |r.buffer|
      && r.buffer[..d] == v.buffer[..d]
      && (!JoinsLine(v) ==> r.buffer[..s] == v.buffer[..s])
      && r.buffer[d + (e - s) + grow..] == v.buffer[DeleteEnd(v.buffer, e)..]
      && (v.cursor < d ==> r.cursor == v.cursor)
      && (v.cursor > e ==> r.cursor == v.cursor + grow && r.buffer[r.cursor..] == v.buffer[v.cursor..])
  {
    var r := InsertFormat(v, prefix, suffix);
    var s, e := v.sel.value.start, v.sel.value.end;
    var d0, d1 := DeleteStart(v.buffer, s, e), DeleteEnd(v.buffer, e);
    var grow := |prefix| + |suffix|;
    assert |prefix + WidgetText(v.buffer)[s..e] + suffix| == e - s + grow;
    assert !JoinsLine(v) ==> d0 == s;
    if v.cursor > e {
      assert d0 == s && d1 == e;
      assert r.buffer[v.cursor + grow..] == v.buffer[e..][v.cursor - e..];
    }
  }

  // Select-all and what formatting does after it.

  /** `select_all`: tags "1.0" to "end", the whole widget text with its final newline. */
  function SelectAll(v: View): (r: View)
    requires Valid(v)
    ensures Valid(r) && TakesFinalNewline(r)
    ensures r.buffer == v.buffer && r.cursor == v.cursor
    ensures WidgetText(r.buffer)[r.sel.value.start..r.sel.value.end] == WidgetText(v.buffer)
  {
    v.(sel := Some(Selection(0, |v.buffer| + 1)))
  }

  /**
   * After select-all, formatting wraps the final newline too: bold on
   * "hello" gives "**hello\n**", which the single-line bold pattern does not
   * match, and removing the markup again leaves an extra newline behind.
   */
  lemma SelectAllTakesNewline(v: View, prefix: string, suffix: string)
    requires Valid(v)
    ensures InsertFormat(SelectAll(v), prefix, suffix).buffer == prefix + v.buffer + "\n" + suffix
    ensures var r := InsertFormat(SelectAll(v), prefix, suffix);
      RemoveFormat(r, |prefix|, |suffix|).buffer == v.buffer + "\n" != v.buffer
  {
    var a := SelectAll(v);
    assert !JoinsLine(a);
    ShapeFinal(a, prefix, suffix);
    assert a.buffer[..0] + prefix + a.buffer[0..] + "\n" + suffix == prefix + v.buffer + "\n" + suffix;
    RemoveUndoesWrapFinal(a, prefix, suffix);
    assert |v.buffer + "\n"| != |v.buffer|;
  }

  /** Bold after select-all on "hello". */
  lemma SelectAllBoldExample()
    ensures InsertFormat(SelectAll(View("hello", None, 0)), "**", "**").buffer == "**hello\n**"
  {
    SelectAllTakesNewline(View("hello", None, 0), "**", "**");
    assert "**" + "hello" + "\n" + "**" == "**hello\n**";
  }

  /** Select-all as evidently intended: "1.0" to "end-1c", the buffer alone, nothing when it is empty. */
  function SelectAllIntended(v: View): (r: View)
    requires Valid(v)
    ensures Valid(r) && !TakesFinalNewline(r)
    ensures r.buffer == v.buffer && r.cursor == v.cursor
    ensures r.sel.Some? <==> v.buffer != []
    ensures r.sel.Some? ==> r.buffer[r.sel.value.start..r.sel.value.end] == v.buffer
  {
    if v.buffer == [] then v.(sel := None) else v.(sel := Some(Selection(0, |v.buffer|)))
  }

  /** Formatting after the intended select-all wraps exactly the buffer, and removing the markup gives it back. */
  lemma SelectAllIntendedWraps(v: View, prefix: string, suffix: string)
    requires Valid(v)
    ensures InsertFormat(SelectAllIntended(v), prefix, suffix).buffer == prefix + v.buffer + suffix
    ensures var r := InsertFormat(SelectAllIntended(v), prefix, suffix);
      RemoveFormat(r, |prefix|, |suffix|).buffer == v.buffer
  {
    var a := SelectAllIntended(v);
    RemoveUndoesInsert(a, prefix, suffix);
    if v.buffer == [] {
      assert a.cursor == 0;
    } else {
      assert a.buffer[..0] == [] && a.buffer[0..|v.buffer|] == v.buffer && a.buffer[|v.buffer|..] == [];
    }
  }

  // A selection that runs to "end" from a later line, and its correction.

  /**
   * Bold on the last line of "a\nb", selected to "end" as a triple-click
   * selects it: the newline before the line goes, the final newline goes
   * into the markup, and the new selection covers only the closing `**` and
   * the final newline.
   */
  lemma LastLineBoldExample()
    ensures InsertFormat(View("a\nb", Some(Selection(2, 4)), 3), "**", "**") == View("a**b\n**", Some(Selection(5, 8)), 7)
  {
    var v := View("a\nb", Some(Selection(2, 4)), 3);
    assert JoinsLine(v);
    ShapeJoined(v, "**", "**");
    var r := InsertFormat(v, "**", "**");
    assert r.buffer == "a**b\n**";
    assert r.buffer[1] != '\n' && r.buffer[2] != '\n' && r.buffer[3] != '\n' && r.buffer[4] == '\n';
    assert LineEnd(r.buffer, 1) == 4;
  }

  /**
   * The selection as `insert_format` evidently means it: held back at
   * "end-1c", so it never takes in the final newline, and dropped when that
   * leaves nothing of it.
   */
  function ClampToBuffer(v: View): (r: View)
    requires Valid(v)
    ensures Valid(r) && !TakesFinalNewline(r) && !JoinsLine(r)
    ensures r.buffer == v.buffer && r.cursor == v.cursor
    ensures !TakesFinalNewline(v) ==> r == v
    ensures TakesFinalNewline(v) ==> (r.sel.Some? <==> v.sel.value.start < |v.buffer|)
    ensures TakesFinalNewline(v) && r.sel.Some? ==> r.sel == Some(Selection(v.sel.value.start, |v.buffer|))
  {
    match v.sel
    case Some(Selection(s, e)) =>
      if e <= |v.buffer| then v
      else if s < |v.buffer| then v.(sel := Some(Selection(s, |v.buffer|)))
      else v.(sel := None)
    case None => v
  }

  /**
   * Formatting the clamped selection never touches a line before it, and
   * removing the markup gives back the buffer exactly, whatever was
   * selected.
   */
  lemma ClampedFormatIsExact(v: View, prefix: string, suffix: string)
    requires Valid(v)
    ensures var c := ClampToBuffer(v);
      var r := InsertFormat(c, prefix, suffix);
      && (c.sel.Some? ==> c.sel.value.start <= |r.buffer| && r.buffer[..c.sel.value.start] == v.buffer[..c.sel.value.start])
      && (r.sel.Some? ==> r.sel.value.start + |prefix| + |suffix| <= r.sel.value.end <= |r.buffer|)
      && (r.sel.None? ==> |prefix| <= r.cursor && r.cursor + |suffix| <= |r.buffer|)
      && RemoveFormat(r, |prefix|, |suffix|).buffer == v.buffer
  {
    var c := ClampToBuffer(v);
    RemoveUndoesInsert(c, prefix, suffix);
  }

  /** Bold on the clamped last line of "a\nb" wraps the line and keeps the lines apart. */
  lemma LastLineBoldIntended()
    ensures InsertFormat(ClampToBuffer(View("a\nb", Some(Selection(2, 4)), 3)), "**", "**").buffer == "a\n**b**"
  {
    var c := ClampToBuffer(View("a\nb", Some(Selection(2, 4)), 3));
    assert c.sel == Some(Selection(2, 3));
    ShapeInside(c, "**", "**");
    assert c.buffer[..2] + "**" + c.buffer[2..3] + "**" + c.buffer[3..] == "a\n**b**";
  }

  /** The corrected select-all is select-all clamped to the buffer. */
  lemma SelectAllIntendedIsClamped(v: View)
    requires Valid(v)
    ensures SelectAllIntended(v) == ClampToBuffer(SelectAll(v))
  {
  }
}
