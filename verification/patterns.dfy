/**
 * The regular expressions of the editor, each written out as a matcher that
 * gives the end of the match Python's backtracking engine finds when it tries
 * the pattern at one offset (`re.match` at that position of the whole string,
 * lookbehinds included).
 */
module Patterns {

  import opened Wrappers
  import opened Text

  datatype Pattern =
    | HeaderLine        // `^(#{1,6})\s+(.+)$`, MULTILINE
    | TripleStar        // `\*\*\*(.*?)\*\*\*`
    | DoubleStar        // `**` with no `*` on either side, lazy body, the same closer
    | SingleStar        // `*` with no `*` on either side, lazy body, the same closer
    | DoubleUnderscore  // `__(.*?)__`
    | SingleUnderscore  // `_(.*?)_`
    | Fence             // three backticks, `[\s\S]*?`, three backticks
    | InlineCode        // a backtick, `[^`\n]+`, a backtick
    | LinkRef           // `\[.*?\]\([^\)]*\)`
    | ListMarker        // `^[\t ]*([*+-]|\d+\.)\s+`, MULTILINE
    | QuoteLine         // `^>.*$`, MULTILINE
    | WordRun           // `\b\w+\b`
    | Literal(query: string) // Tk's `search -nocase` for a plain string

  /** The closing part that ends a lazy body `(.*?)`. */
  datatype Closer = Stars3 | LoneStars2 | LoneStar | Unders2 | Under1 | Ticks3 | LinkTarget

  /** Where the closer, tried at offset k, ends. */
  function CloseAt(c: Closer, s: string, k: nat): (r: Option<nat>)
    ensures r.Some? ==> k < r.value <= |s|
  {
    match c
    case Stars3 => if StarAt(s, k) && StarAt(s, k + 1) && StarAt(s, k + 2) then Some(k + 3) else None
    case LoneStars2 =>
      if !StarAt(s, k - 1) && StarAt(s, k) && StarAt(s, k + 1) && !StarAt(s, k + 2) then Some(k + 2) else None
    case LoneStar =>
      if !StarAt(s, k - 1) && StarAt(s, k) && !StarAt(s, k + 1) then Some(k + 1) else None
    case Unders2 => if At(s, k, '_') && At(s, k + 1, '_') then Some(k + 2) else None
    case Under1 => if At(s, k, '_') then Some(k + 1) else None
    case Ticks3 => if At(s, k, '`') && At(s, k + 1, '`') && At(s, k + 2, '`') then Some(k + 3) else None
    case LinkTarget =>
      if At(s, k, ']') && At(s, k + 1, '(') then
        var r := RunEnd(s, k + 2, NotCloseParen);
        if r < |s| then Some(r + 1) else None
      else None
  }

  /**
   * A lazy body `.*?` (or `[\s\S]*?` when anyChar) starting at k followed by
   * closer c: the first offset at which the closer matches, reached without
   * crossing a newline unless anyChar.
   */
  function LazyClose(s: string, k: nat, c: Closer, anyChar: bool): (r: Option<nat>)
    requires k <= |s|
    ensures r.Some? ==> k <= r.value <= |s| && CloseAt(c, s, r.value).Some?
    ensures r.Some? ==> forall m :: k <= m < r.value ==> CloseAt(c, s, m).None?
    ensures r.Some? && !anyChar ==> NoNewline(s, k, r.value)
    ensures r.None? ==> forall m :: k <= m <= |s| && (anyChar || NoNewline(s, k, m)) ==> CloseAt(c, s, m).None?
    decreases |s| - k
  {
    if CloseAt(c, s, k).Some? then Some(k)
    else if k < |s| && (anyChar || s[k] != '\n') then LazyClose(s, k + 1, c, anyChar)
    else None
  }

  /** The end of a lazy body starting at k and its closer. */
  function Enclosed(s: string, k: nat, c: Closer, anyChar: bool): (r: Option<nat>)
    requires k <= |s|
    ensures r.Some? ==> k < r.value <= |s|
  {
    match LazyClose(s, k, c, anyChar)
    case Some(j) => CloseAt(c, s, j)
    case None => None
  }

  /**
   * `^(#{1,6})\s+(.+)$`. `\s+` may run over newlines; when it runs to the end
   * of the string the engine gives back whitespace until `.+` can take one
   * character that is not a newline.
   */
  function HeaderAt(s: string, i: nat): (r: Option<nat>)
    requires i < |s|
    ensures r.Some? ==> i < r.value <= |s| && AtLineStart(s, i) && s[i] == '#'
    ensures r.Some? ==> s[r.value - 1] != '\n' && (r.value == |s| || s[r.value] == '\n')
  {
    if !AtLineStart(s, i) then None
    else
      var h := RunEnd(s, i, Hash);
      if h == i || h - i > 6 then None
      else
        var w := RunEnd(s, h, Space);
        if w == h then None
        else if w < |s| then Some(LineEnd(s, w))
        else match LastNonNewline(s, h + 1, w)
          case Some(j) => Some(j + 1)
          case None => None
  }

  /** `^[\t ]*([*+-]|\d+\.)\s+`, where the trailing `\s+` may run over newlines. */
  function ListAt(s: string, i: nat): (r: Option<nat>)
    requires i < |s|
    ensures r.Some? ==> i < r.value <= |s| && AtLineStart(s, i)
    ensures r.Some? ==> IsSpace(s[r.value - 1]) && (r.value == |s| || !IsSpace(s[r.value]))
  {
    if !AtLineStart(s, i) then None
    else
      var a := RunEnd(s, i, Blank);
      var marker: Option<nat> :=
        if a < |s| && (s[a] == '*' || s[a] == '+' || s[a] == '-') then Some(a + 1)
        else if a < |s| && IsDigit(s[a]) then
          var d := RunEnd(s, a, Digit);
          if d < |s| && s[d] == '.' then Some(d + 1) else None
        else None;
      match marker
      case None => None
      case Some(m) =>
        var w := RunEnd(s, m, Space);
        if w > m then Some(w) else None
  }

  /** Case-insensitive equality of the query with the text at offset i. */
  predicate FoldsTo(s: string, i: nat, q: string) {
    i + |q| <= |s| && forall j :: 0 <= j < |q| ==> Fold(s[i + j]) == Fold(q[j])
  }

  /** The end of the match of p tried at offset i of s, if p matches there. */
  function MatchAt(p: Pattern, s: string, i: nat): (r: Option<nat>)
    ensures r.Some? ==> i < r.value <= |s|
  {
    if i >= |s| then None
    else match p
      case HeaderLine => HeaderAt(s, i)
      case TripleStar =>
        if StarAt(s, i) && StarAt(s, i + 1) && StarAt(s, i + 2) then Enclosed(s, i + 3, Stars3, false) else None
      case DoubleStar =>
        if !StarAt(s, i - 1) && StarAt(s, i) && StarAt(s, i + 1) && !StarAt(s, i + 2)
        then Enclosed(s, i + 2, LoneStars2, false) else None
      case SingleStar =>
        if !StarAt(s, i - 1) && StarAt(s, i) && !StarAt(s, i + 1)
        then Enclosed(s, i + 1, LoneStar, false) else None
      case DoubleUnderscore =>
        if At(s, i, '_') && At(s, i + 1, '_') then Enclosed(s, i + 2, Unders2, false) else None
      case SingleUnderscore =>
        if At(s, i, '_') then Enclosed(s, i + 1, Under1, false) else None
      case Fence =>
        if At(s, i, '`') && At(s, i + 1, '`') && At(s, i + 2, '`') then Enclosed(s, i + 3, Ticks3, true) else None
      case InlineCode =>
        if s[i] == '`' then
          var r := RunEnd(s, i + 1, CodeChar);
          if r > i + 1 && r < |s| && s[r] == '`' then Some(r + 1) else None
        else None
      case LinkRef =>
        if s[i] == '[' then Enclosed(s, i + 1, LinkTarget, false) else None
      case ListMarker => ListAt(s, i)
      case QuoteLine =>
        if AtLineStart(s, i) && s[i] == '>' then Some(LineEnd(s, i + 1)) else None
      case WordRun =>
        if IsWordChar(s[i]) && (i == 0 || !IsWordChar(s[i - 1])) then Some(RunEnd(s, i, Word)) else None
      case Literal(q) =>
        if |q| > 0 && FoldsTo(s, i, q) then Some(i + |q|) else None
  }
}
