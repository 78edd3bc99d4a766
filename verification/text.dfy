/**
 * Character classes and line structure as Python's `re` sees them in a
 * `str` pattern, plus the newline handling of the Tk text widget.
 */
module Text {

  import opened Wrappers

  /** `\s` in a `str` pattern: the characters `str.isspace` accepts. */
  predicate IsSpace(c: char) {
    var n := c as int;
    || 9 <= n <= 13
    || 28 <= n <= 32
    || n == 0x85 || n == 0xA0 || n == 0x1680
    || 0x2000 <= n <= 0x200A
    || n == 0x2028 || n == 0x2029 || n == 0x202F || n == 0x205F || n == 0x3000
  }

  /** `\d`, restricted to ASCII digits. */
  predicate IsDigit(c: char) {
    '0' <= c <= '9'
  }

  /** `\w`, restricted to ASCII letters, digits and the underscore. */
  predicate IsWordChar(c: char) {
    'a' <= c <= 'z' || 'A' <= c <= 'Z' || IsDigit(c) || c == '_'
  }

  /** The ASCII part of case folding, as Tk's `-nocase` search applies it. */
  function Fold(c: char): (r: char)
    ensures 'A' <= c <= 'Z' ==> 'a' <= r <= 'z'
    ensures !('A' <= c <= 'Z') ==> r == c
  {
    if 'A' <= c <= 'Z' then (c as int + 32) as char else c
  }

  /** The character classes the patterns repeat over. */
  datatype CharClass =
    | Hash          // `#`
    | Space         // `\s`
    | Blank         // `[\t ]`
    | Digit         // `\d`
    | Word          // `\w`
    | NotNewline    // `.`
    | CodeChar      // a character other than a backtick or a newline
    | NotCloseParen // a character other than `)`

  predicate InClass(c: char, k: CharClass) {
    match k
    case Hash => c == '#'
    case Space => IsSpace(c)
    case Blank => c == '\t' || c == ' '
    case Digit => IsDigit(c)
    case Word => IsWordChar(c)
    case NotNewline => c != '\n'
    case CodeChar => c != '`' && c != '\n'
    case NotCloseParen => c != ')'
  }

  /** A greedy repetition `k*` starting at offset i: the end of the longest run. */
  function RunEnd(s: string, i: nat, k: CharClass): (r: nat)
    requires i <= |s|
    ensures i <= r <= |s|
    ensures forall j :: i <= j < r ==> InClass(s[j], k)
    ensures r == |s| || !InClass(s[r], k)
    decreases |s| - i
  {
    if i < |s| && InClass(s[i], k) then RunEnd(s, i + 1, k) else i
  }

  /** MULTILINE `^`: offset i begins a line. */
  predicate AtLineStart(s: string, i: nat) {
    i == 0 || (i <= |s| && s[i - 1] == '\n')
  }

  /** MULTILINE `$` reached from i by `.*`: the next newline at or after i, or the end. */
  function LineEnd(s: string, i: nat): (r: nat)
    requires i <= |s|
    ensures i <= r <= |s|
    ensures r == |s| || s[r] == '\n'
    ensures forall j :: i <= j < r ==> s[j] != '\n'
  {
    RunEnd(s, i, NotNewline)
  }

  /** s has the character c at offset j (false outside the string, as a lookaround sees it). */
  predicate At(s: string, j: int, c: char) {
    0 <= j < |s| && s[j] == c
  }

  /** s has a `*` at offset j. */
  predicate StarAt(s: string, j: int) {
    At(s, j, '*')
  }

  /** No newline in s[lo..hi]. */
  predicate NoNewline(s: string, lo: nat, hi: nat)
    requires lo <= hi <= |s|
  {
    forall j :: lo <= j < hi ==> s[j] != '\n'
  }

  /** The largest j in [lo, hi) with s[j] not a newline, if any. */
  function LastNonNewline(s: string, lo: nat, hi: nat): (r: Option<nat>)
    requires lo <= hi <= |s|
    ensures r.Some? ==> lo <= r.value < hi && s[r.value] != '\n'
    ensures r.Some? ==> forall j :: r.value < j < hi ==> s[j] == '\n'
    ensures r.None? ==> forall j :: lo <= j < hi ==> s[j] == '\n'
    decreases hi - lo
  {
    if hi == lo then None
    else if s[hi - 1] != '\n' then Some(hi - 1)
    else LastNonNewline(s, lo, hi - 1)
  }

  /** The text a Tk text widget returns for `get("1.0", END)`: its content and one more newline. */
  function WidgetText(buffer: string): (t: string)
    ensures |t| == |buffer| + 1 && t[|buffer|] == '\n'
  {
    buffer + "\n"
  }

  /** Drops one trailing newline, when there is one. */
  function StripTrailingNewline(t: string): (r: string)
    ensures |t| > 0 && t[|t| - 1] == '\n' ==> r + "\n" == t
    ensures (|t| == 0 || t[|t| - 1] != '\n') ==> r == t
  {
    if |t| > 0 && t[|t| - 1] == '\n' then t[..|t| - 1] else t
  }

  /** Stripping the widget text gives back the buffer exactly, even when it ends in newlines itself. */
  lemma StripUndoesWidgetNewline(buffer: string)
    ensures StripTrailingNewline(WidgetText(buffer)) == buffer
    ensures |StripTrailingNewline(WidgetText(buffer))| + 1 == |WidgetText(buffer)|
  {
    assert WidgetText(buffer)[..|buffer|] == buffer;
  }
}
