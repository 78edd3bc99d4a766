/**
 * The theme palette: which colours the eight syntax tags and the editor
 * itself get for a theme name. Four names form the dark family; every other
 * name, known or not, gets the light colours.
 */
module Palette {

  import opened Wrappers
  import opened Tags

  /** The theme names that select the dark colours, compared exactly. */
  const DarkThemes: seq<string> := ["vapor", "darkly", "cyborg", "superhero"]

  predicate IsDark(theme: string) {
    theme in DarkThemes
  }

  /** The eight tags the palette configures. */
  const SyntaxTags: set<Tag> := {Header, Bold, Italic, CodeBlock, CodeInline, Link, List, Quote}

  /** A `tag_config` call: a foreground and, for some tags, a background. */
  datatype TagStyle = TagStyle(foreground: string, background: Option<string>)

  /** An editor `config` call: background, foreground and insertion cursor colour. */
  datatype EditorColors = EditorColors(background: string, foreground: string, insertBackground: string)

  /**
   * The style of one tag in the dark or the light palette: only the code
   * tags and `search` get a background, and `search` is black on yellow
   * whatever the theme.
   */
  function Style(dark: bool, t: Tag): (r: TagStyle)
    ensures r.background.Some? <==> t == CodeBlock || t == CodeInline || t == Search
    ensures t == Search ==> r == TagStyle("black", Some("yellow"))
  {
    match t
    case Header => TagStyle(if dark then "#66ccff" else "#0066cc", None)
    case Bold => TagStyle(if dark then "#ff6666" else "#cc0000", None)
    case Italic => TagStyle(if dark then "#66ff66" else "#00cc00", None)
    case CodeBlock => TagStyle(if dark then "#ffffff" else "#000000", Some(if dark then "#2a2a2a" else "#f0f0f0"))
    case CodeInline => TagStyle(if dark then "#ffffff" else "#000000", Some(if dark then "#3a3a3a" else "#e8e8e8"))
    case Link => TagStyle(if dark then "#ffcc66" else "#cc6600", None)
    case List => TagStyle(if dark then "#cc99ff" else "#9900cc", None)
    case Quote => TagStyle(if dark then "#99ccff" else "#006699", None)
    case Search => TagStyle("black", Some("yellow"))
  }

  /**
   * The tag configuration a theme applies: every syntax tag and no other, a
   * background only for the two code tags.
   */
  function TagStyles(theme: string): (r: map<Tag, TagStyle>)
    ensures forall t :: t in r <==> IsSyntax(t)
    ensures forall t :: t in r ==> (r[t].background.Some? <==> t == CodeBlock || t == CodeInline)
    ensures forall t :: t in r ==> r[t] == Style(IsDark(theme), t)
  {
    map t | t in SyntaxTags :: Style(IsDark(theme), t)
  }

  /** The editor colours a theme change sets. */
  function EditorColorsFor(theme: string): (r: EditorColors)
    ensures r.foreground == (if IsDark(theme) then "#ffffff" else "#000000")
  {
    if IsDark(theme) then EditorColors("#2d2d2d", "#ffffff", "white")
    else EditorColors("#ffffff", "#000000", "black")
  }

  /** The dark and the light palette differ on every syntax tag. */
  lemma PalettesDiffer(t: Tag)
    requires IsSyntax(t)
    ensures Style(true, t) != Style(false, t)
  {
  }

  /** Two theme names get the same tag colours exactly when both or neither is dark. */
  lemma SamePaletteIff(a: string, b: string)
    ensures TagStyles(a) == TagStyles(b) <==> (IsDark(a) <==> IsDark(b))
  {
    if TagStyles(a) == TagStyles(b) {
      PalettesDiffer(Header);
      assert TagStyles(a)[Header] == TagStyles(b)[Header];
    }
    if IsDark(a) <==> IsDark(b) {
      assert forall t :: t in TagStyles(a) ==> TagStyles(a)[t] == TagStyles(b)[t];
    }
  }

  /** The tag colours and the editor colours follow the same dark/light split. */
  lemma EditorFollowsPalette(a: string, b: string)
    ensures EditorColorsFor(a) == EditorColorsFor(b) <==> TagStyles(a) == TagStyles(b)
  {
    SamePaletteIff(a, b);
  }

  /**
   * Code is written in the editor's own text colour on a background of its
   * own, in either palette.
   */
  lemma CodeStandsOut(theme: string, t: Tag)
    requires t == CodeBlock || t == CodeInline
    ensures TagStyles(theme)[t].foreground == EditorColorsFor(theme).foreground
    ensures TagStyles(theme)[t].background != Some(EditorColorsFor(theme).background)
  {
  }

  /** Every name outside the dark family, including unknown ones, gets the light colours. */
  lemma UnknownIsLight(theme: string)
    requires theme !in DarkThemes
    ensures TagStyles(theme) == TagStyles("litera")
    ensures EditorColorsFor(theme) == EditorColorsFor("litera")
  {
    SamePaletteIff(theme, "litera");
  }
}
