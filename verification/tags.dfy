/** The tags of the editor's text widget, tagged spans, and per-character tag marks. */
module Tags {

  /** The eight syntax tags and the search tag. */
  datatype Tag = Header | Bold | Italic | CodeBlock | CodeInline | Link | List | Quote | Search

  /** The tags a highlight pass clears and re-adds: every tag except the search tag. */
  predicate IsSyntax(t: Tag) {
    t != Search
  }

  /** A tag added over the half-open character range [start, end). */
  datatype Span = Span(tag: Tag, start: nat, end: nat)

  /** One character carrying one tag; Tk keeps tags per character, so this is its tag state. */
  datatype Mark = Mark(tag: Tag, pos: nat)

  /** The character marks a sequence of `tag_add` calls leaves behind. */
  function MarksOf(spans: seq<Span>): (r: set<Mark>)
    ensures forall m :: m in r <==> exists sp :: sp in spans && sp.tag == m.tag && sp.start <= m.pos < sp.end
  {
    set sp, k | sp in spans && sp.start <= k < sp.end :: Mark(sp.tag, k)
  }

  /** The marks of the given tag kept from a tag state. */
  function WithTag(marks: set<Mark>, t: Tag): (r: set<Mark>)
    ensures forall m :: m in r <==> m in marks && m.tag == t
  {
    set m | m in marks && m.tag == t
  }

  /** The marks whose tag is not t. */
  function WithoutTag(marks: set<Mark>, t: Tag): (r: set<Mark>)
    ensures forall m :: m in r <==> m in marks && m.tag != t
  {
    set m | m in marks && m.tag != t
  }
}
