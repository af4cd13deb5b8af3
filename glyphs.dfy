/** The two glyph rules: `NicerArrowProcessor` turns `->` into an arrow and
    `DoubleDashProcessor` turns `--` into an em dash, each as a span that replaces
    exactly the two matched characters. */
module Glyphs {
  import opened Wrappers
  import opened Markup

  /** The arrow `→` and the em dash `—`. */
  const RIGHT_ARROW := "\U{2192}"
  const EM_DASH := "\U{2014}"

  /** The patterns `ARROW_RE` and `DOUBLE_DASH_RE`: two literal characters each. */
  const ARROW_RE := "->"
  const DOUBLE_DASH_RE := "--"

  /** Where a glyph pattern matched. */
  datatype GlyphMatch = GlyphMatch(start: nat, end: nat)

  /** A two-character literal pattern matched at `pos`. */
  function LiteralAt(text: string, pos: nat, lit: string): (r: Option<GlyphMatch>)
    requires pos <= |text| && |lit| == 2
    ensures r.Some? <==> pos + 2 <= |text| && text[pos] == lit[0] && text[pos + 1] == lit[1]
    ensures r.Some? ==> r.value.start == pos && r.value.end == pos + 2 && text[pos..pos + 2] == lit
  {
    if pos + 2 <= |text| && text[pos..pos + 2] == lit then Some(GlyphMatch(pos, pos + 2)) else None
  }

  /** `NicerArrowProcessor.handleMatch`: a span holding the arrow, over the match. */
  function NicerArrow(m: GlyphMatch): (r: Replacement) {
    Replacement(SpanOf(RIGHT_ARROW), m.start, m.end)
  }

  /** `DoubleDashProcessor.handleMatch`: a span holding the em dash, over the match. */
  function DoubleDash(m: GlyphMatch): (r: Replacement) {
    Replacement(SpanOf(EM_DASH), m.start, m.end)
  }

  /** Wherever `->` matches, the arrow rule replaces exactly those two characters by a
      span whose only content is the one-character text `→`. */
  lemma ArrowReplacesMatch(text: string, pos: nat)
    requires pos <= |text| && LiteralAt(text, pos, ARROW_RE).Some?
    ensures var r := NicerArrow(LiteralAt(text, pos, ARROW_RE).value);
      && r.start == pos && r.end == pos + 2 && text[r.start..r.end] == "->"
      && r.node == Element("span", map[], [Text(RIGHT_ARROW)]) && |RIGHT_ARROW| == 1
  {
  }

  /** Wherever `--` matches, the dash rule replaces exactly those two characters by a
      span whose only content is the one-character text `—`. */
  lemma DashReplacesMatch(text: string, pos: nat)
    requires pos <= |text| && LiteralAt(text, pos, DOUBLE_DASH_RE).Some?
    ensures var r := DoubleDash(LiteralAt(text, pos, DOUBLE_DASH_RE).value);
      && r.start == pos && r.end == pos + 2 && text[r.start..r.end] == "--"
      && r.node == Element("span", map[], [Text(EM_DASH)]) && |EM_DASH| == 1
  {
  }

  /** The two glyph patterns never match at the same position. */
  lemma GlyphsExclusive(text: string, pos: nat)
    requires pos <= |text|
    ensures !(LiteralAt(text, pos, ARROW_RE).Some? && LiteralAt(text, pos, DOUBLE_DASH_RE).Some?)
  {
  }
}
