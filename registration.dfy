/** `MarkdownLitExtension.extendMarkdown`: the four inline processors and their patterns
    registered with the parser, and what each registered processor does at a position
    of the text. */
module Registration {
  import opened Wrappers
  import opened PyStr
  import opened Markup
  import opened Resolver
  import AtSign
  import Glyphs
  import Color

  /** The at-sign pattern, as the regular-expression source text handed to its
      processor; the glyph patterns are `Glyphs.ARROW_RE` and `Glyphs.DOUBLE_DASH_RE`. */
  const AT_SIGN_RE := @"@(?P<a>\([^)]+\))(?P<b>\([^)]+\))?(?P<c>\([^)]+\))?"

  /** `COLOR_RE`, built from the palette's names joined by `|`, once for each tag. */
  function ColorRe(names: seq<string>): string {
    var alternatives := Join("|", names);
    @"\[(?P<color_open>" + alternatives + @")\](?P<content>[^\[]+)\[\/(?P<color_close>"
      + alternatives + @")\]"
  }

  /** An inline processor, built from its pattern. */
  datatype Processor =
    | NicerArrowProcessor(pattern: string)
    | DoubleDashProcessor(pattern: string)
    | AtSignProcessor(pattern: string)
    | ColorProcessor(pattern: string)

  /** One registration: the processor, its name and its priority. */
  datatype Entry = Entry(item: Processor, name: string, priority: int)

  /** The parser's registry of inline patterns; `Register` appends. */
  class Registry {
    var entries: seq<Entry>

    constructor()
      ensures entries == []
    {
      entries := [];
    }

    method Register(item: Processor, name: string, priority: int)
      modifies this
      ensures entries == old(entries) + [Entry(item, name, priority)]
    {
      entries := entries + [Entry(item, name, priority)];
    }
  }

  const PRIORITY := 1000

  /** The four registrations `extendMarkdown` makes, in order, for a palette whose names
      are `names`. */
  function MarkdownLitEntries(names: seq<string>): (r: seq<Entry>) {
    [ Entry(NicerArrowProcessor(Glyphs.ARROW_RE), "nicerarrow", PRIORITY),
      Entry(DoubleDashProcessor(Glyphs.DOUBLE_DASH_RE), "doubledash", PRIORITY),
      Entry(AtSignProcessor(AT_SIGN_RE), "atsign", PRIORITY),
      Entry(ColorProcessor(ColorRe(names)), "color", PRIORITY) ]
  }

  /** `extendMarkdown(md)`: four successive registrations into `md.inlinePatterns`. */
  method ExtendMarkdown(inlinePatterns: Registry, names: seq<string>)
    modifies inlinePatterns
    ensures inlinePatterns.entries == old(inlinePatterns.entries) + MarkdownLitEntries(names)
  {
    inlinePatterns.Register(NicerArrowProcessor(Glyphs.ARROW_RE), "nicerarrow", PRIORITY);
    inlinePatterns.Register(DoubleDashProcessor(Glyphs.DOUBLE_DASH_RE), "doubledash", PRIORITY);
    inlinePatterns.Register(AtSignProcessor(AT_SIGN_RE), "atsign", PRIORITY);
    inlinePatterns.Register(ColorProcessor(ColorRe(names)), "color", PRIORITY);
  }

  /** The names of a list of registrations, in order. */
  function Names(entries: seq<Entry>): (r: seq<string>)
    ensures |r| == |entries| && forall i :: 0 <= i < |entries| ==> r[i] == entries[i].name
  {
    seq(|entries|, i requires 0 <= i < |entries| => entries[i].name)
  }

  /** The registrations are the four processors under distinct names, in the order
      arrow, dash, at sign, colour, all at priority 1000. */
  lemma MarkdownLitEntriesShape(names: seq<string>)
    ensures var r := MarkdownLitEntries(names);
      && Names(r) == ["nicerarrow", "doubledash", "atsign", "color"]
      && (forall i, j :: 0 <= i < j < |r| ==> r[i].name != r[j].name)
      && (forall i :: 0 <= i < |r| ==> r[i].priority == PRIORITY)
      && r[0].item.NicerArrowProcessor? && r[1].item.DoubleDashProcessor?
      && r[2].item.AtSignProcessor? && r[3].item.ColorProcessor?
  {
    var r := MarkdownLitEntries(names);
    assert Names(r) == ["nicerarrow", "doubledash", "atsign", "color"];
  }

  /** What a processor's `handleMatch` depends on besides the match: `validators.url`,
      the web behind the fallback, and the colour palette. */
  datatype Env = Env(isUrl: string -> bool, web: Web, palette: Color.Palette)

  /** A registered processor tried at `pos`: `None` when its pattern does not match
      there, otherwise what its `handleMatch` returns (or raises). */
  function Apply(item: Processor, text: string, pos: nat, env: Env): (r: Option<Result<Replacement>>)
    requires pos <= |text| && Color.PaletteWellFormed(env.palette)
    ensures r.Some? && r.value.Ok? ==> r.value.value.start == pos && pos < r.value.value.end <= |text|
    ensures r.Some? && r.value.Err? ==> item.AtSignProcessor?
  {
    match item
    case NicerArrowProcessor(_) =>
      (match Glyphs.LiteralAt(text, pos, Glyphs.ARROW_RE)
       case None => None
       case Some(m) => Some(Ok(Glyphs.NicerArrow(m))))
    case DoubleDashProcessor(_) =>
      (match Glyphs.LiteralAt(text, pos, Glyphs.DOUBLE_DASH_RE)
       case None => None
       case Some(m) => Some(Ok(Glyphs.DoubleDash(m))))
    case AtSignProcessor(_) =>
      (match AtSign.MatchAt(text, pos)
       case None => None
       case Some(m) => Some(AtSign.HandleMatch(m, env.isUrl, env.web)))
    case ColorProcessor(_) =>
      (match Color.ColorMatchAt(text, pos, env.palette.Keys)
       case None => None
       case Some(m) => Some(Ok(Color.ColorHandle(m, env.palette))))
  }
}
