/** The colour rule `[name]content[/name]`: the match of `COLOR_RE` built from the
    palette's names and `ColorProcessor.handleMatch`. */
module Color {
  import opened Wrappers
  import opened PyStr
  import opened Markup

  /** A palette maps a colour name to its shades; the rule uses shade `"70"`. */
  type Palette = map<string, map<string, string>>

  const SHADE := "70"

  /** The characters of a regular expression that do not stand for themselves outside a
      character class. */
  const METACHARACTERS := ".^$*+?{}[]\\|()"

  /** A character a palette name may hold: one that stands for itself in a regular
      expression, so that a name in the alternation matches itself. */
  predicate NameChar(c: char) {
    c !in METACHARACTERS
  }

  predicate PlainName(n: string) {
    |n| >= 1 && forall i :: 0 <= i < |n| ==> NameChar(n[i])
  }

  /** What the rule relies on about the palette: at least one colour, and plain,
      non-empty names, each with a shade `"70"`. An empty palette would make both name
      groups of `COLOR_RE` empty, so that `[]x[/]` matches and the lookup of the name
      `""` raises `KeyError`. */
  predicate PaletteWellFormed(palette: Palette) {
    && |palette| > 0
    && forall name :: name in palette ==> PlainName(name) && SHADE in palette[name]
  }

  /** A match of `COLOR_RE`: its bounds, the opening name, the content and the
      closing name. */
  datatype ColorMatch = ColorMatch(start: nat, end: nat, openName: string, content: string, closeName: string)

  /** What the regular expression means, stated without any search: `[`, a palette
      name, `]`, one or more characters other than `[`, `[/`, a palette name, `]`,
      side by side. The two names are matched independently. */
  ghost predicate ColorParses(text: string, m: ColorMatch, names: set<string>) {
    var o := m.start + 1 + |m.openName|;
    var ce := o + 1 + |m.content|;
    && ce + 3 + |m.closeName| == m.end <= |text|
    && text[m.start] == '[' && text[m.start + 1..o] == m.openName && text[o] == ']'
    && text[o + 1..ce] == m.content && text[ce] == '[' && text[ce + 1] == '/'
    && text[ce + 2..m.end - 1] == m.closeName && text[m.end - 1] == ']'
    && m.openName in names && m.closeName in names
    && |m.content| >= 1 && '[' !in m.content
  }

  /** One of the alternatives of a name group. */
  predicate IsName(s: string, names: set<string>) {
    s in names
  }

  /** A name of the alternation starting at `k` and closed by `]`: only the text up to
      the first `]` can be followed by `]`, so that text must be one of the names.
      Returns the position of that `]`. */
  function NameAt(text: string, k: nat, names: set<string>): (r: Option<nat>)
    requires k <= |text|
    ensures r.Some? ==> k <= r.value < |text| && text[r.value] == ']' && IsName(text[k..r.value], names)
  {
    var q := NextChar(text, ']', k);
    if q >= 0 && IsName(text[k..q], names) then Some(q) else None
  }

  /** Where the content that starts at `c` ends: at the first `[`, provided the content
      is not empty and that `[` opens `[/`. */
  function ContentEnd(text: string, c: nat): (r: Option<nat>)
    requires c <= |text|
    ensures r.Some? ==> c < r.value && r.value + 1 < |text| && text[r.value] == '[' && text[r.value + 1] == '/'
  {
    var k := NextChar(text, '[', c);
    if k > c && k + 1 < |text| && text[k + 1] == '/' then Some(k) else None
  }

  /** `COLOR_RE` matched at `pos`: the opening name, then the content up to the first
      `[`, which must open `[/`, then the closing name. */
  function ColorMatchAt(text: string, pos: nat, names: set<string>): (r: Option<ColorMatch>)
    requires pos <= |text|
    ensures r.Some? ==> r.value.start == pos && pos < r.value.end <= |text|
  {
    if pos < |text| && text[pos] == '[' then
      match NameAt(text, pos + 1, names)
      case None => None
      case Some(o) =>
        match ContentEnd(text, o + 1)
        case None => None
        case Some(k) =>
          match NameAt(text, k + 2, names)
          case None => None
          case Some(q) => Some(ColorMatch(pos, q + 1, text[pos + 1..o], text[o + 1..k], text[k + 2..q]))
    else None
  }

  /** The match `ColorMatchAt` assembles from the two names and the content it found. */
  lemma ColorFound(text: string, pos: nat, names: set<string>, o: nat, k: nat, q: nat)
    requires pos < |text| && text[pos] == '['
    requires NameAt(text, pos + 1, names) == Some(o) && ContentEnd(text, o + 1) == Some(k)
    requires NameAt(text, k + 2, names) == Some(q)
    ensures ColorMatchAt(text, pos, names) == Some(ColorMatch(pos, q + 1, text[pos + 1..o], text[o + 1..k], text[k + 2..q]))
  {
  }

  /** What `ColorMatchAt` returns is a match in the sense of `ColorParses`. */
  lemma ColorMatchAtSound(text: string, pos: nat, names: set<string>)
    requires pos <= |text| && ColorMatchAt(text, pos, names).Some?
    ensures ColorParses(text, ColorMatchAt(text, pos, names).value, names)
  {
    var o := NameAt(text, pos + 1, names).value;
    var k := ContentEnd(text, o + 1).value;
    var q := NameAt(text, k + 2, names).value;
    ColorFound(text, pos, names, o, k, q);
    AssembledParses(text, pos, names, o, k, q);
  }

  /** The parts `ColorMatchAt` found sit side by side as `ColorParses` demands. */
  lemma AssembledParses(text: string, pos: nat, names: set<string>, o: nat, k: nat, q: nat)
    requires pos < |text| && text[pos] == '['
    requires NameAt(text, pos + 1, names) == Some(o) && ContentEnd(text, o + 1) == Some(k)
    requires NameAt(text, k + 2, names) == Some(q)
    ensures ColorParses(text, ColorMatch(pos, q + 1, text[pos + 1..o], text[o + 1..k], text[k + 2..q]), names)
  {
    NextCharIsFirst(text, '[', o + 1);
    var content := text[o + 1..k];
    forall i | 0 <= i < |content| ensures content[i] != '[' {
      assert content[i] == text[o + 1 + i];
    }
  }

  /** A palette name followed by `]` at `k` is what `NameAt` finds. */
  lemma NameFound(text: string, k: nat, names: set<string>, n: string)
    requires k + |n| < |text| && text[k..k + |n|] == n && text[k + |n|] == ']'
    requires n in names && PlainName(n)
    ensures NameAt(text, k, names) == Some(k + |n|)
  {
    NextCharIsFirst(text, ']', k);
    forall j | k <= j < k + |n| ensures text[j] != ']' {
      assert text[j] == n[j - k];
    }
  }

  /** The regular expression is deterministic over plain names: any match in the sense
      of `ColorParses` that starts at `pos` is the one `ColorMatchAt` returns. */
  lemma ColorMatchAtComplete(text: string, pos: nat, names: set<string>, m: ColorMatch)
    requires forall n :: n in names ==> PlainName(n)
    requires pos <= |text| && m.start == pos && ColorParses(text, m, names)
    ensures ColorMatchAt(text, pos, names).Some? && ColorMatchAt(text, pos, names).value == m
  {
    var o := pos + 1 + |m.openName|;
    var ce := o + 1 + |m.content|;
    NameFound(text, pos + 1, names, m.openName);
    NextCharIsFirst(text, '[', o + 1);
    forall j | o + 1 <= j < ce ensures text[j] != '[' {
      assert text[j] == m.content[j - o - 1];
    }
    assert ContentEnd(text, o + 1) == Some(ce);
    NameFound(text, ce + 2, names, m.closeName);
    ColorFound(text, pos, names, o, ce, m.end - 1);
  }

  /** The names of the two tags need not agree: `[red]x[/blue]` is a match. */
  lemma MismatchedTagsMatch(names: set<string>)
    requires forall n :: n in names ==> PlainName(n)
    requires "red" in names && "blue" in names
    ensures ColorMatchAt("[red]x[/blue]", 0, names) == Some(ColorMatch(0, 13, "red", "x", "blue"))
  {
    var text := "[red]x[/blue]";
    var m := ColorMatch(0, 13, "red", "x", "blue");
    assert text[1..4] == "red" && text[5..6] == "x" && text[8..12] == "blue";
    ColorMatchAtComplete(text, 0, names, m);
  }

  /** `ColorProcessor.handleMatch`: a span coloured with shade `"70"` of the opening
      name, holding the content, over the match. */
  function ColorHandle(m: ColorMatch, palette: Palette): (r: Replacement)
    requires m.openName in palette && SHADE in palette[m.openName]
  {
    var hex := palette[m.openName][SHADE];
    Replacement(Element("span", map["style" := "color:" + hex + ";"], [Text(m.content)]), m.start, m.end)
  }

  /** The style of a coloured span is `color:<hex>;`. */
  function StyleOf(n: Node): Option<string> {
    if n.Element? && "style" in n.attrs then Some(n.attrs["style"]) else None
  }

  /** The colour rule replaces exactly a matched `[open]content[/close]` by a span
      whose only child is the content and whose style is the opening name's shade
      `"70"`; the closing name plays no part. */
  lemma ColorReplacesMatch(text: string, pos: nat, palette: Palette)
    requires PaletteWellFormed(palette) && pos <= |text|
    requires ColorMatchAt(text, pos, palette.Keys).Some?
    ensures var m := ColorMatchAt(text, pos, palette.Keys).value;
      var r := ColorHandle(m, palette);
      && r.start == pos && r.end == m.end
      && ColorParses(text, m, palette.Keys)
      && r.node.Element? && r.node.tag == "span" && r.node.children == [Text(m.content)]
      && StyleOf(r.node) == Some("color:" + palette[m.openName][SHADE] + ";")
      && |m.content| >= 1 && '[' !in m.content
  {
    ColorMatchAtSound(text, pos, palette.Keys);
  }

  /** Matches that differ only in the closing name are replaced alike. */
  lemma ClosingNameIgnored(m: ColorMatch, palette: Palette, otherClose: string)
    requires m.openName in palette && SHADE in palette[m.openName]
    ensures ColorHandle(m.(closeName := otherClose), palette) == ColorHandle(m, palette)
  {
  }
}
