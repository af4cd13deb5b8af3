# markdownlit inline rules, modelled in Dafny

markdownlit extends Python-Markdown with four inline processors:

- `->` becomes an arrow `→`;
- `--` becomes an em dash `—`;
- `@(icon)(label)(url)` (also `@(label)(url)` and `@(url)`) becomes a "magic link" anchor;
- `[name]text[/name]` becomes text coloured with shade `70` of a named palette colour.

The magic link guesses a missing icon and label from the URL. It has dedicated
parsers for Twitter, Streamlit, GitHub and Notion. Any other URL falls back to the
page's favicon and `<title>`. `markdownlit/extensions/at_sign.py` holds a second
copy of the magic-link rule.

This project models those rules as pure Dafny functions over strings and a small
element tree. Every processor's `handleMatch` returns a `Replacement`: a `Node` plus
the start and end of the text it replaces. The registration in
`MarkdownLitExtension.extendMarkdown` is a class `Registry` whose `Register` method
appends.

Modules, one file each:

| module | file | what it holds |
|---|---|---|
| `Wrappers` | `wrappers.dfy` | `Option`, `Result`, and the one Python error the rules can raise (`IndexError`) |
| `PyStr` | `pystr.dfy` | the Python `str`/`list` operations the rules use, with Python semantics |
| `Markup` | `markup.dfy` | the element tree and `el.set` |
| `Resolver` | `resolver.dfy` | `_guess_icon_and_label` and the title slice of `_get_page_title` |
| `Mention` | `mention.dfy` | `stx_mention` on its `write=False` path |
| `AtSign` | `atsign.dfy` | `AT_SIGN_RE` as a matcher, `strip("()")`, `_add_https`, `AtSignProcessor.handleMatch` |
| `Glyphs` | `glyphs.dfy` | `NicerArrowProcessor`, `DoubleDashProcessor` |
| `Color` | `color.dfy` | `COLOR_RE` as a matcher, `ColorProcessor.handleMatch` |
| `Registration` | `registration.dfy` | the patterns, the registry, `extendMarkdown`, and each registered processor tried at a position |
| `AtSignExtension` | `atsign_extension.dfy` | the copy in `extensions/at_sign.py`: its pattern and its processor |

The two files share their mention code line for line:

- `at_sign.py` lines 23-71 are the same as `__init__.py` lines 51-99.
- `at_sign.py` lines 73-164 are the same as `__init__.py` lines 121-212.

So one model serves both files: the Python text is the same, so the members of
`Mention`, `Resolver` and `AtSign` model both. The copy's own `AT_SIGN_RE` (line 19)
is the same string as the one `extendMarkdown` registers.

Each regular expression is modelled as a deterministic matcher (`AtSign.MatchAt`,
`Color.ColorMatchAt`, `Glyphs.LiteralAt`). Each matcher is proved against a
search-free description of what the pattern means (`AtSign.Parses`,
`Color.ColorParses`), in both directions:

- what the matcher returns satisfies the description;
- every match the description allows at that position is the one the matcher returns.

Two behaviours of the code are easy to miss:

- The colour pattern matches the two tag names independently. So `[red]x[/blue]` is
  coloured red (`Color.MismatchedTagsMatch`), although the usage shown in
  `streamlit_app.py` repeats the name (`[color] foo [/color]`).
- A page without `<title>` does not get the generic label. The title is
  still a slice of the page text (`Resolver.TitleIsSubstring`). With neither tag
  present, the bounds become `-1 + 7` and `-1`, so the title is `al[6:-1]`
  (`Resolver.TitleWithoutTags`). With only `</title>` present, at index `c`, the
  title is `al[6:c]`.

## Model

| member | source | states |
|---|---|---|
| PyStr.Find | markdownlit/__init__.py:173 | `find` returns -1 or an index where the sub-string occurs |
| PyStr.FindIsFirst | markdownlit/__init__.py:173 | `find` returns the first occurrence, and -1 exactly when there is none |
| PyStr.ContainsSpec | markdownlit/__init__.py:185 | `sub in s` holds exactly when `sub` occurs somewhere in `s` |
| PyStr.Contains | markdownlit/__init__.py:185 | `sub in s`, tested as `find` not returning -1; its meaning is stated by `PyStr.ContainsSpec` |
| PyStr.StartsWith | markdownlit/__init__.py:129 | `s.startswith(p)`: `p` is the first `len(p)` characters of `s`; its uses are stated by `AtSign.AddHttps` |
| PyStr.Split | markdownlit/__init__.py:189 | `s.split(sep)` has at least one piece, cut at the leftmost occurrences in turn. `PyStr.FirstPieceFrom` fixes each cut as the leftmost. `PyStr.JoinSplit` and `PyStr.SplitPiecesFree` fix the pieces for separators that cannot overlap themselves, such as the `/` and `twitter.com/` the code uses |
| PyStr.Join | markdownlit/__init__.py:200 | `sep.join(parts)`; its meaning is stated by `PyStr.JoinSplit` |
| PyStr.JoinSplit | markdownlit/__init__.py:200 | `sep.join(s.split(sep))` gives back `s` |
| PyStr.FirstPieceFrom | markdownlit/__init__.py:189 | the first piece of a split from `k` runs to the first occurrence of the separator at or after `k`, or to the end |
| PyStr.SplitPiecesFree | markdownlit/__init__.py:189 | no piece of `s.split(sep)` contains `sep` |
| PyStr.Index | markdownlit/__init__.py:192 | `xs[i]` exists exactly for `-len(xs) <= i < len(xs)`; a negative index counts from the end |
| PyStr.Slice | markdownlit/__init__.py:173 | `s[i:j]` is the contiguous run of `s` between the normalised bounds, of length `hi - lo`, and empty when they cross |
| PyStr.SliceFrom | markdownlit/__init__.py:200 | `xs[i:]` is the suffix of `xs` from the normalised bound on |
| PyStr.Strip | markdownlit/__init__.py:144 | `strip(chars)` removes the longest leading and trailing runs of characters in `chars`, and no more |
| PyStr.Lower | markdownlit/__init__.py:61 | `lower` keeps the length and lowers each character |
| Markup.SetAttr | markdownlit/__init__.py:160 | `el.set(key, value)` sets that attribute, keeps every other attribute, the tag and the children |
| Mention.ResolveIcon | markdownlit/__init__.py:61-68 | a keyword in any case (`github`, `notion`, `twitter`, `streamlit`) becomes its platform's icon URL; any other icon is kept |
| Mention.ResolveIconIdempotent | markdownlit/__init__.py:61-68 | resolving an already resolved icon changes nothing |
| Mention.IconNode | markdownlit/__init__.py:70-76 | a URL icon becomes an `img` with `src` = the icon and the fixed style; any other icon becomes the text `icon + "  "` |
| Mention.StxMention | markdownlit/__init__.py:78-94 | the anchor has `href` = url and `target="_blank"`, and exactly four children in order: an empty span, the icon, a span holding only the label, an empty span |
| Mention.MentionReadBack | markdownlit/__init__.py:78-94 | the anchor gives back the URL, the label and the resolved icon it was built from |
| Resolver.PageTitle | markdownlit/__init__.py:173 | with `<title>` before `</title>`, the title is exactly the text between the first of each |
| Resolver.TitleIsSubstring | markdownlit/__init__.py:173 | whatever the page holds, the title is a contiguous, possibly empty, part of it |
| Resolver.TitleWithoutTags | markdownlit/__init__.py:173 | a page of at least seven characters with no `<` at all gets the "title" `al[6:-1]`, not an error |
| Resolver.IsTwitter | markdownlit/__init__.py:185 | the test `"twitter.com" in url` |
| Resolver.IsStreamlit | markdownlit/__init__.py:193-195 | the test for any of `streamlitapp.com`, `streamlit.io`, `streamlit.app` |
| Resolver.IsGitHub | markdownlit/__init__.py:198 | the test `"github.com" in url` |
| Resolver.IsNotion | markdownlit/__init__.py:201 | the test `"notion.so" in url` |
| Resolver.GuessIconAndLabel | markdownlit/__init__.py:185-212 | raises exactly when the URL has `twitter.com` and `status` but no `twitter.com/` |
| Resolver.ClassificationOrder | markdownlit/__init__.py:185-203 | first match wins in the order twitter, streamlit, github, notion; a tweet is labelled with its handle and a profile with its last segment; then `Streamlit App`, owner/repo, `Notion page` |
| Resolver.WebOnlyWithoutMarker | markdownlit/__init__.py:185-207 | a URL with any platform marker never reaches the network: its result is the same whatever the web does |
| Resolver.Fallback | markdownlit/__init__.py:204-211 | the favicon and the page title; `("🔗", "Link")` when either call fails |
| Resolver.FallbackOutcome | markdownlit/__init__.py:204-211 | with no marker, the result is the favicon and the page title; if either call fails, it is `("🔗", "Link")` |
| Resolver.SegmentAfter | markdownlit/__init__.py:189 | `url.split(marker)[1].split("/")[0]`, `None` for the `IndexError`; its meaning is stated by `Resolver.SegmentAfterDefined` and `Resolver.SegmentAfterSpec` |
| Resolver.SegmentAfterDefined | markdownlit/__init__.py:189 | the segment after a marker exists exactly when the marker occurs |
| Resolver.SegmentAfterSpec | markdownlit/__init__.py:189 | the segment after a marker is the run right after its first occurrence that holds no `/` and where the marker does not start again, ending at the end, at a `/`, or where the marker starts again |
| Resolver.TweetHandle | markdownlit/__init__.py:189 | `url.split("twitter.com/")[1]` exists exactly when `twitter.com/` occurs |
| Resolver.TweetHandleSpec | markdownlit/__init__.py:189 | the tweet label is the run right after the first `twitter.com/` that holds no `/` and where no further `twitter.com/` starts, ending at the end, at a `/`, or where a further `twitter.com/` starts |
| Resolver.ProfileName | markdownlit/__init__.py:192 | `url.split("/")[-1]`, which always exists; its meaning is stated by `Resolver.ProfileNameSpec` |
| Resolver.ProfileNameSpec | markdownlit/__init__.py:192 | the profile label is the `/`-free suffix after the last `/` (the whole URL when it has no `/`) |
| Resolver.RepoLabel | markdownlit/__init__.py:200 | `"/".join(url.split("/")[-2:])`; its meaning is stated by `Resolver.RepoLabelSpec` |
| Resolver.RepoLabelSpec | markdownlit/__init__.py:200 | the GitHub label is a suffix after a `/` holding exactly one `/` (owner/repo), or the whole URL when it has no `/` |
| AtSign.AddHttps | markdownlit/__init__.py:128-131 | the result starts with `https://`; a URL with that prefix is kept; any other gets exactly `https://` prepended |
| AtSign.AddHttpsIdempotent | markdownlit/__init__.py:128-131 | adding the prefix twice is adding it once; `http://x` becomes `https://http://x` |
| AtSign.GroupEndSpec | markdownlit/__init__.py:276 | a group found at `p` ends at `e` exactly when `text[p:e]` is `(`, one or more non-`)` characters, `)` |
| AtSign.NoGroupAtSpec | markdownlit/__init__.py:276 | the matcher finds no group at `p` exactly when no group starts there |
| AtSign.MatchAt | markdownlit/__init__.py:276 | the pattern matches at `pos` exactly when `@` and a group stand there; a match starts at `pos` and lies within the text |
| AtSign.MatchAtSound | markdownlit/__init__.py:276 | every match found is `@` followed by one to three groups side by side, `c` only after `b`, with no group left behind an optional group that was skipped |
| AtSign.MatchAtComplete | markdownlit/__init__.py:276 | every such match starting at `pos` is the one found: the pattern is deterministic |
| AtSign.Groups | markdownlit/__init__.py:144 | one to three entries, each the stripped group that took part, in order |
| AtSign.GroupsShape | markdownlit/__init__.py:144 | the group list is a prefix of `(a, b, c)`: a second entry exactly when `b` took part, a third exactly when `c` did |
| AtSign.StrippedGroup | markdownlit/__init__.py:144 | a stripped group holds no `)` and neither starts nor ends with `(` |
| AtSign.MentionParts | markdownlit/__init__.py:146-154 | the dispatch raises exactly when the resolver is called and raises; the URL is always the last group |
| AtSign.ThreeGroupsVerbatim | markdownlit/__init__.py:153-154 | three groups are icon, label and URL as written, with no resolver call |
| AtSign.TwoGroupsLabelKept | markdownlit/__init__.py:150-152 | two groups are label and URL; the icon is the resolver's and its label is dropped |
| AtSign.OneGroupResolved | markdownlit/__init__.py:147-149 | one group is the URL; icon and label both come from the resolver |
| AtSign.HandleMatch | markdownlit/__init__.py:144-161 | fails exactly when the dispatch raises; otherwise replaces exactly the match span |
| AtSign.HandleMatchAnchor | markdownlit/__init__.py:156-161 | the anchor links to the URL group with `https://` added, carries the inline style and `target="_blank"`, and shows the dispatched label and resolved icon |
| AtSign.WrittenUrlParses | markdownlit/__init__.py:276 | `@` and one plain part in parentheses form one match over the whole text |
| AtSign.WrittenParses | markdownlit/__init__.py:276 | `@` and two or three plain parts in parentheses form one match over the whole text |
| AtSign.WrittenGroups | markdownlit/__init__.py:144 | stripping the groups of such a text gives back the plain parts |
| AtSign.WrittenMentionReadsBack | streamlit_app.py:85 | `@(icon)(label)(url)` with plain parts gives an anchor over the whole text, linking to the URL with `https://` added, with that label and the resolved icon |
| AtSign.WrittenUrlReadsBack | streamlit_app.py:79 | `@(url)` with a plain URL gives an anchor over the whole text, linking to the URL with `https://` added, with the label and the icon the resolver guesses |
| AtSign.WrittenLinkReadsBack | streamlit_app.py:32 | `@(label)(url)` with plain parts gives an anchor linking to the URL with `https://` added (`streamlit.io` becomes `https://streamlit.io`), with that label and the resolver's icon |
| Glyphs.LiteralAt | markdownlit/__init__.py:264-269 | a two-character pattern matches at `pos` exactly when those two characters stand there |
| Glyphs.NicerArrow | markdownlit/__init__.py:102-109 | the arrow span over the match; its meaning is stated by `Glyphs.ArrowReplacesMatch` |
| Glyphs.DoubleDash | markdownlit/__init__.py:112-119 | the dash span over the match; its meaning is stated by `Glyphs.DashReplacesMatch` |
| Glyphs.ArrowReplacesMatch | markdownlit/__init__.py:102-109 | `->` is replaced, over exactly its two characters, by a span whose only child is the text `→` |
| Glyphs.DashReplacesMatch | markdownlit/__init__.py:112-119 | `--` is replaced, over exactly its two characters, by a span whose only child is the text `—` |
| Glyphs.GlyphsExclusive | markdownlit/__init__.py:264-269 | the arrow and dash patterns never match at the same position |
| Color.ColorMatchAt | markdownlit/__init__.py:284 | a match starts at `pos` and lies within the text |
| Color.ColorMatchAtSound | markdownlit/__init__.py:284 | every match found is `[`, a palette name, `]`, non-empty content without `[`, `[/`, a palette name, `]`, side by side |
| Color.ColorMatchAtComplete | markdownlit/__init__.py:284 | with palette names free of regular-expression metacharacters, every such match starting at `pos` is the one found |
| Color.MismatchedTagsMatch | markdownlit/__init__.py:284 | `[red]x[/blue]` is a match: the two names are matched independently |
| Color.ColorHandle | markdownlit/__init__.py:229-235 | the coloured span over the match; its meaning is stated by `Color.ColorReplacesMatch` |
| Color.ColorReplacesMatch | markdownlit/__init__.py:229-235 | the match is replaced, over exactly its span, by a span with style `color:<hex>;`, where hex is shade `70` of the opening name, holding only the content |
| Color.ClosingNameIgnored | markdownlit/__init__.py:229-233 | matches that differ only in the closing name are replaced alike |
| Registration.Registry.Register | markdownlit/__init__.py:265-267 | a registration appends one entry with that item, name and priority, and keeps the earlier entries |
| Registration.ExtendMarkdown | markdownlit/__init__.py:261-289 | the registry gains exactly the four entries arrow, dash, at sign and colour, in that order, after what it held |
| Registration.MarkdownLitEntriesShape | markdownlit/__init__.py:264-289 | the four names are `nicerarrow`, `doubledash`, `atsign`, `color`, all distinct, all at priority 1000, with the matching processor kinds |
| Registration.ColorRe | markdownlit/__init__.py:283-284 | `COLOR_RE`, built from the palette names joined by the alternation bar, once per tag; the pattern string is carried but not interpreted (see `Registration.Apply` under Left out) |
| Registration.Apply | markdownlit/__init__.py:102-235 | a registered processor that matches replaces a span that starts at `pos` and lies within the text; only the at-sign processor can raise |
| AtSignExtension.Process | markdownlit/extensions/at_sign.py:85-113 | the copy's processor acts exactly where its pattern matches, and replaces a span that starts at `pos` |
| AtSignExtension.ProcessLinksHttps | markdownlit/extensions/at_sign.py:108-113 | what the copy returns replaces exactly the match, with an anchor whose link starts with `https://` |

## Left out

- Display I/O is not modelled: `css`, `md`, `mdlit`, every `st.write`, and the `write=True` path of `stx_mention`.
- The network is not modelled. `favicon.get` and `requests.get` are the two functions of a `Resolver.Web` parameter, and each returns `None` where the call would raise. The `st.experimental_memo` cache is not modelled, so the model assumes the same URL always gives the same answer.
- `validators.url` is the parameter `isUrl`, and its URL grammar is not modelled.
- The contents of `ST_COLOR_PALETTE` are a `Color.Palette` parameter. `Color.PaletteWellFormed` states what the model assumes of it: at least one colour, each with a shade `70`, and names that are non-empty and hold no regular-expression metacharacter (`.^$*+?{}[]\`, the alternation bar and the parentheses), so that each name stands for itself in `COLOR_RE`. Names such as `red` or `light-blue` qualify.
- An empty palette is not modelled. In the program it makes both name groups of `COLOR_RE` empty, so `[]x[/]` matches and the lookup of the name `""` raises `KeyError`. The palette comes from `streamlit_extras`, which is not part of this model; the usage in `streamlit_app.py` (`[blue]`, `[gray]`, `[red]`) relies on one with colours.
- HTML serialisation and parsing are not modelled. The model does not cover htbuilder's rendering or the `ET.fromstring` re-parse in `AtSignProcessor.handleMatch` and `ColorProcessor.handleMatch`: the element tree is built directly. htbuilder is not part of this model; it is taken to insert text and attribute values as they are, without escaping. This leaves out two things:
  - Markup inside colour content. The program re-parses it into child elements, so `[gray]<small>In:</small>[/gray]` gets a `small` child element. The model keeps the content as one text child.
  - The `ParseError` the re-parse raises on a bare `<` or `&`. This can come from text: a mention label, a text icon or colour content. It can also come from an attribute value: the `href`, as in `@(https://youtube.com/watch?v=a&t=1)`, or an image icon's `src`. So `Registration.Apply`'s "only the at-sign processor can raise" holds only of the model.
- The `contenteditable` attribute is the string `False`, which is how htbuilder renders the Python value.
- Python-Markdown's host machinery is not modelled: its inline search loop (which positions a processor is tried at), the `Registry`'s sorting by priority, and replacement of an entry registered under a name already in use. `Registration.Apply` tries one processor at one position.
- PyStr.Lower: `str.lower` is modelled on ASCII letters only. Python also lowers non-ASCII letters.
- Mention.ResolveIcon: uses that ASCII-only lowering. No non-ASCII character lowers to a single ASCII letter that appears in a keyword, so the keyword test is the same.
- Registration.Apply: each processor's pattern string is carried but not interpreted. Each processor's matcher (`Glyphs.LiteralAt`, `AtSign.MatchAt`, `Color.ColorMatchAt`) is written from its pattern and proved against the pattern's meaning.
- Color.ColorMatchAtComplete: the converse direction is proved only for palette names without regular-expression metacharacters. A name holding one would not match itself in the alternation.
- AtSign.WrittenMentionReadsBack: proved only for parts without parentheses. A part holding a parenthesis is split or stripped differently by the pattern.
- AtSign.WrittenLinkReadsBack: the same restriction to parts without parentheses.
- AtSign.WrittenUrlReadsBack: the same restriction to a URL without parentheses.
- The commented-out `AlignProcessor` and its registration are not modelled, and neither is the unused `SUPPORTED_PLATFORMS` tuple: both are dead code.
- The pymdownx and fenced-code extensions that `mdlit` enables belong to other libraries and are not modelled.
