/** The magic-link rule `@(icon)(label)(url)`: the match of `AT_SIGN_RE`, the
    stripping of its groups, `_add_https` and `AtSignProcessor.handleMatch`. */
module AtSign {
  import opened Wrappers
  import opened PyStr
  import opened Markup
  import opened Resolver
  import opened Mention

  const HTTPS := "https://"

  /** The style `handleMatch` puts on the anchor in place of the one `stx_mention` gave it. */
  const INLINE_STYLE := "display: inline; color:inherit; text-decoration:inherit;"

  /** `_add_https`: prefixes `https://` unless the URL already starts with it. */
  function AddHttps(url: string): (r: string)
    ensures StartsWith(r, HTTPS)
    ensures StartsWith(url, HTTPS) ==> r == url
    ensures !StartsWith(url, HTTPS) ==> r == HTTPS + url
  {
    if StartsWith(url, HTTPS) then url else HTTPS + url
  }

  /** Adding the prefix a second time changes nothing; `http://` is not recognised. */
  lemma AddHttpsIdempotent(url: string)
    ensures AddHttps(AddHttps(url)) == AddHttps(url)
    ensures AddHttps("http://" + url) == HTTPS + "http://" + url
  {
    var x := "http://" + url;
    if |x| >= |HTTPS| {
      assert x[..|HTTPS|][4] != HTTPS[4];
    }
  }

  /** One group `\([^)]+\)`: `(`, at least one character other than `)`, then `)`. */
  predicate IsGroup(g: string) {
    |g| >= 3 && g[0] == '(' && g[|g| - 1] == ')' && forall i :: 1 <= i < |g| - 1 ==> g[i] != ')'
  }

  /** Where a group that starts at `p` ends: just after the first `)` behind the
      opening `(`, provided at least one character lies between them. */
  function GroupEnd(text: string, p: nat): (r: Option<nat>)
    requires p <= |text|
    ensures r.Some? ==> p + 3 <= r.value <= |text|
  {
    if p < |text| && text[p] == '(' then
      var q := NextChar(text, ')', p + 1);
      if q > p + 1 then Some(q + 1) else None
    else None
  }

  /** A group ends at `e` exactly when `text[p..e]` is a group: the regular expression
      has at most one way to match a group at a given position. */
  lemma GroupEndSpec(text: string, p: nat, e: int)
    requires p <= |text|
    ensures GroupEnd(text, p) == Some(e) <==> p < e <= |text| && IsGroup(text[p..e])
  {
    if p < |text| && text[p] == '(' {
      NextCharIsFirst(text, ')', p + 1);
      var q := NextChar(text, ')', p + 1);
      if q > p + 1 {
        var g := text[p..q + 1];
        forall i | 1 <= i < |g| - 1 ensures g[i] != ')' {
          assert g[i] == text[p + i];
        }
      }
      if p < e <= |text| && IsGroup(text[p..e]) {
        var g := text[p..e];
        assert text[e - 1] == g[|g| - 1];
        forall j | p + 1 <= j < e - 1 ensures text[j] != ')' {
          assert text[j] == g[j - p];
        }
      }
    }
  }

  /** A match of `AT_SIGN_RE`: where it starts and ends and the text of groups
      `a`, `b` and `c` (`None` when an optional group did not take part). */
  datatype AtMatch = AtMatch(start: nat, end: nat, a: string, b: Option<string>, c: Option<string>)

  function OptText(g: Option<string>): string {
    if g.Some? then g.value else ""
  }

  /** Every group that took part is a group, and `c` takes part only after `b`. */
  predicate WellFormed(m: AtMatch) {
    && IsGroup(m.a)
    && (m.b.Some? ==> IsGroup(m.b.value))
    && (m.c.Some? ==> m.b.Some? && IsGroup(m.c.value))
  }

  /** What the regular expression means, stated without any search: the match covers
      `@` followed by its groups side by side, and when an optional group is missing no
      group follows (the optional groups are greedy). */
  ghost predicate Parses(text: string, m: AtMatch) {
    var ea := m.start + 1 + |m.a|;
    var eb := ea + |OptText(m.b)|;
    && m.start < m.end <= |text| && eb + |OptText(m.c)| == m.end && WellFormed(m)
    && text[m.start] == '@' && text[m.start + 1..ea] == m.a
    && text[ea..eb] == OptText(m.b) && text[eb..m.end] == OptText(m.c)
    && (m.c.None? ==> NoGroupAt(text, m.end))
  }

  /** `AT_SIGN_RE` matched at `pos`: `@`, the required group `a`, then `b` if a group
      follows, then `c` if one more follows. */
  function MatchAt(text: string, pos: nat): (r: Option<AtMatch>)
    requires pos <= |text|
    ensures r.Some? <==> pos < |text| && text[pos] == '@' && GroupEnd(text, pos + 1).Some?
    ensures r.Some? ==> r.value.start == pos < r.value.end <= |text|
  {
    if pos < |text| && text[pos] == '@' then
      match GroupEnd(text, pos + 1)
      case None => None
      case Some(ea) =>
        match GroupEnd(text, ea)
        case None => Some(AtMatch(pos, ea, text[pos + 1..ea], None, None))
        case Some(eb) =>
          match GroupEnd(text, eb)
          case None => Some(AtMatch(pos, eb, text[pos + 1..ea], Some(text[ea..eb]), None))
          case Some(ec) => Some(AtMatch(pos, ec, text[pos + 1..ea], Some(text[ea..eb]), Some(text[eb..ec])))
    else None
  }

  /** No group starts at `p`. */
  ghost predicate NoGroupAt(text: string, p: nat)
    requires p <= |text|
  {
    forall e {:trigger IsGroup(text[p..e])} :: p < e <= |text| ==> !IsGroup(text[p..e])
  }

  /** `GroupEnd` finds nothing at `p` exactly when no group starts there. */
  lemma NoGroupAtSpec(text: string, p: nat)
    requires p <= |text|
    ensures GroupEnd(text, p).None? <==> NoGroupAt(text, p)
  {
    if GroupEnd(text, p).Some? {
      GroupEndSpec(text, p, GroupEnd(text, p).value);
    } else {
      forall e | p < e <= |text| ensures !IsGroup(text[p..e]) {
        GroupEndSpec(text, p, e);
      }
    }
  }

  /** What `MatchAt` returns is a match in the sense of `Parses`. */
  lemma MatchAtSound(text: string, pos: nat)
    requires pos <= |text| && MatchAt(text, pos).Some?
    ensures Parses(text, MatchAt(text, pos).value)
  {
    var ea := GroupEnd(text, pos + 1).value;
    if GroupEnd(text, ea).None? {
      OneFound(text, pos, ea);
    } else {
      var eb := GroupEnd(text, ea).value;
      if GroupEnd(text, eb).None? {
        TwoFound(text, pos, ea, eb);
      } else {
        ThreeFound(text, pos, ea, eb, GroupEnd(text, eb).value);
      }
    }
  }

  /** A group that `text` holds at `p` is the one `GroupEnd` finds. */
  lemma GroupFound(text: string, p: nat, g: string)
    requires p + |g| <= |text| && text[p..p + |g|] == g && IsGroup(g)
    ensures GroupEnd(text, p) == Some(p + |g|)
  {
    GroupEndSpec(text, p, p + |g|);
  }

  /** The regular expression is deterministic: any match in the sense of `Parses`
      that starts at `pos` is the one `MatchAt` returns. */
  lemma MatchAtComplete(text: string, pos: nat, m: AtMatch)
    requires pos <= |text| && m.start == pos && Parses(text, m)
    ensures MatchAt(text, pos).Some? && MatchAt(text, pos).value == m
  {
    if m.b.None? {
      OneGroup(text, m);
    } else if m.c.None? {
      TwoGroups(text, m);
    } else {
      ThreeGroups(text, m);
    }
  }

  /** `@`, one group and no group after it: `MatchAt` takes that group. */
  lemma OneGroup(text: string, m: AtMatch)
    requires Parses(text, m) && m.b.None?
    ensures MatchAt(text, m.start) == Some(m)
  {
    var ea := m.start + 1 + |m.a|;
    GroupFound(text, m.start + 1, m.a);
    NoGroupAtSpec(text, ea);
    OneFound(text, m.start, ea);
  }

  /** `@`, two groups and no third: `MatchAt` takes both. */
  lemma TwoGroups(text: string, m: AtMatch)
    requires Parses(text, m) && m.b.Some? && m.c.None?
    ensures MatchAt(text, m.start) == Some(m)
  {
    var ea := m.start + 1 + |m.a|;
    var eb := ea + |m.b.value|;
    GroupFound(text, m.start + 1, m.a);
    GroupFound(text, ea, m.b.value);
    NoGroupAtSpec(text, eb);
    TwoFound(text, m.start, ea, eb);
  }

  /** `@` and three groups: `MatchAt` takes all three. */
  lemma ThreeGroups(text: string, m: AtMatch)
    requires Parses(text, m) && m.c.Some?
    ensures MatchAt(text, m.start) == Some(m)
  {
    var ea := m.start + 1 + |m.a|;
    var eb := ea + |m.b.value|;
    GroupFound(text, m.start + 1, m.a);
    GroupFound(text, ea, m.b.value);
    GroupFound(text, eb, m.c.value);
    ThreeFound(text, m.start, ea, eb, m.end);
  }

  /** One group found and none after it: `MatchAt` takes that group, and that is a
      match in the sense of `Parses`. */
  lemma OneFound(text: string, pos: nat, ea: nat)
    requires pos < |text| && text[pos] == '@'
    requires GroupEnd(text, pos + 1) == Some(ea) && GroupEnd(text, ea).None?
    ensures pos + 1 <= ea <= |text|
    ensures MatchAt(text, pos) == Some(AtMatch(pos, ea, text[pos + 1..ea], None, None))
    ensures Parses(text, AtMatch(pos, ea, text[pos + 1..ea], None, None))
  {
    GroupEndSpec(text, pos + 1, ea);
    NoGroupAtSpec(text, ea);
  }

  /** Two groups found in a row and no third: `MatchAt` takes both, and that is a
      match in the sense of `Parses`. */
  lemma TwoFound(text: string, pos: nat, ea: nat, eb: nat)
    requires pos < |text| && text[pos] == '@'
    requires GroupEnd(text, pos + 1) == Some(ea) && GroupEnd(text, ea) == Some(eb)
    requires GroupEnd(text, eb).None?
    ensures pos + 1 <= ea <= eb <= |text|
    ensures MatchAt(text, pos) == Some(AtMatch(pos, eb, text[pos + 1..ea], Some(text[ea..eb]), None))
    ensures Parses(text, AtMatch(pos, eb, text[pos + 1..ea], Some(text[ea..eb]), None))
  {
    GroupEndSpec(text, pos + 1, ea);
    GroupEndSpec(text, ea, eb);
    NoGroupAtSpec(text, eb);
  }

  /** Three groups found in a row are the three `MatchAt` takes, and that is a match
      in the sense of `Parses`. */
  lemma ThreeFound(text: string, pos: nat, ea: nat, eb: nat, ec: nat)
    requires pos < |text| && text[pos] == '@'
    requires GroupEnd(text, pos + 1) == Some(ea) && GroupEnd(text, ea) == Some(eb)
    requires GroupEnd(text, eb) == Some(ec)
    ensures pos + 1 <= ea <= eb <= ec <= |text|
    ensures MatchAt(text, pos) == Some(AtMatch(pos, ec, text[pos + 1..ea], Some(text[ea..eb]), Some(text[eb..ec])))
    ensures Parses(text, AtMatch(pos, ec, text[pos + 1..ea], Some(text[ea..eb]), Some(text[eb..ec])))
  {
    GroupEndSpec(text, pos + 1, ea);
    GroupEndSpec(text, ea, eb);
    GroupEndSpec(text, eb, ec);
  }

  /** The characters `strip("()")` removes. */
  const PARENS: set<char> := {'(', ')'}

  /** `m.groups()` without the groups that did not take part, in order. */
  function Present(m: AtMatch): seq<string> {
    [m.a] + (if m.b.Some? then [m.b.value] else []) + (if m.c.Some? then [m.c.value] else [])
  }

  /** `[group.strip("()") for group in m.groups() if group is not None]`. */
  function Groups(m: AtMatch): (r: seq<string>)
    ensures 1 <= |r| == |Present(m)| <= 3
    ensures forall i :: 0 <= i < |r| ==> r[i] == Strip(Present(m)[i], PARENS)
  {
    seq(|Present(m)|, i requires 0 <= i < |Present(m)| => Strip(Present(m)[i], PARENS))
  }

  /** The group list is a prefix of `(a, b, c)`, stripped: one to three entries, the
      second exactly when `b` took part, the third exactly when `c` did. */
  lemma GroupsShape(m: AtMatch)
    requires WellFormed(m)
    ensures 1 <= |Groups(m)| <= 3
    ensures Groups(m)[0] == Strip(m.a, PARENS)
    ensures |Groups(m)| >= 2 <==> m.b.Some?
    ensures |Groups(m)| >= 2 ==> Groups(m)[1] == Strip(m.b.value, PARENS)
    ensures |Groups(m)| == 3 <==> m.c.Some?
    ensures |Groups(m)| == 3 ==> Groups(m)[2] == Strip(m.c.value, PARENS)
  {
  }

  /** A stripped group holds no `)` and neither starts nor ends with `(`. */
  lemma StrippedGroup(g: string)
    requires IsGroup(g)
    ensures var s := Strip(g, PARENS);
      && ')' !in s
      && (s == [] || (s[0] != '(' && s[|s| - 1] != '('))
      && |s| <= |g| - 2
  {
    var s := Strip(g, PARENS);
    var lo := LeftEdge(g, PARENS, 0);
    assert lo >= 1 by {
      assert g[0] in PARENS;
    }
    if s != [] {
      assert lo + |s| <= |g| - 1 by {
        assert s[|s| - 1] == g[lo + |s| - 1];
      }
      forall k | 0 <= k < |s| ensures s[k] != ')' {
        assert s[k] == g[lo + k];
      }
    }
  }

  /** The icon, label and URL after the arity dispatch of `handleMatch`; the resolver
      is called on the last group when fewer than three were given. */
  function MentionParts(groups: seq<string>, web: Web): (r: Result<(string, string, string)>)
    requires 1 <= |groups| <= 3
    ensures r.Err? <==> |groups| < 3 && GuessIconAndLabel(groups[|groups| - 1], web).Err?
    ensures r.Ok? ==> r.value.2 == groups[|groups| - 1]
  {
    if |groups| == 1 then
      var url := groups[0];
      match GuessIconAndLabel(url, web)
      case Err(e) => Err(e)
      case Ok(guess) => Ok((guess.0, guess.1, url))
    else if |groups| == 2 then
      var url := groups[1];
      match GuessIconAndLabel(url, web)
      case Err(e) => Err(e)
      case Ok(guess) => Ok((guess.0, groups[0], url))
    else
      Ok((groups[0], groups[1], groups[2]))
  }

  /** Three groups are icon, label and URL as written, whatever the web does. */
  lemma ThreeGroupsVerbatim(groups: seq<string>, web: Web)
    requires |groups| == 3
    ensures MentionParts(groups, web) == Ok((groups[0], groups[1], groups[2]))
  {
  }

  /** Two groups are label and URL; the icon is the resolver's and its label is dropped. */
  lemma TwoGroupsLabelKept(groups: seq<string>, web: Web)
    requires |groups| == 2 && GuessIconAndLabel(groups[1], web).Ok?
    ensures MentionParts(groups, web) == Ok((GuessIconAndLabel(groups[1], web).value.0, groups[0], groups[1]))
  {
  }

  /** One group is the URL; icon and label both come from the resolver. */
  lemma OneGroupResolved(groups: seq<string>, web: Web)
    requires |groups| == 1 && GuessIconAndLabel(groups[0], web).Ok?
    ensures var guess := GuessIconAndLabel(groups[0], web).value;
      MentionParts(groups, web) == Ok((guess.0, guess.1, groups[0]))
  {
  }

  /** `handleMatch`: the mention anchor for the dispatched parts, with `https://`
      added to the URL and the inline style set, replacing exactly the match. */
  function HandleMatch(m: AtMatch, isUrl: string -> bool, web: Web): (r: Result<Replacement>)
    ensures r.Err? <==> MentionParts(Groups(m), web).Err?
    ensures r.Ok? ==> r.value.start == m.start && r.value.end == m.end
  {
    match MentionParts(Groups(m), web)
    case Err(e) => Err(e)
    case Ok(parts) =>
      var anchor := StxMention(parts.1, AddHttps(parts.2), parts.0, isUrl);
      Ok(Replacement(SetAttr(anchor, "style", INLINE_STYLE), m.start, m.end))
  }

  /** The anchor `handleMatch` returns links to the URL group with `https://` added,
      carries the inline style and `target="_blank"`, and shows the dispatched label
      and the resolved icon. */
  lemma HandleMatchAnchor(m: AtMatch, isUrl: string -> bool, web: Web)
    requires HandleMatch(m, isUrl, web).Ok?
    ensures var parts := MentionParts(Groups(m), web).value;
      var n := HandleMatch(m, isUrl, web).value.node;
      && n.Element? && n.tag == "a" && |n.children| == 4
      && n.attrs["style"] == INLINE_STYLE && n.attrs["target"] == "_blank"
      && HrefOf(n) == Some(AddHttps(Groups(m)[|Groups(m)| - 1]))
      && StartsWith(HrefOf(n).value, HTTPS)
      && LabelOf(n) == Some(parts.1)
      && IconOf(n) == Some(ResolveIcon(parts.0))
  {
    var parts := MentionParts(Groups(m), web).value;
    MentionReadBack(parts.1, AddHttps(parts.2), parts.0, isUrl);
  }

  /** A group written around `s`. */
  function Group(s: string): string {
    "(" + s + ")"
  }

  /** Text fit to sit inside a group and to survive `strip("()")` unchanged. */
  predicate Plain(s: string) {
    |s| >= 1 && '(' !in s && ')' !in s
  }

  /** A plain text in parentheses is a group. */
  lemma PlainIsGroup(s: string)
    requires Plain(s)
    ensures IsGroup(Group(s))
  {
    var g := Group(s);
    forall i | 1 <= i < |g| - 1 ensures g[i] != ')' {
      assert g[i] == s[i - 1];
    }
  }

  /** Stripping a plain text in parentheses gives the text back. */
  lemma PlainStripped(s: string)
    requires Plain(s)
    ensures Strip(Group(s), PARENS) == s
  {
    var g := Group(s);
    assert g[1] == s[0] && g[|g| - 2] == s[|s| - 1];
    assert g[1..|g| - 1] == s;
  }

  /** The three parts of `x + a + b + c` after `x`, by position. */
  lemma Pieces(x: string, a: string, b: string, c: string)
    ensures var t := x + a + b + c;
      && t[|x|..|x| + |a|] == a && t[|x| + |a|..|x| + |a| + |b|] == b
      && t[|x| + |a| + |b|..|t|] == c
  {
    var t := x + a + b + c;
    assert t == x + (a + b + c);
    assert t[|x|..] == a + b + c;
    assert (a + b + c) == a + (b + c);
  }

  /** The match of `@(icon)(label)(url)` written with plain parts. */
  function WrittenMatch(parts: seq<string>): (m: AtMatch)
    requires 1 <= |parts| <= 3
  {
    var text := Written(parts);
    AtMatch(0, |text|, Group(parts[0]),
      if |parts| >= 2 then Some(Group(parts[1])) else None,
      if |parts| == 3 then Some(Group(parts[2])) else None)
  }

  /** `@` followed by each part in parentheses. */
  function Written(parts: seq<string>): string
    requires 1 <= |parts| <= 3
  {
    "@" + Group(parts[0]) + (if |parts| >= 2 then Group(parts[1]) else "")
      + (if |parts| == 3 then Group(parts[2]) else "")
  }

  /** Three groups side by side after `@` are parsed as one match over the text. */
  lemma ThreeGroupsParse(a: string, b: string, c: string)
    requires IsGroup(a) && IsGroup(b) && IsGroup(c)
    ensures Parses("@" + a + b + c, AtMatch(0, 1 + |a| + |b| + |c|, a, Some(b), Some(c)))
  {
    Pieces("@", a, b, c);
  }

  /** Two groups after `@`, with nothing behind them, are parsed as one match over the
      text. */
  lemma TwoGroupsParse(a: string, b: string)
    requires IsGroup(a) && IsGroup(b)
    ensures Parses("@" + a + b, AtMatch(0, 1 + |a| + |b|, a, Some(b), None))
  {
    Pieces("@", a, b, "");
    assert "@" + a + b + "" == "@" + a + b;
  }

  /** One group after `@`, with nothing behind it, is parsed as one match over the
      text. */
  lemma OneGroupParse(a: string)
    requires IsGroup(a)
    ensures Parses("@" + a, AtMatch(0, 1 + |a|, a, None, None))
  {
    Pieces("@", a, "", "");
    assert "@" + a + "" + "" == "@" + a;
  }

  /** A plain URL written as `@(url)` is parsed as one match over the whole text. */
  lemma WrittenUrlParses(url: string)
    requires Plain(url)
    ensures Parses(Written([url]), WrittenMatch([url]))
  {
    PlainIsGroup(url);
    OneGroupParse(Group(url));
    assert Written([url]) == "@" + Group(url);
  }

  /** Two or three plain parts written out are parsed as one match over the whole
      text. */
  lemma WrittenParses(parts: seq<string>)
    requires 2 <= |parts| <= 3 && forall i :: 0 <= i < |parts| ==> Plain(parts[i])
    ensures Parses(Written(parts), WrittenMatch(parts))
  {
    PlainIsGroup(parts[0]);
    PlainIsGroup(parts[1]);
    if |parts| == 3 {
      PlainIsGroup(parts[2]);
      ThreeGroupsParse(Group(parts[0]), Group(parts[1]), Group(parts[2]));
    } else {
      TwoGroupsParse(Group(parts[0]), Group(parts[1]));
      assert Written(parts) == "@" + Group(parts[0]) + Group(parts[1]);
    }
  }

  /** The stripped groups of a written match are the parts. */
  lemma WrittenGroups(parts: seq<string>)
    requires 1 <= |parts| <= 3 && forall i :: 0 <= i < |parts| ==> Plain(parts[i])
    ensures Groups(WrittenMatch(parts)) == parts
  {
    var m := WrittenMatch(parts);
    assert |Present(m)| == |parts|;
    forall i | 0 <= i < |parts| ensures Groups(m)[i] == parts[i] {
      assert Present(m)[i] == Group(parts[i]);
      PlainStripped(parts[i]);
    }
  }

  /** Writing `@(icon)(label)(url)` with plain parts and handing it to the rule gives
      back the three parts: the match covers the whole text, and the anchor links to the
      URL with `https://` added, shows the label, and shows the resolved icon. */
  lemma WrittenMentionReadsBack(icon: string, labelText: string, url: string, isUrl: string -> bool, web: Web)
    requires Plain(icon) && Plain(labelText) && Plain(url)
    ensures var text := Written([icon, labelText, url]);
      && MatchAt(text, 0).Some? && MatchAt(text, 0).value.end == |text|
      && HandleMatch(MatchAt(text, 0).value, isUrl, web).Ok?
      && var n := HandleMatch(MatchAt(text, 0).value, isUrl, web).value.node;
      && HrefOf(n) == Some(AddHttps(url)) && LabelOf(n) == Some(labelText)
      && IconOf(n) == Some(ResolveIcon(icon))
  {
    var parts := [icon, labelText, url];
    WrittenParses(parts);
    WrittenGroups(parts);
    var m := WrittenMatch(parts);
    MatchAtComplete(Written(parts), 0, m);
    HandleMatchAnchor(m, isUrl, web);
  }

  /** Writing `@(label)(url)` with plain parts gives back the label and the URL with
      `https://` added; the icon is the one the resolver guesses for the URL. */
  lemma WrittenLinkReadsBack(labelText: string, url: string, isUrl: string -> bool, web: Web)
    requires Plain(labelText) && Plain(url) && GuessIconAndLabel(url, web).Ok?
    ensures var text := Written([labelText, url]);
      && MatchAt(text, 0).Some? && MatchAt(text, 0).value.end == |text|
      && HandleMatch(MatchAt(text, 0).value, isUrl, web).Ok?
      && var n := HandleMatch(MatchAt(text, 0).value, isUrl, web).value.node;
      && HrefOf(n) == Some(AddHttps(url)) && LabelOf(n) == Some(labelText)
      && IconOf(n) == Some(ResolveIcon(GuessIconAndLabel(url, web).value.0))
  {
    var parts := [labelText, url];
    WrittenParses(parts);
    WrittenGroups(parts);
    var m := WrittenMatch(parts);
    MatchAtComplete(Written(parts), 0, m);
    HandleMatchAnchor(m, isUrl, web);
  }

  /** Writing `@(url)` with a plain URL gives back the URL with `https://` added; the
      icon and the label are the ones the resolver guesses for it. */
  lemma WrittenUrlReadsBack(url: string, isUrl: string -> bool, web: Web)
    requires Plain(url) && GuessIconAndLabel(url, web).Ok?
    ensures var text := Written([url]);
      && MatchAt(text, 0).Some? && MatchAt(text, 0).value.end == |text|
      && HandleMatch(MatchAt(text, 0).value, isUrl, web).Ok?
      && var n := HandleMatch(MatchAt(text, 0).value, isUrl, web).value.node;
      && var guess := GuessIconAndLabel(url, web).value;
      && HrefOf(n) == Some(AddHttps(url)) && LabelOf(n) == Some(guess.1)
      && IconOf(n) == Some(ResolveIcon(guess.0))
  {
    var parts := [url];
    WrittenUrlParses(url);
    WrittenGroups(parts);
    var m := WrittenMatch(parts);
    MatchAtComplete(Written(parts), 0, m);
    HandleMatchAnchor(m, isUrl, web);
  }
}
