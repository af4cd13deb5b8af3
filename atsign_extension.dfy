/** `markdownlit/extensions/at_sign.py`: the stand-alone copy of the magic-link rule.
    Its `stx_mention`, `AtSignProcessor._add_https`, `handleMatch`, `_get_page_title`
    and `_guess_icon_and_label` read character for character like those of
    `markdownlit/__init__.py`, so the members of `Mention`, `AtSign` and `Resolver`
    model both files. This module holds the copy's own pattern and its processor
    tried at a position. */
module AtSignExtension {
  import opened Wrappers
  import opened PyStr
  import opened Markup
  import opened Resolver
  import opened Mention
  import opened AtSign
  import Registration
  import Color

  /** The module-level `AT_SIGN_RE` of the copy. */
  const AT_SIGN_RE := @"@(?P<a>\([^)]+\))(?P<b>\([^)]+\))?(?P<c>\([^)]+\))?"

  /** The copy's `AtSignProcessor` tried at `pos`: `None` when `AT_SIGN_RE` does not
      match there, otherwise what `handleMatch` returns (or raises). */
  function Process(text: string, pos: nat, isUrl: string -> bool, web: Web): (r: Option<Result<Replacement>>)
    requires pos <= |text|
    ensures r.Some? <==> MatchAt(text, pos).Some?
    ensures r.Some? && r.value.Ok? ==> r.value.value.start == pos < r.value.value.end <= |text|
  {
    match MatchAt(text, pos)
    case None => None
    case Some(m) => Some(HandleMatch(m, isUrl, web))
  }

  /** The copy's pattern is the registered one, and its processor is the registered
      at-sign processor's branch of `Registration.Apply`. */
  lemma SameAsRegistered(text: string, pos: nat, env: Registration.Env)
    requires pos <= |text| && Color.PaletteWellFormed(env.palette)
    ensures AT_SIGN_RE == Registration.AT_SIGN_RE
    ensures Process(text, pos, env.isUrl, env.web)
      == Registration.Apply(Registration.AtSignProcessor(AT_SIGN_RE), text, pos, env)
  {
  }

  /** What the copy returns replaces exactly the match, with an anchor whose link
      starts with `https://`. */
  lemma ProcessLinksHttps(text: string, pos: nat, isUrl: string -> bool, web: Web)
    requires pos <= |text| && Process(text, pos, isUrl, web).Some?
    requires Process(text, pos, isUrl, web).value.Ok?
    ensures var r := Process(text, pos, isUrl, web).value.value;
      && r.start == pos && r.end == MatchAt(text, pos).value.end && r.end <= |text|
      && HrefOf(r.node).Some? && StartsWith(HrefOf(r.node).value, HTTPS)
  {
    HandleMatchAnchor(MatchAt(text, pos).value, isUrl, web);
  }
}
