/** `stx_mention` on its return path: the anchor element of a mention, with the
    platform keywords turned into icon URLs. */
module Mention {
  import opened Wrappers
  import opened PyStr
  import opened Markup

  const GITHUB_ICON := "https://cdn-icons-png.flaticon.com/512/25/25231.png"
  const NOTION_ICON := "https://upload.wikimedia.org/wikipedia/commons/4/45/Notion_app_logo.png"
  const TWITTER_ICON := "https://seeklogo.com/images/T/twitter-icon-circle-blue-logo-0902F48837-seeklogo.com.png"
  const STREAMLIT_ICON := "https://aws1.discourse-cdn.com/business7/uploads/streamlit/original/2X/f/f0d0d26db1f2d99da8472951c60e5a1b782eb6fe.png"

  /** The inline styles of the image, the anchor and the label span. */
  const IMG_STYLE := "width:1em;height:1em;vertical-align:-0.15em;border-radius:3px;margin-right:0.3em"
  const ANCHOR_STYLE := "color:inherit;text-decoration:inherit; height:auto!important;margin-left:5px;"
  const LABEL_STYLE := "border-bottom:0.05em solid rgba(55,53,47,0.25);font-weight:500;flex-shrink:0;"

  /** The keyword table the if-chain implements, as a map from lower-case keyword to icon. */
  const PLATFORM_ICONS: map<string, string> := map[
    "github" := GITHUB_ICON,
    "notion" := NOTION_ICON,
    "twitter" := TWITTER_ICON,
    "streamlit" := STREAMLIT_ICON
  ]

  /** The icon after the keyword chain: a keyword, in any case, becomes its platform's
      icon URL; anything else is kept as it is. */
  function ResolveIcon(icon: string): (r: string)
    ensures Lower(icon) in PLATFORM_ICONS ==> r == PLATFORM_ICONS[Lower(icon)]
    ensures Lower(icon) !in PLATFORM_ICONS ==> r == icon
  {
    var key := Lower(icon);
    if key == "github" then GITHUB_ICON
    else if key == "notion" then NOTION_ICON
    else if key == "twitter" then TWITTER_ICON
    else if key == "streamlit" then STREAMLIT_ICON
    else icon
  }

  /** No icon URL is itself a keyword, so resolving twice changes nothing more. */
  lemma ResolveIconIdempotent(icon: string)
    ensures ResolveIcon(ResolveIcon(icon)) == ResolveIcon(icon)
  {
    var r := ResolveIcon(icon);
    if r != icon {
      assert |r| >= 10;
      LongIsNoKeyword(r);
    }
  }

  /** A string of ten or more characters is no keyword (`lower` keeps the length), so it is kept. */
  lemma LongIsNoKeyword(u: string)
    requires |u| >= 10
    ensures ResolveIcon(u) == u
  {
    var l := Lower(u);
    assert |l| >= 10;
  }

  /** The icon child: an `img` when the (resolved) icon is a URL, otherwise the icon
      text followed by two spaces. */
  function IconNode(icon: string, isUrl: string -> bool): (r: Node)
    ensures isUrl(icon) ==>
      && r.Element? && r.tag == "img" && r.attrs.Keys == {"src", "style"}
      && r.attrs["src"] == icon && r.attrs["style"] == IMG_STYLE && r.children == []
    ensures !isUrl(icon) ==> r == Text(icon + "  ")
  {
    if isUrl(icon) then Element("img", map["src" := icon, "style" := IMG_STYLE], [])
    else Text(icon + "  ")
  }

  /** An empty `span()`. */
  const EMPTY_SPAN: Node := Element("span", map[], [])

  /** The anchor `stx_mention(label, url, icon, write=False)` renders; `isUrl` stands
      for `validators.url`. */
  function StxMention(labelText: string, url: string, icon: string, isUrl: string -> bool): (r: Node)
    ensures r.Element? && r.tag == "a"
    ensures r.attrs.Keys == {"contenteditable", "href", "rel", "style", "target"}
    ensures r.attrs["href"] == url && r.attrs["target"] == "_blank"
    ensures |r.children| == 4 && r.children[0] == EMPTY_SPAN && r.children[3] == EMPTY_SPAN
    ensures r.children[1] == IconNode(ResolveIcon(icon), isUrl)
    ensures r.children[2] == Element("span", map["style" := LABEL_STYLE], [Text(labelText)])
  {
    Element(
      "a",
      map[
        "contenteditable" := "False",
        "href" := url,
        "rel" := "noopener noreferrer",
        "style" := ANCHOR_STYLE,
        "target" := "_blank"
      ],
      [EMPTY_SPAN, IconNode(ResolveIcon(icon), isUrl),
       Element("span", map["style" := LABEL_STYLE], [Text(labelText)]), EMPTY_SPAN])
  }

  /** Reads back what a mention anchor links to. */
  function HrefOf(n: Node): Option<string> {
    if n.Element? && "href" in n.attrs then Some(n.attrs["href"]) else None
  }

  /** Reads back the label of a mention anchor: the only text of its third child. */
  function LabelOf(n: Node): Option<string> {
    if n.Element? && |n.children| == 4 && n.children[2].Element?
      && |n.children[2].children| == 1 && n.children[2].children[0].Text?
    then Some(n.children[2].children[0].text)
    else None
  }

  /** Reads back the icon of a mention anchor: the image source, or the text with its
      two trailing spaces removed. */
  function IconOf(n: Node): Option<string> {
    if n.Element? && |n.children| == 4 then
      var c := n.children[1];
      if c.Element? && "src" in c.attrs then Some(c.attrs["src"])
      else if c.Text? && |c.text| >= 2 then Some(c.text[..|c.text| - 2])
      else None
    else None
  }

  /** The anchor gives back the URL, the label and the resolved icon it was built from,
      whether or not the icon is a URL. */
  lemma MentionReadBack(labelText: string, url: string, icon: string, isUrl: string -> bool)
    ensures var n := StxMention(labelText, url, icon, isUrl);
      HrefOf(n) == Some(url) && LabelOf(n) == Some(labelText) && IconOf(n) == Some(ResolveIcon(icon))
  {
    var n := StxMention(labelText, url, icon, isUrl);
    var ri := ResolveIcon(icon);
    if !isUrl(ri) {
      assert n.children[1] == Text(ri + "  ");
      assert (ri + "  ")[..|ri|] == ri;
    }
  }
}
