/** The scraper (scraper.py, `download_and_scrape_blocking`): a video download
    through yt-dlp, then, when that left the title generic or no video, the
    page's OpenGraph metadata as a fallback. Both collaborators are abstract
    outcomes; what is left is a deterministic function of them. */
module Scraper {
  import opened Common
  import opened Text

  /** The fields of yt-dlp's info dict the scraper reads; a missing or `None`
      value is `""`. */
  datatype Info = Info(title: string, thumbnail: string, description: string, caption: string)

  /** What `extract_info(url, download=True)` did: raised, returned nothing
      (restricted content under `ignoreerrors`), or returned the info dict, with
      the files the download left behind (`glob`, in its order). */
  datatype Extraction =
    | ExtractRaised
    | NoInfo
    | Extracted(info: Info, files: seq<string>)

  /** The page's `<title>` tag: absent, or present with its `.string`, which is
      `None` when the tag does not hold exactly one string. */
  datatype TitleTag = NoTitleTag | TitleTag(text: Option<string>)

  /** The parsed page: the `content` of each `og:` meta tag that is present
      (`""` when the attribute is missing), and the title tag. */
  datatype Page = Page(ogTitle: Option<string>, ogDescription: Option<string>, ogImage: Option<string>, title: TitleTag)

  /** What the HTML request did: raised, or answered with a status and a body. */
  datatype Fetch = FetchRaised | Fetched(status: int, page: Page)

  /** The returned `data` dict, and whether the page was requested. */
  datatype Scraped = Scraped(
    url: string,
    title: string,
    image: string,
    videoPath: Option<string>,
    description: string,
    pageFetched: bool)

  const InstagramReel := "Instagram Reel"
  const Restricted := "Saved Link (Restricted)"

  // ---------------------------------------------------------------------------
  // 1. The download
  // ---------------------------------------------------------------------------

  /** yt-dlp's description, or its caption when the description is empty. */
  function DescriptionOf(info: Info): (d: string)
    ensures info.description != [] ==> d == info.description
    ensures info.description == [] ==> d == info.caption
  {
    if info.description != [] then info.description else info.caption
  }

  /** A title the bot treats as generic: empty, or mentioning Instagram in any case. */
  predicate GenericTitle(t: string) {
    t == [] || ContainsLower(t, "instagram")
  }

  /** The `data` dict after the download step: the info dict's fields, with a
      generic title renamed `"Instagram Reel"` for an Instagram url, and the
      first downloaded file as the video. A raise or an empty result leaves
      the initial, empty dict. */
  function Download(url: string, ex: Extraction): (d: Scraped)
    ensures d.url == url && !d.pageFetched
    ensures !ex.Extracted? ==> d == Scraped(url, "", "", None, "", false)
    ensures ex.Extracted? ==>
      && d.image == ex.info.thumbnail
      && d.description == DescriptionOf(ex.info)
      && (d.title == InstagramReel <==>
            ex.info.title == InstagramReel || (GenericTitle(ex.info.title) && Contains(url, "instagram")))
      && (d.title != InstagramReel ==> d.title == ex.info.title)
    ensures d.videoPath.Some? <==> ex.Extracted? && ex.files != []
    ensures d.videoPath.Some? ==> d.videoPath.value == ex.files[0]
  {
    match ex
    case ExtractRaised => Scraped(url, "", "", None, "", false)
    case NoInfo => Scraped(url, "", "", None, "", false)
    case Extracted(info, files) =>
      var title := if GenericTitle(info.title) && Contains(url, "instagram") then InstagramReel else info.title;
      var video := if files != [] then Some(files[0]) else None;
      Scraped(url, title, info.thumbnail, video, DescriptionOf(info), false)
  }

  // ---------------------------------------------------------------------------
  // 2. The metadata fallback
  // ---------------------------------------------------------------------------

  /** The page is requested when the title is empty or the Instagram
      placeholder, or there is no video. */
  predicate NeedsPage(d: Scraped) {
    d.title == [] || d.title == InstagramReel || !Present(d.videoPath)
  }

  /** `(desc[:50] + '...') if len(desc) > 50 else desc` */
  function TitleFromDescription(desc: string): (t: string)
    ensures |desc| <= 50 ==> t == desc
    ensures |desc| > 50 ==> |t| == 53 && t[..50] == desc[..50] && t[50..] == "..."
  {
    if |desc| > 50 then Take(desc, 50) + "..." else desc
  }

  /** What the page contributes on status 200, before the title cleanup:
      each present `og:` tag replaces its field; absent ones leave it. */
  function ApplyOpenGraph(d: Scraped, page: Page): (e: Scraped)
    ensures e.url == d.url && e.videoPath == d.videoPath && e.pageFetched == d.pageFetched
    ensures e.title == (if page.ogTitle.Some? then page.ogTitle.value else d.title)
    ensures e.description == (if page.ogDescription.Some? then page.ogDescription.value else d.description)
    ensures e.image == (if page.ogImage.Some? then page.ogImage.value else d.image)
  {
    d.(title := if page.ogTitle.Some? then page.ogTitle.value else d.title,
       description := if page.ogDescription.Some? then page.ogDescription.value else d.description,
       image := if page.ogImage.Some? then page.ogImage.value else d.image)
  }

  /** The outcome of the title cleanup: a title that still mentions Instagram
      is replaced by the description (shortened) when there is one, else by
      the `<title>` text with `"Instagram"` removed. A `<title>` without a
      single string raises, which the surrounding `try` swallows: the title
      is then kept. */
  function CleanTitle(title: string, description: string, tag: TitleTag): (t: string)
    ensures !ContainsLower(title, "instagram") ==> t == title
    ensures ContainsLower(title, "instagram") && description != [] ==> t == TitleFromDescription(description)
    ensures ContainsLower(title, "instagram") && description == [] ==>
      t == (if tag.TitleTag? && tag.text.Some? then Strip(RemoveAll(tag.text.value, "Instagram")) else title)
  {
    if !ContainsLower(title, "instagram") then title
    else if description != [] then TitleFromDescription(description)
    else match tag
      case NoTitleTag => title
      case TitleTag(text) => if text.Some? then Strip(RemoveAll(text.value, "Instagram")) else title
  }

  /** The fallback step: only a 200 answer is used; a raise or another status
      leaves the dict as the download left it. */
  function Fallback(d: Scraped, fetch: Fetch): (e: Scraped)
    ensures e.url == d.url && e.videoPath == d.videoPath
    ensures e.pageFetched
    ensures !(fetch.Fetched? && fetch.status == 200) ==> e == d.(pageFetched := true)
  {
    match fetch
    case FetchRaised => d.(pageFetched := true)
    case Fetched(status, page) =>
      if status != 200 then d.(pageFetched := true)
      else
        var o := ApplyOpenGraph(d, page);
        o.(title := CleanTitle(o.title, o.description, page.title), pageFetched := true)
  }

  /** `download_and_scrape_blocking(url)`. */
  function Scrape(url: string, ex: Extraction, fetch: Fetch): (r: Scraped)
    ensures r.url == url
    ensures r.title != []
    ensures r.pageFetched <==> NeedsPage(Download(url, ex))
    ensures r.videoPath == Download(url, ex).videoPath
  {
    var d := Download(url, ex);
    var e := if NeedsPage(d) then Fallback(d, fetch) else d;
    if e.title == [] then e.(title := Restricted) else e
  }

  // ---------------------------------------------------------------------------
  // Properties
  // ---------------------------------------------------------------------------

  /** A title that starts with `"Instagram"` is generic. */
  lemma InstagramPrefixGeneric(t: string)
    requires |t| >= 9 && t[..9] == "Instagram"
    ensures GenericTitle(t)
  {
    var l := LowerAll(t);
    forall k | 0 <= k < 9 ensures l[k] == "instagram"[k] {
      assert l[k] == Lower(t[k]);
    }
    assert l[..9] == "instagram";
    assert OccursAt(l, "instagram", 0);
  }

  /** A download that produced a file and a title that is not generic is
      returned as the extractor gave it, and the page is never requested. */
  lemma CleanDownloadSkipsPage(url: string, info: Info, files: seq<string>, fetch: Fetch)
    requires files != [] && files[0] != []
    requires !GenericTitle(info.title)
    ensures Scrape(url, Extracted(info, files), fetch)
      == Scraped(url, info.title, info.thumbnail, Some(files[0]), DescriptionOf(info), false)
  {
    InstagramPrefixGeneric(InstagramReel);
    var d := Download(url, Extracted(info, files));
    assert d.title == info.title;
    assert !NeedsPage(d);
  }

  /** A failed download always falls back to the page. */
  lemma NoVideoFetchesPage(url: string, ex: Extraction, fetch: Fetch)
    requires !(ex.Extracted? && ex.files != [])
    ensures Scrape(url, ex, fetch).pageFetched
    ensures Scrape(url, ex, fetch).videoPath.None?
  {
  }

  /** OpenGraph tags are used only on a 200 answer: otherwise description and
      image are the download's, and so is the title unless it was empty and
      became the `"Saved Link (Restricted)"` sentinel. */
  lemma OpenGraphOnlyOn200(url: string, ex: Extraction, fetch: Fetch)
    requires !(fetch.Fetched? && fetch.status == 200)
    ensures var r := Scrape(url, ex, fetch);
            var d := Download(url, ex);
      && r.description == d.description
      && r.image == d.image
      && r.title == (if d.title == [] then Restricted else d.title)
  {
  }

  /** On a 200 answer with an `og:title` that does not mention Instagram, that
      tag is the title; with an `og:description`, it is the description. */
  lemma OpenGraphWins(url: string, ex: Extraction, page: Page)
    requires NeedsPage(Download(url, ex))
    requires page.ogTitle.Some? && page.ogTitle.value != [] && !ContainsLower(page.ogTitle.value, "instagram")
    ensures Scrape(url, ex, Fetched(200, page)).title == page.ogTitle.value
    ensures page.ogDescription.Some? ==> Scrape(url, ex, Fetched(200, page)).description == page.ogDescription.value
  {
  }

  /** When the page's title is about Instagram and the page has a description,
      the title is made from the description: itself when at most 50
      characters long, else its first 50 characters and `"..."`. */
  lemma DescriptionBecomesTitle(url: string, ex: Extraction, page: Page)
    requires NeedsPage(Download(url, ex))
    requires page.ogTitle.Some? && ContainsLower(page.ogTitle.value, "instagram")
    requires page.ogDescription.Some? && page.ogDescription.value != []
    ensures var t := Scrape(url, ex, Fetched(200, page)).title;
            var desc := page.ogDescription.value;
      && (|desc| <= 50 ==> t == desc)
      && (|desc| > 50 ==> t == desc[..50] + "...")
  {
    var desc := page.ogDescription.value;
    if |desc| > 50 {
      var t := TitleFromDescription(desc);
      assert t == t[..50] + t[50..];
    }
  }
}
