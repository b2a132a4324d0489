/** The Telegram handler (bot.py, `handle_message` and `handle_chat_query`):
    a message with a link is ingested (duplicate check, download, analysis,
    geocoding, one save, a reply); any other message is a search over the
    user's saved links. Every collaborator is an abstract outcome or a
    function parameter; the result lists the collaborators consulted, the
    store afterwards and the messages sent. */
module Bot {
  import opened Common
  import opened Text
  import Scraper
  import AiEngine
  import Geo
  import Database

  // ---------------------------------------------------------------------------
  // Finding the link: re.search(r'(https?://\S+)', text)
  // ---------------------------------------------------------------------------

  /** Where the `\S+` part starts when a scheme `https://` or `http://` is at `p`. */
  function SchemeEnd(s: string, p: nat): (k: Option<nat>)
    ensures k.Some? ==> (OccursAt(s, "https://", p) && k.value == p + 8) || (OccursAt(s, "http://", p) && k.value == p + 7)
    ensures k.None? ==> !OccursAt(s, "https://", p) && !OccursAt(s, "http://", p)
  {
    if OccursAt(s, "https://", p) then Some(p + 8)
    else if OccursAt(s, "http://", p) then Some(p + 7)
    else None
  }

  /** The pattern tried at `p`: a scheme followed by at least one
      non-whitespace character, then every further one (`\S+` is greedy).
      `s?` cannot help by giving its `s` back, since `://` must follow `http`. */
  function UrlAt(s: string, p: nat): (u: Option<string>)
    ensures u.Some? ==> OccursAt(s, u.value, p)
    ensures u.Some? ==> (|u.value| > 7 && u.value[..7] == "http://") || (|u.value| > 8 && u.value[..8] == "https://")
    ensures u.Some? ==> forall m | 0 <= m < |u.value| :: !IsSpace(u.value[m])
    ensures u.Some? ==> p + |u.value| == |s| || IsSpace(s[p + |u.value|])
  {
    match SchemeEnd(s, p)
    case None => None
    case Some(k) =>
      if k < |s| && !IsSpace(s[k]) then
        var e := WordEnd(s, k);
        var u := s[p..e];
        assert forall m | 0 <= m < k - p :: u[m] == s[p..k][m];
        assert u[..k - p] == s[p..k];
        assert |u| == e - p && e > k;
        assert forall m | 0 <= m < |u| :: u[m] == s[p + m];
        assert OccursAt(s, u, p);
        Some(u)
      else None
  }

  /** The leftmost match at or after `from`. */
  function FindUrl(s: string, from: nat): (u: Option<string>)
    ensures u.Some? ==> exists p | from <= p <= |s| :: UrlAt(s, p) == u && forall q | from <= q < p :: UrlAt(s, q).None?
    ensures u.None? ==> forall p | from <= p :: UrlAt(s, p).None?
    decreases |s| + 1 - from
  {
    if from > |s| then None
    else match UrlAt(s, from)
      case Some(x) => Some(x)
      case None => FindUrl(s, from + 1)
  }

  /** A link that contains no whitespace is found in a message that is just that link. */
  lemma BareLinkFound(link: string)
    requires |link| > 8 && link[..8] == "https://"
    requires forall m | 0 <= m < |link| :: !IsSpace(link[m])
    ensures FindUrl(link, 0) == Some(link)
  {
    assert OccursAt(link, "https://", 0);
    assert link[8] == link[8..][0];
    var e := WordEnd(link, 8);
    assert e == |link|;
    assert link[0..|link|] == link;
  }

  // ---------------------------------------------------------------------------
  // The chat path
  // ---------------------------------------------------------------------------

  const NoMatches := "\U{274C} No matching links found."

  /** `(Location: lat, lon)` when the latitude is truthy, else nothing. A number
      is rendered by `show`; `None` renders as Python does. */
  function LocInfo(row: Link<real>, show: real -> string): (t: string)
    ensures t != [] <==> Truthy(row.lat)
  {
    if Truthy(row.lat) then
      "(Location: " + show(row.lat.value) + ", " + (if row.lon.Some? then show(row.lon.value) else "None") + ")"
    else ""
  }

  /** One item of the context, numbered `k`. */
  function Item(k: nat, row: Link<real>, show: real -> string): string {
    "ITEM " + NatToString(k) + ":\nTitle: " + row.title + "\nCategory: " + row.category
      + "\nSummary: " + row.summary + "\nURL: " + row.url + " " + LocInfo(row, show) + "\n\n"
  }

  /** The items for `rows`, numbered from `first`, each rendered by `item`. */
  function Items(rows: seq<Link<real>>, first: nat, item: (nat, Link<real>) -> string): string
    decreases |rows|
  {
    if rows == [] then "" else item(first, rows[0]) + Items(rows[1..], first + 1, item)
  }

  const ContextHeader := "Database Results:\n\n"

  /** The context handed to the answer generator. */
  function Context(rows: seq<Link<real>>, show: real -> string): (t: string)
    ensures |t| >= |ContextHeader| && t[..|ContextHeader|] == ContextHeader
  {
    ContextHeader + Items(rows, 1, (k: nat, row: Link<real>) => Item(k, row, show))
  }

  /** Items are numbered consecutively in result order: appending a result
      appends its item, numbered one past the previous count. */
  lemma {:induction false} ItemsAppend(rows: seq<Link<real>>, row: Link<real>, first: nat, item: (nat, Link<real>) -> string)
    ensures Items(rows + [row], first, item) == Items(rows, first, item) + item(first + |rows|, row)
  {
    if rows == [] {
      assert rows + [row] == [row] && [row][1..] == [];
    } else {
      var a := item(first, rows[0]);
      var b := Items(rows[1..], first + 1, item);
      var c := item(first + |rows|, row);
      assert (rows + [row])[0] == rows[0];
      assert (rows + [row])[1..] == rows[1..] + [row];
      ItemsAppend(rows[1..], row, first + 1, item);
      assert a + (b + c) == (a + b) + c;
    }
  }

  /** The context of results `rows + [row]` is that of `rows` followed by the
      new row's item, numbered `|rows| + 1`. */
  lemma ContextAppend(rows: seq<Link<real>>, row: Link<real>, show: real -> string)
    ensures Context(rows + [row], show) == Context(rows, show) + Item(|rows| + 1, row, show)
  {
    var render := (k: nat, r: Link<real>) => Item(k, r, show);
    var items := Items(rows, 1, render);
    var item := Item(|rows| + 1, row, show);
    ItemsAppend(rows, row, 1, render);
    assert ContextHeader + (items + item) == (ContextHeader + items) + item;
  }

  /** `handle_chat_query`: the final text of the status message: the apology
      when nothing matches, else the generated answer over the context. */
  function ChatReply(st: Database.Store, user: int, query: string,
                     rag: (string, string) -> string, show: real -> string): (t: string)
    ensures Database.Search(st, user, query) == [] ==> t == NoMatches
    ensures Database.Search(st, user, query) != [] ==> t == rag(query, Context(Database.Search(st, user, query), show))
  {
    var results := Database.Search(st, user, query);
    if results == [] then NoMatches else rag(query, Context(results, show))
  }

  // ---------------------------------------------------------------------------
  // The ingestion path
  // ---------------------------------------------------------------------------

  /** The collaborators of one ingestion and what each did. */
  datatype Env = Env(
    statusSent: bool,                       // the "Downloading..." message was sent
    extraction: Scraper.Extraction,         // yt-dlp
    fetch: Scraper.Fetch,                   // the HTML fallback request
    ai: AiEngine.AiOutcome,                 // the AI service
    olaKey: bool,                           // an Ola Maps API key is configured
    ola: string -> Geo.OlaReply,            // Ola Maps
    osm: (nat, string) -> Geo.OsmReply,     // Nominatim: the reply to the n-th request
    saveFails: bool,                        // the INSERT raised
    pinFails: bool,                         // sending the map pin raised (and was swallowed)
    sendFails: bool,                        // sending the photo or the text raised
    rag: (string, string) -> string,        // the answer generator of the chat path
    show: real -> string)                   // how a coordinate prints

  /** A collaborator the handler consulted. */
  datatype Call =
    | SearchLinks
    | CheckDuplicate
    | ScrapeUrl
    | AnalyzeVideo
    | Geocode(name: string)
    | SaveLink(row: Database.NewLink)

  /** A message the bot sent (the transient status messages aside). */
  datatype Reply =
    | Text(text: string)
    | Photo(image: string, caption: string)
    | Location(lat: real, lon: real)

  datatype Handled = Handled(calls: seq<Call>, store: Database.Store, replies: seq<Reply>)

  const AlreadySaved := "\U{26A0}\U{FE0F} Already Saved."
  const DownloadFailed := "\U{26A0}\U{FE0F} Download failed."

  /** What the analysis step settles: the fields saved with the link. */
  datatype Enriched = Enriched(
    summary: string, category: string, location: Option<string>,
    lat: Option<real>, lon: Option<real>, analyzed: bool, geocoded: bool)

  /** Steps 2 and 3: with a video, the analysis, and the geocoder for a named
      location, falling back to the AI's own coordinates when the geocoder
      gives no latitude; without a video, the fixed failure values. */
  function Enrich(data: Scraper.Scraped, env: Env): (e: Enriched)
    ensures !Present(data.videoPath) ==>
      e == Enriched(DownloadFailed, AiEngine.Inbox, None, None, None, false, false)
    ensures Present(data.videoPath) ==> e.analyzed
    ensures e.geocoded <==> e.analyzed && AiEngine.Analyze(env.ai).location.Some?
    ensures !e.geocoded ==> e.lat.None? && e.lon.None?
    ensures e.analyzed ==>
      && var a := AiEngine.Analyze(env.ai);
         e.summary == a.summary && e.category == a.category && e.location == a.location
  {
    if !Present(data.videoPath) then Enriched(DownloadFailed, AiEngine.Inbox, None, None, None, false, false)
    else
      var a := AiEngine.Analyze(env.ai);
      match a.location
      case None => Enriched(a.summary, a.category, None, None, None, true, false)
      case Some(name) =>
        var g := Geo.BestCoordinates(env.olaKey, name, env.ola, env.osm);
        var lat := if g.coords.Some? then Some(g.coords.value.lat) else None;
        var lon := if g.coords.Some? then Some(g.coords.value.lon) else None;
        if !Truthy(lat) && a.coords.Some? then
          Enriched(a.summary, a.category, a.location, Some(a.coords.value.lat), Some(a.coords.value.lon), true, true)
        else Enriched(a.summary, a.category, a.location, lat, lon, true, true)
  }

  /** The text of the reply: category, title, the location line when the
      location and the latitude are truthy, and the first 200 characters of
      a non-empty summary followed by `...`. */
  function DisplayText(category: string, title: string, location: Option<string>, lat: Option<real>, summary: string): string
  {
    "\U{1F4C2} " + category + "\n" + title + "\n\n"
      + (if Present(location) && Truthy(lat) then "\U{1F4CD} Found: " + location.value + "\n" else "")
      + (if summary != [] then "\U{1F4DD} Analysis:\n" + Take(summary, 200) + "..." else "")
  }

  /** Step 5: a map pin when both coordinates are truthy and sending it does
      not raise (a raise there is swallowed), then the photo with the text as
      caption, or the text alone when there is no image, cut at 1000
      characters; if that send raises, a short `Saved:` note instead. */
  function Deliver(title: string, image: string, e: Enriched, pinFails: bool, sendFails: bool): (rs: seq<Reply>)
    ensures |rs| >= 1
    ensures forall i | 0 <= i < |rs| :: rs[i].Location? ==> i == 0 && Truthy(e.lat) && Truthy(e.lon) && !pinFails
    ensures Truthy(e.lat) && Truthy(e.lon) && !pinFails ==> |rs| == 2 && rs[0] == Location(e.lat.value, e.lon.value)
    ensures !(Truthy(e.lat) && Truthy(e.lon) && !pinFails) ==> |rs| == 1
    ensures sendFails ==> rs[|rs| - 1] == Text("Saved: " + title)
    ensures !sendFails && image != [] ==> rs[|rs| - 1].Photo? && rs[|rs| - 1].image == image
    ensures !sendFails && image == [] ==> rs[|rs| - 1].Text?
    ensures !sendFails ==> var last := rs[|rs| - 1];
      (if last.Photo? then last.caption else last.text)
        == Take(DisplayText(e.category, title, e.location, e.lat, e.summary), 1000)
  {
    var pin := if Truthy(e.lat) && Truthy(e.lon) && !pinFails then [Location(e.lat.value, e.lon.value)] else [];
    var text := Take(DisplayText(e.category, title, e.location, e.lat, e.summary), 1000);
    var main := if sendFails then Text("Saved: " + title)
                else if image != [] then Photo(image, text)
                else Text(text);
    pin + [main]
  }

  /** How many saves a trace holds. */
  function Saves(calls: seq<Call>): nat {
    if calls == [] then 0 else (if calls[0].SaveLink? then 1 else 0) + Saves(calls[1..])
  }

  lemma {:induction false} SavesAppend(a: seq<Call>, b: seq<Call>)
    ensures Saves(a + b) == Saves(a) + Saves(b)
  {
    if a == [] {
      assert a + b == b;
    } else {
      assert (a + b)[0] == a[0];
      assert (a + b)[1..] == a[1..] + b;
      SavesAppend(a[1..], b);
    }
  }

  /** The collaborators one ingestion consults, in order: the duplicate
      check, the scraper, the analyser and the geocoder when `e` says they
      were reached, and one save of `row`. */
  function Trace(e: Enriched, row: Database.NewLink): (calls: seq<Call>)
    requires e.geocoded ==> e.location.Some?
    ensures |calls| >= 3 && calls[0] == CheckDuplicate && calls[1] == ScrapeUrl
    ensures calls[|calls| - 1] == SaveLink(row)
    ensures Saves(calls) == 1
    ensures AnalyzeVideo in calls <==> e.analyzed
    ensures (exists i | 0 <= i < |calls| :: calls[i].Geocode?) <==> e.geocoded
    ensures forall i | 0 <= i < |calls| :: calls[i].Geocode? ==> calls[i] == Geocode(e.location.value)
  {
    var head := [CheckDuplicate, ScrapeUrl];
    var analysed := if e.analyzed then [AnalyzeVideo] else [];
    var geocoded := if e.geocoded then [Geocode(e.location.value)] else [];
    var calls := head + analysed + geocoded + [SaveLink(row)];
    SavesAppend(head + analysed + geocoded, [SaveLink(row)]);
    SavesAppend(head + analysed, geocoded);
    SavesAppend(head, analysed);
    assert Saves(head) == 0;
    assert Saves([SaveLink(row)]) == 1;
    assert e.geocoded ==> calls[|head + analysed|].Geocode?;
    calls
  }

  /** The row saved for `url`: the scraper's url, title and image, the
      enrichment's summary, category and coordinates, and the sender. */
  function RowFor(data: Scraper.Scraped, e: Enriched, user: int): (row: Database.NewLink)
    ensures row.url == data.url && row.title == data.title && row.image == data.image && row.userId == user
    ensures row.summary == e.summary && row.category == e.category && row.lat == e.lat && row.lon == e.lon
  {
    Database.NewLink(data.url, data.title, data.image, e.summary, e.category, user, e.lat, e.lon)
  }

  /** Steps 1 to 5 for a new link once the status message is out: scrape,
      enrich, save exactly once, reply. */
  function Ingest(url: string, user: int, st: Database.Store, env: Env): (h: Handled)
    ensures var data := Scraper.Scrape(url, env.extraction, env.fetch);
            var e := Enrich(data, env);
            var row := RowFor(data, e, user);
      && h.calls == Trace(e, row)
      && h.store == Database.SaveLink(st, row, env.saveFails)
      && h.replies == Deliver(data.title, data.image, e, env.pinFails, env.sendFails)
  {
    var data := Scraper.Scrape(url, env.extraction, env.fetch);
    var e := Enrich(data, env);
    var row := RowFor(data, e, user);
    Handled(Trace(e, row), Database.SaveLink(st, row, env.saveFails), Deliver(data.title, data.image, e, env.pinFails, env.sendFails))
  }

  /** `handle_message` for a message with text `text` from user `user`. */
  function HandleMessage(text: string, user: int, st: Database.Store, env: Env): (h: Handled)
    ensures FindUrl(text, 0).None? ==>
      h == Handled([SearchLinks], st, [Text(ChatReply(st, user, text, env.rag, env.show))])
    ensures FindUrl(text, 0).Some? ==> |h.calls| >= 1 && h.calls[0] == CheckDuplicate
  {
    match FindUrl(text, 0)
    case None => Handled([SearchLinks], st, [Text(ChatReply(st, user, text, env.rag, env.show))])
    case Some(url) =>
      if Database.IsDuplicate(st, url, user) then Handled([CheckDuplicate], st, [Text(AlreadySaved)])
      else if !env.statusSent then Handled([CheckDuplicate], st, [])
      else
        Ingest(url, user, st, env)
  }

  // ---------------------------------------------------------------------------
  // Properties
  // ---------------------------------------------------------------------------

  /** A message without a link is a search: nothing is scraped, analysed,
      geocoded or saved, and the store is untouched. */
  lemma ChatNeverSaves(text: string, user: int, st: Database.Store, env: Env)
    requires FindUrl(text, 0).None?
    ensures var h := HandleMessage(text, user, st, env);
      h.store == st && h.calls == [SearchLinks] && Saves(h.calls) == 0
  {
  }

  /** A link the user already saved gets `"Already Saved."` and nothing else:
      no scrape, no analysis, no geocoding, no save. */
  lemma DuplicateShortCircuits(text: string, user: int, st: Database.Store, env: Env)
    requires FindUrl(text, 0).Some? && Database.IsDuplicate(st, FindUrl(text, 0).value, user)
    ensures HandleMessage(text, user, st, env) == Handled([CheckDuplicate], st, [Text(AlreadySaved)])
  {
  }

  /** Once the status message is out, a new link is saved exactly once, with
      the scraper's url, title and image, and the user's id; the url is the
      link found in the message. */
  lemma SavedExactlyOnce(text: string, user: int, st: Database.Store, env: Env)
    requires FindUrl(text, 0).Some? && !Database.IsDuplicate(st, FindUrl(text, 0).value, user)
    requires env.statusSent
    ensures var h := HandleMessage(text, user, st, env);
            var data := Scraper.Scrape(FindUrl(text, 0).value, env.extraction, env.fetch);
      && Saves(h.calls) == 1
      && h.calls[|h.calls| - 1].SaveLink?
      && var row := h.calls[|h.calls| - 1].row;
         && row.url == FindUrl(text, 0).value && row.title == data.title && row.image == data.image
         && row.userId == user
         && h.store == Database.SaveLink(st, row, env.saveFails)
  {
  }

  /** After a successful ingestion the same link from the same user is a
      duplicate: sending it again only gets `"Already Saved."`. */
  lemma SecondSendIsDuplicate(text: string, user: int, st: Database.Store, env: Env)
    requires FindUrl(text, 0).Some? && !Database.IsDuplicate(st, FindUrl(text, 0).value, user)
    requires env.statusSent && !env.saveFails
    ensures var h := HandleMessage(text, user, st, env);
      HandleMessage(text, user, h.store, env) == Handled([CheckDuplicate], h.store, [Text(AlreadySaved)])
  {
    SavedExactlyOnce(text, user, st, env);
    var h := HandleMessage(text, user, st, env);
    var row := h.calls[|h.calls| - 1].row;
    Database.SaveThenDuplicate(st, row, row.url, row.userId);
  }

  /** Without a video nothing is analysed or geocoded, and the link is saved
      as `"Download failed."` in `"Inbox"` with no coordinates. */
  lemma NoVideoSavesFailure(text: string, user: int, st: Database.Store, env: Env)
    requires FindUrl(text, 0).Some? && !Database.IsDuplicate(st, FindUrl(text, 0).value, user)
    requires env.statusSent
    requires !Present(Scraper.Scrape(FindUrl(text, 0).value, env.extraction, env.fetch).videoPath)
    ensures var h := HandleMessage(text, user, st, env);
      && AnalyzeVideo !in h.calls
      && (forall i | 0 <= i < |h.calls| :: !h.calls[i].Geocode?)
      && h.calls[|h.calls| - 1].SaveLink?
      && var row := h.calls[|h.calls| - 1].row;
         row.summary == DownloadFailed && row.category == AiEngine.Inbox && row.lat.None? && row.lon.None?
  {
    var data := Scraper.Scrape(FindUrl(text, 0).value, env.extraction, env.fetch);
    assert !Enrich(data, env).geocoded;
  }

  /** The geocoder is asked only about a location the analyser named, and the
      AI's coordinates are used only when the geocoder found no latitude. */
  lemma GeocodeOnlyNamedPlaces(data: Scraper.Scraped, env: Env)
    ensures var e := Enrich(data, env);
            var a := AiEngine.Analyze(env.ai);
      && (e.geocoded ==> Present(data.videoPath) && a.location.Some?)
      && (e.geocoded ==>
            var g := Geo.BestCoordinates(env.olaKey, a.location.value, env.ola, env.osm);
            if g.coords.Some? then e.lat == Some(g.coords.value.lat) && e.lon == Some(g.coords.value.lon)
            else if a.coords.Some? then e.lat == Some(a.coords.value.lat) && e.lon == Some(a.coords.value.lon)
            else e.lat.None? && e.lon.None?)
  {
    var e := Enrich(data, env);
    if e.geocoded {
      var a := AiEngine.Analyze(env.ai);
      var g := Geo.BestCoordinates(env.olaKey, a.location.value, env.ola, env.osm);
      if g.coords.Some? {
        assert Truthy(Some(g.coords.value.lat));
      }
    }
  }

  /** The reply's text: the location line appears exactly when the location and
      the latitude are truthy, a non-empty summary contributes at most 200 of
      its characters followed by `...`, and what is sent is at most 1000
      characters long. */
  lemma DisplayShape(category: string, title: string, location: Option<string>, lat: Option<real>, summary: string)
    ensures var head := "\U{1F4C2} " + category + "\n" + title + "\n\n";
            var t := DisplayText(category, title, location, lat, summary);
      && t[..|head|] == head
      && (Present(location) && Truthy(lat) ==> OccursAt(t, "\U{1F4CD} Found: " + location.value + "\n", |head|))
      && (!(Present(location) && Truthy(lat)) && summary != [] ==>
            t[|head|..] == "\U{1F4DD} Analysis:\n" + summary[..if |summary| <= 200 then |summary| else 200] + "...")
      && (!(Present(location) && Truthy(lat)) && summary == [] ==> t == head)
      && |Take(t, 1000)| <= 1000
  {
    var head := "\U{1F4C2} " + category + "\n" + title + "\n\n";
    var t := DisplayText(category, title, location, lat, summary);
    if Present(location) && Truthy(lat) {
      var line := "\U{1F4CD} Found: " + location.value + "\n";
      assert t[|head|..|head| + |line|] == line;
    }
  }
}
