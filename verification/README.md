# Nexus: the ingestion pipeline, modelled in Dafny

Nexus is a Telegram bot plus a desktop viewer. A user sends a link. The bot
then:

- downloads the video or scrapes the page;
- has an AI service write a summary, a category, and optionally a place and
  its coordinates;
- geocodes the place, first through Ola Maps and then through OpenStreetMap;
- stores the link and replies with a short card.

Any message without a link is treated as a question. The bot answers it from
the user's ten newest matching links. The viewer lists, filters and deletes
the stored links.

This project models the decision logic of each stage as pure functions, and
proves what each stage promises. Every collaborator becomes a parameter of
the model:

- yt-dlp, the HTML request, the AI service, Ola and Nominatim;
- Telegram sends, SHA-256, and database failures.

Each collaborator is either an abstract outcome value or a function from
query to outcome; Nominatim's function also takes the request's number, so
the same query sent twice may be answered differently. Each module follows one source file:

| module | source | what it holds |
|---|---|---|
| `Common` | — | `Option`, `LatLon`, Python truthiness of numbers and strings, the `links` row, `Take`/`Filter`/`Reverse` |
| `Text` | — | Python `str` semantics the source relies on: `strip`, `isspace`/`\s`, `lower`, `capitalize`, `split`, `replace`, `in` |
| `AiEngine` | ai_engine.py | parsing the AI reply with the source's four regular expressions; the failure tuples |
| `ReplyFormat` | ai_engine.py | the reply format the prompt asks for, and what the parser makes of a reply in that format |
| `Geo` | geo.py | Ola, the OSM attempt list and first-success loop, the waterfall |
| `Scraper` | scraper.py | the download result, the OpenGraph fallback, the title cleanup |
| `Database` | database.py | links (save, duplicate check, search) and accounts (register, login, password change) |
| `Viewer` | viewer.py | categories, filtered and ordered links, delete, map pin vs. dialog map button, navigation |
| `Bot` | bot.py | link routing, the ingestion state machine, the reply, the chat context |

Conventions:

- **Coordinates** are exact reals. "Truthy" means non-zero, as in Python's
  `if lat:`.
- **NULL text** is `""`. It has the same truthiness and the same filter
  behaviour.
- **Traces.** Functions that consult collaborators return what they
  consulted: the queries sent to each geocoder, whether the page was
  fetched, and the sequence of calls of `handle_message`. This makes "not
  consulted" a statement about the result.
- **The `links` table** is a sequence in insertion order. The SERIAL id is
  covered by the invariant `LinksValid`.
- **The viewer** reads its own SQLite file, whose coordinate cells may hold
  anything. So its rows are `Link<Stored>`, and `ORDER BY id DESC` is an
  actual sort.

## Model

| member | source | states |
|---|---|---|
| AiEngine.GroupAt | ai_engine.py:94 | the group of `\s*(.+)` starts at the last admissible position: greedy `\s*` gives back whitespace only until `.+` can match, and `.+` never crosses a newline |
| AiEngine.MatchLabelAt | ai_engine.py:94 | the label pattern matches at `i` iff the label is there in any case (with Python's extra case-insensitive pairs) and a non-empty single-line group follows; the group is the text from where `\s*` stops to the end of that line |
| AiEngine.SearchLabel | ai_engine.py:94 | `re.search` is unanchored: the result is the leftmost index where the label pattern matches, even mid-line, and none matches before it |
| AiEngine.Clean | ai_engine.py:96 | the cleaned value holds no `*` or `_` and has no leading or trailing whitespace |
| AiEngine.FirstWord | ai_engine.py:97 | `split(' ')[0]` is the prefix up to the first space, which contains no space |
| AiEngine.CleanEmptyIff | ai_engine.py:96 | the cleaned value is empty exactly when the captured text is only whitespace, `*` and `_` |
| AiEngine.CategoryWord | ai_engine.py:94-97 | a matched category has no space, `*` or `_`; up to case it equals the cleaned value up to its first space; it is empty exactly when the capture is only markup |
| AiEngine.LocationOf | ai_engine.py:99-103 | a location is kept iff a `LOCATION_NAME:` match exists and its cleaned value is longer than 2 characters and is not `none`, `unknown` or `n/a` in any case |
| AiEngine.LocationShape | ai_engine.py:99-103 | a kept location is one line, more than 2 characters long, with no markdown mark, no outer whitespace, and not a placeholder |
| AiEngine.NumeralEnd | ai_engine.py:105 | the greedy scan of `-?\d+\.\d+` from `k` yields a numeral with maximal fraction digits, or nothing |
| AiEngine.NumeralEndFinds | ai_engine.py:105 | any numeral starting at `k` is found by the scan, with the same decimal point and a fraction that extends at least as far |
| AiEngine.CoordsAt | ai_engine.py:105 | a match of the coordinates pattern at `i` has the full shape: the upper-case label, whitespace, a numeral, a comma, whitespace, a numeral |
| AiEngine.CoordsAtComplete | ai_engine.py:105 | wherever the shape occurs, the pattern matches there, with the same first numeral |
| AiEngine.SearchCoords | ai_engine.py:105 | the search returns the leftmost index from `from` at which the pattern matches, with that match; no index before it matches; when it reports nothing, no index matches |
| AiEngine.CoordsOf | ai_engine.py:105-106 | AI coordinates are set exactly when the pattern matches somewhere, and then they are the values of the two numerals of the leftmost match |
| AiEngine.LeftmostCoords | ai_engine.py:105-106 | at the leftmost occurrence of the shape whose second numeral is not followed by a digit, the coordinates are exactly that shape's two values |
| AiEngine.CoordsIffShape | ai_engine.py:105-106 | AI coordinates are set iff the text contains the case-sensitive `COORDINATES:` shape; any other shape leaves them unset |
| AiEngine.DropFieldLines | ai_engine.py:108 | removing the labelled field lines never lengthens the text; the text before the leftmost field label is kept unchanged, and a text without such a label is kept whole |
| AiEngine.FieldLinesCut | ai_engine.py:108 | at the leftmost field label, the label's line up to and including its newline is removed, and the removal resumes after it |
| AiEngine.DropSummaryLabels | ai_engine.py:109 | removing `SUMMARY:` labels never lengthens the text; the text before the leftmost label is kept unchanged, and a text without one is kept whole |
| AiEngine.SummaryLabelCut | ai_engine.py:109 | at the leftmost `SUMMARY:`, the label and the whitespace after it are removed, and the removal resumes after them |
| AiEngine.NoLabelsReply | ai_engine.py:91-109 | a reply without any of the four labels, in any case, parses to its stripped text, `"Inbox"`, and no location or coordinates |
| ReplyFormat.LineMatch | ai_engine.py:94 | on a line `tag value`, the label pattern matches at the line's start and captures exactly `value` |
| ReplyFormat.FormattedCategory | ai_engine.py:94-97 | in a reply of the requested format, the category search matches on the first line and captures the category value; the category is its cleaned first word, capitalized |
| ReplyFormat.FormattedLocation | ai_engine.py:99-103 | the location search skips the first line and captures the location value; the location is the cleaned value unless it is too short or a placeholder |
| ReplyFormat.FormattedCoords | ai_engine.py:105-106 | the coordinates of a reply of the requested format are the values of its two numerals |
| ReplyFormat.FormattedFieldLines | ai_engine.py:108 | removing the field lines from such a reply leaves exactly `SUMMARY: t` |
| ReplyFormat.SummaryTail | ai_engine.py:109 | `SUMMARY: t` stripped, with the label and its whitespace removed and stripped again, is `t` stripped, for any label-free `t` |
| ReplyFormat.FormattedSummary | ai_engine.py:108-110 | the summary of such a reply is its summary text stripped |
| ReplyFormat.FormattedReplyParses | ai_engine.py:79-110 | a reply `CATEGORY: c`, `LOCATION_NAME: l`, `COORDINATES: x, y`, `SUMMARY: t`, with single-line label-free values and two numerals, parses to the summary `t` stripped, the capitalized first word of `c`, the location `l` cleaned unless too short or a placeholder, and the coordinates `(x, y)` |
| AiEngine.Analyze | ai_engine.py:40-111 | total: AI offline, failed upload and any exception all give `"Inbox"` with no location or coordinates and their fixed summary; a reply is parsed |
| Geo.Ola | geo.py:5-19 | without a key, no query and `(None, None)`; with one, exactly one query, and a pair iff the first result's lat and lng are both truthy |
| Geo.StrippedParts | geo.py:26 | the parts are the comma-split pieces, each stripped |
| Geo.OsmAttemptsShape | geo.py:24-28 | the attempts are `[name]` without a comma and `[name, "p0, p1", p0]` with one; the length is always 1 or 3 |
| Geo.TryInOrder | geo.py:29-35 | attempts are sent in order until the first hit; a raise or a miss moves on; each request has its own reply, so a repeated query may succeed after a raise; no hit means every attempt was sent and the result is `(None, None)`; otherwise the pair is the last query's hit |
| Geo.Osm | geo.py:21-35 | an empty name or `"none"` in any case gives `(None, None)` with no query; otherwise the full name is asked first, and a pair comes back iff some attempt hits |
| Geo.BestCoordinates | geo.py:37-42 | the result is a pair with both values truthy or `(None, None)`; Ola's pair wins when it has one; otherwise OSM's, when both of its values are truthy |
| Geo.OsmOnlyAfterOla | geo.py:38-41 | OSM is queried only when Ola gave no pair, and it is always queried for a usable name when Ola gave none |
| Geo.OsmAloneWithoutKey | geo.py:37-41 | without an Ola key, the waterfall is OSM's first-success loop and its pair is a hit of one of the attempts |
| Scraper.DescriptionOf | scraper.py:51 | the description falls back to the caption when it is empty |
| Scraper.Download | scraper.py:40-61 | the url is kept; the title becomes `"Instagram Reel"` only when it is empty or mentions Instagram and the url mentions instagram; the video is the first file and exists only when info and files exist |
| Scraper.TitleFromDescription | scraper.py:103 | a description of 50 characters or fewer is the title; a longer one gives its first 50 characters plus `"..."` |
| Scraper.ApplyOpenGraph | scraper.py:90-96 | each present `og:` tag replaces its field, and an absent tag leaves it |
| Scraper.CleanTitle | scraper.py:99-105 | a title without "instagram" is kept; otherwise the description-derived title, or the `<title>` text with `"Instagram"` removed; a `<title>` with no single string keeps the title |
| Scraper.Fallback | scraper.py:84-108 | a raise or a non-200 status leaves every field as downloaded |
| Scraper.Scrape | scraper.py:19-113 | the url is the input; the title is never empty; the page is fetched iff the download left an empty or `"Instagram Reel"` title or no video |
| Scraper.InstagramPrefixGeneric | scraper.py:55 | a title starting with `Instagram` counts as generic |
| Scraper.CleanDownloadSkipsPage | scraper.py:75 | a download with a file and a non-generic title is returned as extracted, without a page request |
| Scraper.NoVideoFetchesPage | scraper.py:75 | without a video the page is always requested |
| Scraper.OpenGraphOnlyOn200 | scraper.py:86-111 | without a 200 answer, description and image are the download's, and so is the title except for the restricted sentinel |
| Scraper.OpenGraphWins | scraper.py:94-99 | on 200, an `og:title` not about Instagram becomes the title, and an `og:description` becomes the description |
| Scraper.DescriptionBecomesTitle | scraper.py:99-103 | on 200, an Instagram `og:title` with a description gives the description, cut at 50 characters plus `"..."` |
| Database.SaveLink | database.py:122-139 | on error the store is unchanged; otherwise exactly one row with the eight fields and a fresh id is appended and every other row stays |
| Database.AnyLink | database.py:145-147 | the row-by-row lookup is true iff some row has the url and the user id |
| Database.IsDuplicate | database.py:141-149 | true iff some link row has that url and that user id |
| Database.SaveKeepsValid | database.py:17 | a save keeps ids increasing and below the sequence's next value |
| Database.SaveThenDuplicate | database.py:122-147 | after a successful save the pair is a duplicate, and every earlier duplicate still is one |
| Database.Search | database.py:151-169 | at most 10 rows, exactly min(10, matches) of them, each the user's own and containing the query case-insensitively in its title, summary or category |
| Database.SearchNewestFirst | database.py:161 | results come with ids strictly decreasing |
| Database.LeftOutIsOlder | database.py:161 | a row left out of the ten newest is older than each of them |
| Database.SearchTopTen | database.py:161 | a matching row that is left out means ten results are returned, all newer than it |
| Database.FindByName | database.py:65-66 | the lookup by username finds the first such account, or reports that none exists |
| Database.FindById | database.py:74 | the conflict lookup finds an account with that id, or reports that none exists |
| Database.Upsert | database.py:71-76 | the new credentials are present afterwards, other accounts are kept, and nothing new appears besides them |
| Database.Register | database.py:54-82 | a refusal or an error changes nothing; a success stores the username with the password's hash and keeps every other account and all links |
| Database.Commit | database.py:71-80 | a raised error is reported as `"Error: ..."` with nothing changed; otherwise the upsert runs and the success message is returned |
| Database.RegisterTaken | database.py:64-68 | a username held by another account gives `(False, "Username already taken.")` and no change; success happens iff no other account holds the name and there is no error |
| Database.RegisterKeepsValid | database.py:30-39 | registration keeps user ids and usernames unique |
| Database.Login | database.py:84-105 | a returned id belongs to an account with that username and the password's hash; an unknown username gives `None`; a database error is caught and gives `None` |
| Database.LoginIff | database.py:93-103 | with unique usernames, login returns `id` iff the database answers and the account with that username stores the hash and has that id |
| Database.RegisterThenLogin | database.py:54-100 | after a successful registration the same username and password log in as that user |
| Database.UpdatePassword | database.py:107-118 | `True` iff the user id exists; `False` changes nothing; only that account's hash changes |
| Database.UpdateThenLogin | database.py:84-118 | after a password change, the account logs in with the new password |
| Viewer.LexIrreflexive | viewer.py:31 | Python's string order is irreflexive |
| Viewer.LexTransitive | viewer.py:31 | Python's string order is transitive |
| Viewer.LexTotal | viewer.py:31 | Python's string order is total on distinct strings |
| Viewer.InsertSorted | viewer.py:31 | inserting into a strictly sorted list keeps it strictly sorted, with exactly the old elements plus the new one |
| Viewer.SortDistinct | viewer.py:24-31 | the result is strictly increasing and holds exactly the given values |
| Viewer.Categories | viewer.py:20-33 | the distinct categories, sorted, without empty, `"Inbox"` and `"All"`, and exactly those occurring in some row; `[]` when the file cannot be read |
| Viewer.InsertById | viewer.py:56 | inserting into an id-descending list keeps the order and adds exactly the one row |
| Viewer.SortByIdDesc | viewer.py:56 | the result is ordered by id descending and is a permutation of the rows |
| Viewer.Links | viewer.py:35-64 | exactly the rows the filters let through (as a multiset), ordered by id descending; `[]` when unreadable |
| Viewer.AllUnfiltered | viewer.py:45-54 | under `"All"` with an empty search, every row is listed |
| Viewer.LinksExclude | viewer.py:45-54 | a row of another category never shows under a selected category, and a row matching the search in neither title nor summary never shows |
| Viewer.Delete | viewer.py:66-71 | every row with the id goes, every other row stays, and nothing else appears |
| Viewer.DeleteOne | viewer.py:69 | with unique ids, deleting an existing id removes exactly one row |
| Viewer.CardCoords | viewer.py:146-150 | a value `float` rejects nulls both coordinates; otherwise each is the stored number, or `None` for a NULL |
| Viewer.ShowMapPin | viewer.py:152-155 | pin iff both converted coordinates are not `None` (zero counts) and the category is map-relevant |
| Viewer.ShowDialogMap | viewer.py:117 | the dialog shows the map button iff both coordinates are truthy (zero does not count) and the category is map-relevant |
| Viewer.DialogMapHasPin | viewer.py:117-155 | a card whose dialog shows the map button also shows the pin |
| Viewer.PinWithoutDialogMap | viewer.py:117-155 | the converse fails: a Travel link at latitude 0 has a pin but no map button |
| Viewer.OnNav | viewer.py:271-282 | index 0 selects `"All"`, index `i > 0` selects `cats[i-1]` when in range, and otherwise the category is unchanged |
| Viewer.NavLandsOnCategory | viewer.py:271-282 | navigation lands on `"All"`, on a listed category present in the data, or on the previous category |
| Bot.SchemeEnd | bot.py:60 | the `\S+` part starts right after `https://` or `http://`, and only where one of them occurs |
| Bot.UrlAt | bot.py:60 | a match at `p` is a scheme plus at least one non-space character, contains no whitespace, and is maximal |
| Bot.FindUrl | bot.py:60-68 | the url is the leftmost match, and there is none exactly when no position matches |
| Bot.BareLinkFound | bot.py:60 | a message that is just an `https://` link without whitespace yields that link |
| Bot.LocInfo | bot.py:50 | location info is non-empty iff lat is truthy |
| Bot.Context | bot.py:47 | the context starts with `"Database Results:\n\n"` |
| Bot.ItemsAppend | bot.py:48-51 | items are numbered consecutively in result order |
| Bot.ContextAppend | bot.py:47-51 | appending a result appends its item, numbered one past the number of earlier results (so numbering starts at 1) |
| Bot.ChatReply | bot.py:35-55 | no results gives `"❌ No matching links found."`; otherwise the generated answer over the context of the search results |
| Bot.Enrich | bot.py:79-101 | without a video, `"⚠️ Download failed."`, `"Inbox"`, no coordinates, and no analyser or geocoder; with one, the analysis; the geocoder is reached iff the analyser named a location; no geocoding means no coordinates |
| Bot.Deliver | bot.py:120-126 | a location message comes first exactly when lat and lon are truthy and sending it does not raise (a raise there is swallowed); then the photo (if there is an image) or the text, cut at 1000 characters; a failed send gives `"Saved: " + title` |
| Bot.Trace | bot.py:69-110 | the calls start with the duplicate check and the scrape and end with exactly one save; analysis and geocoding are recorded exactly when they happened |
| Bot.HandleMessage | bot.py:57-68 | without a link, the message is a search that changes nothing; with one, the duplicate check comes first |
| Bot.ChatNeverSaves | bot.py:60-65 | a message without a link never scrapes, analyses, geocodes or saves, and leaves the store alone |
| Bot.DuplicateShortCircuits | bot.py:69-71 | a duplicate gets `"⚠️ Already Saved."` and nothing else runs |
| Bot.SavedExactlyOnce | bot.py:73-110 | once the status message is sent, a new link is saved exactly once, with the found url, the scraper's title and image, and the sender's id |
| Bot.SecondSendIsDuplicate | bot.py:69-110 | after a successful ingestion, sending the same link again only gets `"⚠️ Already Saved."` |
| Bot.NoVideoSavesFailure | bot.py:82-110 | without a video, no analysis and no geocoding; the saved row is `"⚠️ Download failed."` in `"Inbox"` with no coordinates |
| Bot.GeocodeOnlyNamedPlaces | bot.py:82-95 | the geocoder is asked only about a named location; the AI's coordinates replace the geocoder's result only when it found no latitude |
| Bot.DisplayShape | bot.py:116-125 | the location line appears only when the location and lat are truthy; the summary excerpt is at most 200 characters plus `"..."`; what is sent is at most 1000 characters |

## Left out

- Network and SDK calls are not modelled; only their results appear, as abstract outcomes. This covers:
  - yt-dlp extraction, the HTML request and BeautifulSoup parsing;
  - Gemini upload, poll, generate and delete;
  - Ola and Nominatim HTTP;
  - every Telegram send.
- Not modelled:
  - The AI model probing at import time.
  - The RAG prompt and `generate_rag_answer`, which is the parameter `rag`.
  - The `PROCESSING` poll loop.
- Concurrency is not modelled: `asyncio.to_thread`, and the race between the duplicate check and the insert.
- `float(...)` and IEEE doubles are not modelled: coordinates are exact reals.
  - How a coordinate prints in the chat context is the parameter `show`.
- Temp-file names, `glob` and file deletion are not modelled; the download's file list is an input.
- The random user agent and SHA-256 internals are not modelled; the hash is the parameter `hash`.
- The Flet layout, `webbrowser`, `init_db` and its migration, and `settings.py` are not modelled.
- Transient messages are not modelled: "Searching Nexus..." and its two edits in the chat path, "Downloading..." edited to "Watching...", and the deletion of the status message.
  - In the link path, a failed "Watching..." edit or status deletion is swallowed (bot.py:83-84, 113-114), and a failed "Downloading..." send ends the handler (bot.py:73-74); the latter is the `statusSent` input.
  - In the chat path, "Searching Nexus..." and its edits (bot.py:37, 43, 55) are not guarded, so a failure there escapes the handler.
- An exception that escapes a handler is not modelled; it reaches `error_handler`. Such exceptions come from:
  - `get_connection`;
  - `is_duplicate` raising, and the "Already Saved." send (bot.py:69-70);
  - `search_nexus_memory`'s query raising: it closes the connection and re-raises (database.py:164-169);
  - `save_link` is not one: it catches its own error (the `dbError` input of Database.SaveLink);
  - `update_password`'s UPDATE raising;
  - the chat path's unguarded messages above;
  - the fallback `Saved:` send itself failing.
- Database.Search: the query's own `%` and `_` are matched literally rather than as wildcards, and case is folded for ASCII letters only.
- Viewer.Links: the same simplification of `LIKE` as Database.Search.
- Database.Register: only the upsert is modelled as able to fail. An error of the username SELECT gives the same `"Error: ..."` result in the source.
- Database.SaveLink: a failed insert leaves the sequence's next value as it was. Postgres may burn a SERIAL value, so ids could have gaps, and the model does not track this.
- Bot.ChatReply: a NULL title, summary or category prints as `None` in the context; the model has `""`. Rows saved by the bot never hold NULL in those columns.
- Common.Link: NULL text columns are `""` throughout. The viewer's `if c` and `if ai_summary` treat both alike.
- Text.LowerAll: lowers A–Z and the Kelvin sign only; every other character is kept. Where the source compares a lowered string with an ASCII word (`"none"`, `"instagram"`, the location placeholders) nothing else can make a difference, but the lowered text itself is not Python's `lower()` beyond ASCII.
- Text.Capitalize: upper-cases an ASCII first letter and lowers the rest with LowerAll, so it is Python's `str.capitalize` on ASCII only. Beyond ASCII the stored category differs: `"CAFÉ"` gives `"Café"` in the source and `"CafÉ"` here; `"ıt"` gives `"It"` there and `"ıt"` here; `"ßar"` gives `"Ssar"` there and `"ßar"` here.
- AiEngine.CategoryWord: the bound `|r| <= |c|` holds for the model's Capitalize only; Python's `"ß".capitalize()` is `"Ss"`, longer than its input.
- Text.IsDigit: `\d` and `float()` are read as the ASCII digits 0–9. In a Python `str` pattern `\d` matches every Unicode decimal digit (category Nd), and `float()` converts those too. So a reply such as `COORDINATES: ٤٨.٨٥٨, ٢.٢٩٤` gets `(48.858, 2.294)` in the source and no coordinates here.
- AiEngine.NumeralEnd: scans ASCII digits only, for the reason given under Text.IsDigit.
- AiEngine.CoordsIffShape: the shape it states is built from ASCII digits; a shape with other Unicode decimal digits sets coordinates in the source but not here (see Text.IsDigit).
- `get_links` and `get_categories` read a local SQLite file named `nexus.db`, while the bot writes to Postgres. The two stores are modelled separately, as the source has them.
