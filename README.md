# segelflug-classifieds in Dafny

segelflug-classifieds is a bot. It reads the RSS feed of the Segelflug.de classifieds market and announces new listings on a Telegram channel. It also scrapes listing pages and seller profiles.

This project models the logic of that bot, leaving out HTML parsing and networking:

- **Feed entries.** An entry is checked for `guid`, `title` and `link` (`Feed`). The two revisions of the accepted entry turn it into a listing: the plain record of `src/classifieds/rss.rs` (`RssItem`), and the class with a mutable `details` field of `src/classifieds.rs` (`Classifieds`).
- **Descriptions.** `Descriptions` models the sanitiser: `&nbsp;` becomes a space, the text is trimmed and cut at 3500 bytes. It also models the thumbnail search, the leftmost match of ` src="…"`.
- **Scrapers.**
  - Generator detection (`ParseGenerator`).
  - The price chain (`Price`).
  - The listing scraper (`ParseItem`).
  - The seller-profile scraper (`ParseUser`). Its `ExtractDjLocation` is the imperative walk over the siblings of the "Standort" header.
  - The scrapers of the earlier revision (`LegacyParse`).
- **Sending.** The Telegram retry loop is `Telegram.SendRequest`. It is proved against `Telegram.RetryFrom`.
- **One bot run.** `App.Run`: drop entries whose guid is known, take the feed from its last entry to its first, process, write the guid set once.

Text is bytes (`Text.Bytes`, UTF-8 as the source holds it). A parsed page is an abstract `Html.Document`, which maps each CSS selector the source uses to the elements it matches, in document order. An element carries:

- its tag name, attributes, inner HTML and text;
- the inner HTML of its parent, when the parent is an element;
- whether it contains a `.reg_path` element;
- the nodes that follow it.

`strip_html` (the `ammonia` crate) is the uninterpreted parameter `strip`. The feed download, the price lookup, the page fetch and the Telegram Bot API are oracle parameters. The guid file is read as an `Option<set<Bytes>>`; the sets written are returned as a trace.

Three behaviours of the code that a reader might not expect, and that the model keeps:
- the seller profile link is taken as written in the page and is not made absolute;
- a page whose generator is neither Osclass nor recognised is parsed as DJ-Classifieds;
- `run` processes only the first new listing (`&new_items[..1]`), and panics when there is none.

## Model

| member | source | states |
|---|---|---|
| Feed.CheckRequired | src/classifieds/rss.rs:19-27 | accepted exactly when guid, title and link are all present, and then unchanged; otherwise the error names a missing field, and every field checked before it is present |
| Feed.MissingGuidWins | src/classifieds/rss.rs:20-21 | a missing guid is reported whatever else is missing, as "Missing `guid` element" |
| Feed.Message | src/classifieds/rss.rs:20-27 | the error text is "Missing `", the missing field's element name, then "` element" |
| Feed.MessageNamesField | src/classifieds.rs:19-27 | different missing fields give different error texts |
| RssItem.TryFromItem | src/classifieds/rss.rs:16-41 | rejected exactly when the check rejects, with its error; guid, title and link copied; description absent iff the raw one is; both description and image URL absent without a raw description; otherwise the sanitised description and the leftmost image URL |
| RssItem.SanitizeDescription | src/classifieds/rss.rs:43-61 | as written: a short cleaned text unchanged; a long one is its first 3499 bytes followed by the seven bytes of "â€¦", so it does not end in "…" |
| RssItem.MojibakeTail | src/classifieds/rss.rs:58-59 | a cut text followed by "â€¦" keeps its head and does not end in "…" |
| RssItem.MojibakeDiffers | src/classifieds/rss.rs:58-59 | for every text long enough to be cut, the as-written result is four bytes longer than the intended one and differs from it |
| Descriptions.CleanText | src/descriptions.rs:15-18 | the text with every `&nbsp;` replaced by a space, with only whitespace cut from its ends; no surrounding whitespace and no `&nbsp;` left |
| Descriptions.SanitizeDescription | src/descriptions.rs:5-26 | below 3500 bytes: the cleaned text, trimmed; otherwise 3499 + 3 bytes, starting with the first 3499 bytes of the cleaned text and ending in "…"; never longer than 3502 bytes and never containing `&nbsp;` |
| Descriptions.LimitKeepsAbsence | src/descriptions.rs:23-25 | cutting and appending "…" brings no `&nbsp;` back |
| Descriptions.EllipsisAvoidsNbsp | src/descriptions.rs:24 | "…" and `&nbsp;` share no byte |
| Descriptions.QuoteFrom | src/descriptions.rs:30 | the first quote at or after a position, or the end; no quote before it |
| Descriptions.CaptureAtMatches | src/descriptions.rs:30 | the capture at a position is `u` exactly when the regex matches there with capture `u` |
| Descriptions.FindFromLeftmost | src/descriptions.rs:33-35 | the search from `p` finds nothing iff there is no match from `p`, and otherwise returns the capture of a match with no match before it |
| Descriptions.FindImageUrl | src/descriptions.rs:28-36 | `None` iff the description holds no ` src="X"` with a non-empty, quote-free X; otherwise the capture of the leftmost such match |
| Classifieds.DetailsFromPage | src/classifieds.rs:120-148 | a download error is passed on; any page yields details whose price is the page's price chain |
| Classifieds.ClassifiedsItem.constructor | src/classifieds.rs:29-32 | the entry is stored as given, with no details |
| Classifieds.ClassifiedsItem.TryFrom | src/classifieds.rs:15-34 | rejected exactly when the check rejects, with the same error; otherwise a new item holding the entry unchanged, no details, and guid, title and link readable |
| Classifieds.ClassifiedsItem.Guid | src/classifieds.rs:37-39 | the stored entry's guid value, which is always there |
| Classifieds.ClassifiedsItem.Title | src/classifieds.rs:41-43 | the stored entry's title, which is always there |
| Classifieds.ClassifiedsItem.Link | src/classifieds.rs:45-47 | the stored entry's link, which is always there |
| Classifieds.ClassifiedsItem.Description | src/classifieds.rs:49-52 | absent iff the raw description is; otherwise its sanitised text |
| Classifieds.ClassifiedsItem.ImageUrl | src/classifieds.rs:54-57 | absent without a raw description; otherwise the thumbnail search of that description: the capture of its leftmost ` src="…"` match, absent only when it holds none |
| Classifieds.ClassifiedsItem.GetDetails | src/classifieds.rs:59-61 | the details currently stored: none until a `LoadDetails` succeeds |
| Classifieds.ClassifiedsItem.LoadDetails | src/classifieds.rs:63-67 | through `ClassifiedsDetails::from_url`, fetches the page at the item's link; on success `details` becomes the loaded details, on failure it is left unchanged and the error is returned |
| Price.PriceText | src/classifieds.rs:139-145 | present iff the first `.fa-money` element has a parent element; then the parent's stripped text with "Euro €" replaced by "€" and trimmed, which has no surrounding whitespace |
| Price.PriceUsesFirstIconOnly | src/price.rs:28-29 | pages that agree on the first icon agree on the price |
| Price.NormalisePrice | src/price.rs:33 | the text with "Euro €" replaced by "€", then trimmed: it stands in the replaced text with only whitespace around it and has none at its ends |
| Price.PlainPriceIsTrimmed | src/price.rs:33 | a price text without "Euro €" is only trimmed |
| Price.PriceWithCurrencyWord | src/price.rs:33 | "  <amount> Euro €  " comes out as "<amount> €" |
| Price.GetPrice | src/price.rs:6-35 | a download error is passed on; otherwise `Ok` iff the page has a price, trimmed and equal to it; else the error naming the URL, whose text ends with the URL |
| Price.Message | src/price.rs:34 | a download error keeps its text; a missing price reads "Failed to find price on " followed by the URL |
| ParseGenerator.GeneratorContent | src/classifieds/parse/mod.rs:21-24 | the `content` of the first generator meta element, absent when either is missing |
| ParseGenerator.Classify | src/classifieds/parse/mod.rs:26-32 | Osclass iff the content starts with "Osclass"; DjClassifieds iff it does not but starts with "Joomla"; `None` iff neither |
| ParseGenerator.Detect | src/classifieds/parse/mod.rs:15-33 | `None` without content; Osclass and DjClassifieds exactly by the content's prefix |
| ParseGenerator.PrefixesExclusive | src/classifieds/parse/mod.rs:26-29 | no content starts with both names |
| ParseGenerator.ClassifyByPrefix | src/classifieds/parse/mod.rs:26-32 | the classification depends only on the first seven bytes |
| ParseGenerator.DetectFirstOnly | src/classifieds/parse/mod.rs:22-23 | only the first generator meta element is consulted |
| ParseItem.PhotoUrls | src/classifieds/parse/item.rs:38-43 | no more URLs than anchors; none ends with "/no_photo.gif"; each is the href of a kept anchor; every anchor with a non-placeholder href is kept |
| ParseItem.PhotoUrlsConcat | src/classifieds/parse/item.rs:38-43 | document order is kept: the photos of two runs of anchors are the photos of each, in turn |
| ParseItem.OnlyPlaceholders | src/classifieds/parse/item.rs:40-41 | a page whose photo anchors are all placeholders or lack an href has no photos |
| ParseItem.UserLink | src/classifieds/parse/item.rs:45-49 | the href of the first profile anchor, unmodified; absent without it |
| ParseItem.Location | src/classifieds/parse/item.rs:51-55 | present iff `#item_location` exists; then its stripped text trimmed, with no surrounding whitespace |
| ParseItem.DetailsFrom | src/classifieds/parse/item.rs:12-64 | the four fields are the price chain, the filtered photo list, the profile link and the location |
| ParseUser.UserFrom | src/classifieds/parse/user.rs:13-38 | an Osclass page is parsed as Osclass; every other page, including one without generator, as DJ-Classifieds |
| ParseUser.FirstText | src/classifieds/parse/user.rs:48-52 | the stripped inner HTML of the first match, absent without a match |
| ParseUser.ParseOsclass | src/classifieds/parse/user.rs:40-84 | each field present iff its list item is; name and website trimmed; address and location with every "Adresse:" / "Standort:" removed, then trimmed |
| ParseUser.LabelRemoved | src/classifieds/parse/user.rs:55-69 | "  Adresse:  value  " reads as "value" |
| ParseUser.LabelRemovalSinglePass | src/classifieds/parse/user.rs:60 | removal is one left-to-right pass: a label that its own removal brings together survives |
| ParseUser.ParseDjClassifieds | src/classifieds/parse/user.rs:86-106 | address and website never set; name present iff the profile header is, and then its raw text, not trimmed; location that of the sibling walk |
| ParseUser.FindHeader | src/classifieds/parse/user.rs:114-116 | `None` iff no `h2.uk-h4` text contains "Standort"; otherwise the first such header |
| ParseUser.SiblingTextShape | src/classifieds/parse/user.rs:125-128 | the sibling text is the trimmed text with zero or more leading "Europa, " cut off, and does not start with another |
| ParseUser.StepOf | src/classifieds/parse/user.rs:124-143 | non-elements are skipped; a sibling text starting with "Flugplatz:" names the airfield left after cutting those prefixes and trimming, exactly when that is non-empty and not "not available"; otherwise a sibling with `.reg_path` names its text as the region, exactly when that is non-empty and not "Antarktis, Antarktis"; otherwise exactly an `h2` stops the walk |
| ParseUser.StepsAt | src/classifieds/parse/user.rs:122-145 | the i-th step is the step of the i-th sibling |
| ParseUser.StopIndex | src/classifieds/parse/user.rs:139-142 | the siblings scanned are those before the first one that stops the walk |
| ParseUser.LastLocation | src/classifieds/parse/user.rs:130-134 | absent iff no airfield sibling; otherwise the one named by the last airfield sibling |
| ParseUser.LastRegion | src/classifieds/parse/user.rs:135-138 | absent iff no region sibling; otherwise the one named by the last region sibling |
| ParseUser.Combine | src/classifieds/parse/user.rs:147-152 | absent iff both parts are; the place, ", " and the region when both exist; else whichever exists |
| ParseUser.DjLocation | src/classifieds/parse/user.rs:108-153 | absent without a "Standort" header; otherwise the last airfield and the last region among the siblings before the stopping `h2`, combined; absent iff none of those names either |
| ParseUser.NothingNamed | src/classifieds/parse/user.rs:147-152 | the result is absent exactly when no scanned step names anything |
| ParseUser.ExtractDjLocation | src/classifieds/parse/user.rs:108-153 | the imperative sibling walk computes `DjLocation` |
| ParseUser.SiblingStep | src/classifieds/parse/user.rs:124-143 | the loop body's branches compute the sibling's step |
| ParseUser.ScanAdvance | src/classifieds/parse/user.rs:130-138 | one more sibling: an airfield or region step replaces the value so far, nothing else changes it |
| ParseUser.NoHeaderNoLocation | src/classifieds/parse/user.rs:114-116 | without a "Standort" header there is no location |
| ParseUser.LastLocationConcat | src/classifieds/parse/user.rs:133 | later airfield siblings overwrite earlier ones |
| ParseUser.LastRegionConcat | src/classifieds/parse/user.rs:137 | later region siblings overwrite earlier ones |
| ParseUser.StopIgnoresRest | src/classifieds/parse/user.rs:139-142 | nothing after the stopping `h2` is scanned |
| LegacyParse.PhotoUrl | src/classifieds/parse.rs:40-44 | the `src` of the first `.item-photos img`, absent when it or its `src` is missing |
| LegacyParse.DetailsFrom | src/classifieds/parse.rs:17-60 | photo URL, price chain and profile link as above |
| LegacyParse.PlaceholderKept | src/classifieds/parse.rs:40-44 | the placeholder image is not filtered out |
| LegacyParse.UserFrom | src/classifieds/parse.rs:75-130 | equal to the later Osclass parser on every page: trimmed name and website, labels removed from address and location |
| LegacyParse.AgreesOnOsclass | src/classifieds/parse.rs:75-130 | on an Osclass page the earlier and later profile parsers agree |
| Telegram.RetryFrom | src/telegram.rs:56-77 | at most the attempts left are sent; each sleep lasts as long as its rate-limit answer asked; the last answer is the success or the error returned, which is not a rate limit; exhausting the attempts sleeps once per attempt |
| Telegram.SendRequest | src/telegram.rs:48-78 | the `for` loop's result, send count and sleeps are those of `RetryFrom` |
| Telegram.AttemptStep | src/telegram.rs:61-74 | a success ends the call after one send; a rate limit sleeps and goes on; any other error ends it |
| Telegram.Waits | src/telegram.rs:64-69 | the sleeps asked for by the first k rate-limit answers |
| Telegram.RateLimitedPrefix | src/telegram.rs:56-70 | after k rate limits the call goes on as from attempt k, with those k sleeps before it |
| Telegram.AtMostFiveAttempts | src/telegram.rs:52-56 | between one and five requests are sent |
| Telegram.FirstSuccessStops | src/telegram.rs:63 | a success after k rate limits returns `Ok` after k + 1 sends and k sleeps |
| Telegram.OtherErrorNoRetry | src/telegram.rs:71-73 | any other error after k rate limits is returned after k + 1 sends, without retry |
| Telegram.Message | src/telegram.rs:77 | only the `MaxRetries` error has a text of the bot's own, "Maximum number of retries reached" |
| Telegram.MaxRetriesExactly | src/telegram.rs:56-77 | "Maximum number of retries reached" iff all five answers were rate limits; then five sends and five sleeps, the last included |
| Telegram.NotAllRateLimitedBeforeEnd | src/telegram.rs:56-77 | running out of attempts sends every attempt left |
| Telegram.RetryOnceThenSucceed | src/telegram.rs:56-69 | `RetryAfter(3)` then success: `Ok` after two sends and one 3-second sleep |
| App.InitialGuids | src/app.rs:29 | a missing or unreadable guid file starts the run with the empty set |
| App.ValidItems | src/app.rs:33 | exactly the accepted entries are kept |
| App.Reversed | src/app.rs:39 | the feed is taken back to front |
| App.Unseen | src/app.rs:40 | exactly the items whose guid is not yet in the set are kept |
| App.Candidates | src/app.rs:37-41 | every candidate is accepted and unannounced, and every accepted unannounced entry is a candidate |
| App.GuidSet | src/app.rs:61-62 | the guids of the items processed, and nothing else |
| App.Process | src/app.rs:51-63 | every report printed belongs to an item whose price loaded, with its title, price and link; a failure is the price error of the next item |
| App.ProcessSnoc | src/app.rs:51-63 | processing one more item: a price error stops, a price prints one more report |
| App.ProcessStopped | src/app.rs:54 | after a price error later items change nothing |
| App.Run | src/app.rs:28-67 | a failed feed writes nothing; no candidates panics; otherwise only the first candidate is processed; a price error writes nothing; else the old set plus that guid is written exactly once and the write's result decides the outcome |
| App.CandidatesReverseFeed | src/app.rs:37-41 | an entry further down the feed comes first |
| App.InvalidEntryIgnored | src/app.rs:33 | an entry that failed validation is dropped silently |
| App.ValidItemsSnoc | src/app.rs:33 | one more entry adds its item exactly when it was accepted |
| App.OnlyLastInFeedProcessed | src/app.rs:37-43 | with two new entries b then a in feed order, the candidates are a then b, only a is processed, and the set gains a's guid |
| Text.Trim | src/descriptions.rs:18 | no surrounding whitespace; the result stands in the input with only whitespace around it |
| Text.TrimOfTrimmed | src/descriptions.rs:18 | trimming a text without surrounding whitespace changes nothing |
| Text.ReplaceAll | src/descriptions.rs:15 | a text shorter than the pattern is unchanged; a replacement as long as the pattern keeps the length |
| Text.ReplaceAllIdentity | src/classifieds/parse/user.rs:60 | a text without the pattern is unchanged |
| Text.ReplaceAllSkips | src/price.rs:33 | a prefix without the pattern's first byte is copied and the rest replaced |
| Text.ReplaceAllRemovesPattern | src/descriptions.rs:15 | replacing `&nbsp;` by a space leaves no `&nbsp;` |
| Text.TrimStartMatches | src/classifieds/parse/user.rs:127 | the input is zero or more copies of the prefix followed by the result, which does not start with it |

## Left out

- src/guids.rs: the JSON format of the guid file and its atomic replacement (serde_json, atomicwrites). Reading is an `Option<set<Bytes>>`; a write is recorded with its outcome as a parameter.
- Networking (reqwest), src/classifieds/api.rs and `load_feed`. The fetches in `load_details` and `get_price` are parameters; `load_price`, which no item type in the source defines, is an oracle.
- HTML and RSS parsing (scraper, the rss crate) and `strip_html` (ammonia): abstract documents and an uninterpreted function.
- `App::watch` (src/app.rs:69-81): an endless loop with a random `f32` delay and real sleeping.
- src/main.rs (command line, tracing, HTTP client setup) and `send_message` / `send_photo` (src/telegram.rs:24-45), which only build the request that `send_request` sends.
- Console output and logging: `run` returns its printed reports as values; the header line "Found {n} new classifieds on Segelflug.de" (src/app.rs:45-49), which after `[..1]` always counts one, and the `debug!` and `trace!` lines are dropped.
- The `mod` and `pub use` lines of the module files, which only declare and re-export; src/classifieds/mod.rs holds nothing else.
- The seconds of teloxide's `RetryAfter` are a `nat` here; the `as u64` cast of a negative value is not modelled.
- Text.Trim: only ASCII whitespace is trimmed, while Rust's `trim` also removes Unicode whitespace.
- RssItem.TryFromItem: its description is built with the corrected sanitiser `Descriptions.SanitizeDescription`, not with the "â€¦" one at src/classifieds/rss.rs:31 and 59; `RssItem.SanitizeDescription` and `RssItem.MojibakeDiffers` state what the code as written returns instead.
- Descriptions.SanitizeDescription, RssItem.SanitizeDescription and Classifieds.ClassifiedsItem.Description: cut at a byte offset, where the source panics if offset 3499 is not on a character boundary.
- The selector engine (for example `a[href*="action=pub_profile"]`, `.item-photos .thumbs a`): the set of elements a selector matches is part of the abstract document.

## Findings

| source | as written | input that shows it | evidently intended | confidence | as-written member | corrected member |
|---|---|---|---|---|---|---|
| src/classifieds/rss.rs:59 | a long description is cut and followed by "â€¦", the UTF-8 bytes of "…" read as Windows-1252 and encoded again | any description whose cleaned text is at least 3500 bytes long: it ends in bytes C3 A2 E2 82 AC C2 A6 instead of E2 80 A6 | "…", as in src/descriptions.rs:24 and src/classifieds.rs:174 | not executed | RssItem.SanitizeDescription | Descriptions.SanitizeDescription |
