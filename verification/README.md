# Universal Scraper CSV generator: a Dafny model

This project models the pure logic of the CSV generator in
`UNIVERSAL_SCRAPER/CSV_Gen`. The generator has two halves.

- **Selector discovery** (`CSV_Main.py`). An extraction model proposes CSS
  selectors for a product page or a listing page. The code repairs them
  against a fixed field schema, validates them against the page, and saves
  them per domain. A listing run then tries to bootstrap the product
  selectors from its first product card.
- **Replay** (`scraper_logic.py`). The saved selectors are applied to many
  pages: product URLs from a listing page's cards, or the `<loc>` entries of a
  sitemap. The result is one CSV row per fetched page.

`save_data.py` supplies the naming rules: the URL-to-file-name rewrite, the
page slug, the dotless domain folder and the per-artifact paths.

The HTML engine, URL parsing, the page fetchers, the extraction model, the
clock and the user are outside the model. Each one is a parameter:
- `Dom.Engine` is the CSS engine. It offers `select`, which may raise, plus text, href and parse.
- `World.Env` bundles the engine with hostname parsing, the two `html_collection` fetchers, `urljoin` and `<base href>`.
- `Discovery.Reply` is what the extraction run and `json.loads` return.
- The existence checks on selector files are booleans.
- The sitemap prompt's answers are a function of the round number.

Every property below therefore holds whatever those collaborators answer.

Modules:
- `Maybe`: the option type.
- `Text`: Python's `strip`, `replace` and `split(" ", 1)`.
- `Json`: parsed values, truthiness, and insertion-ordered dicts.
- `Dom`: the engine oracle.
- `World`: the collaborators.
- `Validator`: `validate_selector`.
- `Discovery`: `product_page`, `listing_page` and the bootstrap.
- `Sitemaps`: the XML tree, `<loc>` flattening and the `tried` loop.
- `Replay`: card links, dedup, `scrape_product`, the row loops and the CSV gate.
- `Storage`: `normalize_url`, the slug, the domain folder, the artifact paths and save_data's `html_collection`.

A Python dict is a sequence of `(key, value)` pairs with distinct keys.
Assigning an existing key keeps its position, and a new key goes last (`Json.Put`).
Key order matters, because the CSV header is the first row's keys.

`product_page`'s fixed field list is `Discovery.ProductSchema`. The discovery
functions take the schema as a parameter, and every call site passes `ProductSchema`.
Their guarantees therefore hold for any schema.

An exception that escapes an operation is a result value, not a precondition:
`Crashed`, `ListingCrashed`, `BootCrashed`, `ReplayCrashed`, or a `None` result.

### Places where the code does less than it seems to

The model follows the code in each of these places.
- **Validator idempotence.** Validating a validated selector need not return
  it. `split(" ", 1)` can leave a leading space, and the next call strips it.
  `Validator.ValidateIdempotent` proves the form that holds: for a result that
  does not start with whitespace.
  `Validator.ValidateNotIdempotentOnDoubleSpace` exhibits the gap, and
  `Validator.ValidateDropsLeadingSpace` shows that re-validation drops the
  leading space on every engine.
- **Schema repair key set.** The repair loop only adds missing schema keys. Any
  extra keys the reply carried stay in the saved file
  (`Discovery.RepairFieldsKeys`).
- **Empty listing.** `listing_scraper` reads `unique_urls[0]` (scraper_logic.py:96)
  before its `if not all_products` check (line 100). A listing that yields no
  product URLs therefore raises IndexError instead of printing its
  "No products scraped" message (`Replay.ListingScraper`).
- **`listing_page` error handling.** Unlike `product_page`, it has no `try`
  around `json.loads`, no empty-list check and no validator call. Its
  failures crash rather than return (`Discovery.ListingPage`).

## Model

| member | source | states |
|---|---|---|
| Validator.Trim | UNIVERSAL_SCRAPER/CSV_Gen/CSV_Main.py:35-49 | The result is a suffix of the candidate that starts at the candidate's start or right after a space. A non-empty result is accepted by the engine. Every longer candidate the loop tries is rejected; a raise counts as a rejection. The result is "" when none is accepted. The loop terminates because each trim shortens the string. |
| Validator.TrimStep | UNIVERSAL_SCRAPER/CSV_Gen/CSV_Main.py:43-47 | When a candidate is rejected, the longest accepted cut of what follows its first space is the longest accepted cut of the candidate. |
| Validator.Validate | UNIVERSAL_SCRAPER/CSV_Gen/CSV_Main.py:30-49 | A non-string selector gives "". A string is stripped of Python whitespace and trimmed with the guarantee of `Trim`. |
| Validator.LongestAcceptedCutUnique | UNIVERSAL_SCRAPER/CSV_Gen/CSV_Main.py:35-49 | The trim contract pins down one answer per selector and page. |
| Validator.ValidateIdempotent | UNIVERSAL_SCRAPER/CSV_Gen/CSV_Main.py:30-49 | Validating a validated selector on the same page returns it unchanged, if it is "" or does not start with whitespace. |
| Validator.ValidateTrimsOuterScope | UNIVERSAL_SCRAPER/CSV_Gen/CSV_Main.py:43-47 | On any page where `.zzz .x .y` matches nothing and `.x .y` matches, `".zzz .x .y"` validates to `".x .y"`, the first trim. |
| Validator.ValidateNotIdempotentOnDoubleSpace | UNIVERSAL_SCRAPER/CSV_Gen/CSV_Main.py:33-47 | On any page that accepts `" b"` but neither `"a  b"` nor `"b"`, `"a  b"` validates to `" b"`, which validates again to "". A leading space makes re-validation differ. |
| Validator.ValidateDropsLeadingSpace | UNIVERSAL_SCRAPER/CSV_Gen/CSV_Main.py:33-47 | On any page that accepts `" b"` but not `"a  b"`, `"a  b"` validates to `" b"`, and validating that again never gives `" b"`, whatever the page says about `"b"`. |
| Discovery.Unwrap | UNIVERSAL_SCRAPER/CSV_Gen/CSV_Main.py:286-291 | A list reply yields its first element, an empty list yields nothing, and any other reply is used as is. |
| Discovery.RepairFields | UNIVERSAL_SCRAPER/CSV_Gen/CSV_Main.py:298-300 | After repair every schema key holds a string, the keys stay distinct, and non-schema keys keep their values. |
| Discovery.RepairFieldsValues | UNIVERSAL_SCRAPER/CSV_Gen/CSV_Main.py:457-459 | A schema key that held a string keeps it. A missing or non-string one becomes "". |
| Discovery.RepairFieldsKeys | UNIVERSAL_SCRAPER/CSV_Gen/CSV_Main.py:298-300 | Existing keys keep their positions. Only schema keys are added, at the end. |
| Discovery.RepairFieldsKeySeq | UNIVERSAL_SCRAPER/CSV_Gen/CSV_Main.py:298-300 | The repair loop changes the key sequence only by appending each missing schema key once, in schema order. |
| Discovery.RepairedKeysGrow | UNIVERSAL_SCRAPER/CSV_Gen/CSV_Main.py:298-300 | That key sequence starts with the original keys and adds only schema keys. |
| Discovery.RepairKeepsComplete | UNIVERSAL_SCRAPER/CSV_Gen/CSV_Main.py:457-459 | A reply whose schema keys all hold strings is left unchanged by repair. |
| Discovery.ValidationPass | UNIVERSAL_SCRAPER/CSV_Gen/CSV_Main.py:311-314 | The key sequence is unchanged and falsy values are untouched. A truthy non-string becomes "". A truthy string becomes the longest accepted trim of its stripped text. |
| Discovery.ValidationPassAt | UNIVERSAL_SCRAPER/CSV_Gen/CSV_Main.py:311-314 | At one key, the validation pass keeps a falsy value and cuts a non-empty string to its longest accepted cut. |
| Discovery.ValidatedAreAccepted | UNIVERSAL_SCRAPER/CSV_Gen/CSV_Main.py:311-314 | After the pass, every non-empty string value is a selector the page accepts. |
| Discovery.ValidateKeepsAccepted | UNIVERSAL_SCRAPER/CSV_Gen/CSV_Main.py:30-38 | An accepted selector with no outer whitespace validates to itself. |
| Discovery.RepairAndValidate | UNIVERSAL_SCRAPER/CSV_Gen/CSV_Main.py:298-314 | The saved set has distinct keys, every schema key holds a string, and every non-empty string is accepted on the page. |
| Discovery.RepairAndValidateField | UNIVERSAL_SCRAPER/CSV_Gen/CSV_Main.py:298-314 | Repair then validation, key by key: a non-empty string becomes the longest accepted cut of its stripped text, and anything else becomes "". |
| Discovery.ProductPage | UNIVERSAL_SCRAPER/CSV_Gen/CSV_Main.py:100-317 | Empty HTML, no extraction, unparseable JSON or an empty list each abort before any write. A non-object reply crashes, and only then. The set is saved exactly when the reply, or its first element, is an object. It is saved at `base/selectors/<host or unknown>/product_selector.json` with the guarantees of `RepairAndValidate` for the schema it is given. |
| Discovery.ProductPageSavesObject | UNIVERSAL_SCRAPER/CSV_Gen/CSV_Main.py:282-317 | An object reply on a page with HTML, bare or first in a list, is saved as that object repaired and validated, at the host's product selector path. |
| Discovery.ProductPageSavedField | UNIVERSAL_SCRAPER/CSV_Gen/CSV_Main.py:285-316 | For each schema key of a saved product file: a non-empty string in the reply is saved as the longest suffix of its stripped text, starting at its start or after a space, that the page accepts. A missing, non-string or empty value is saved as "". |
| Discovery.ProductPageKeepsGoodReply | UNIVERSAL_SCRAPER/CSV_Gen/CSV_Main.py:282-317 | A reply whose values are all empty or accepted selectors without outer whitespace, and which covers the schema, is saved unchanged. |
| Discovery.ListingPage | UNIVERSAL_SCRAPER/CSV_Gen/CSV_Main.py:448-493 | Empty HTML or no extraction aborts, and only these. The run crashes exactly when the JSON is unparseable, an empty list, or not an object. The set is saved exactly when the HTML is non-empty and the reply, or its first element, is an object: the saved set is that object repaired against the listing schema, at `.../listing_selector.json`. An existing product file stops the bootstrap. Otherwise the bootstrap runs on the saved set at the listing's domain. |
| Discovery.Bootstrapping | UNIVERSAL_SCRAPER/CSV_Gen/CSV_Main.py:466-493 | An existing product file stops the bootstrap, and an empty card or link selector makes it a no-op. Otherwise the first-card walk decides: a raising selector crashes, no card or no href stops, and a URL continues as `ChainFrom` on that URL. When it chains, `product_page` saved at the listing domain's path, and the replay is `listing_scraper` on that saved file and did not crash. |
| Discovery.FirstCardUrl | UNIVERSAL_SCRAPER/CSV_Gen/CSV_Main.py:474-485 | The walk crashes exactly when the card `select_one` raises, or the card matched and the link `select_one` inside it raises. It finds no card exactly when the card selector matches nothing. It finds no href exactly when the card matched and the link matched nothing or has no href. A URL comes out only when the card matched, the link matched inside it, and the link has a non-empty href. |
| Discovery.FirstCardUrlFound | UNIVERSAL_SCRAPER/CSV_Gen/CSV_Main.py:474-485 | Conversely, a matching card whose matching link has an href always yields that href, resolved against the listing domain. |
| Discovery.ChainFrom | UNIVERSAL_SCRAPER/CSV_Gen/CSV_Main.py:487-493 | The chain stops exactly when the product page has no HTML. It crashes exactly when the HTML arrived and either `product_page` crashed or the replay with the product file `product_page` left at the listing domain's path crashed. When it completes, `product_page` ran on that HTML and saved at the listing domain's path. The recorded replay is `listing_scraper` on the listing HTML with that saved file, and it did not crash. |
| Discovery.ResolveHref | UNIVERSAL_SCRAPER/CSV_Gen/CSV_Main.py:483-485 | The result equals the href exactly when the href does not start with `/`. Otherwise it is `https://`, then the domain, then the href. |
| Discovery.ForeignHostBreaksChain | UNIVERSAL_SCRAPER/CSV_Gen/CSV_Main.py:487-493 | `product_page` saves under the product URL's host, but the replay reads the file under the listing's domain. When a saving `product_page` ran on a URL of another host, the bootstrap ends in a crash. |
| Discovery.AsWrittenNeverChains | UNIVERSAL_SCRAPER/CSV_Gen/CSV_Main.py:487-489 | With save_data's `html_collection` as written, a listing run never reaches `product_page`. |
| Discovery.IntendedReachesProductPage | UNIVERSAL_SCRAPER/CSV_Gen/CSV_Main.py:474-493 | With the intended `html_collection`, a first card with a linked page that has clean HTML reaches `product_page`. The run then chains, or crashes in product discovery or the replay. |
| Sitemaps.FindAll | UNIVERSAL_SCRAPER/CSV_Gen/CSV_Main.py:519 | `findall` returns exactly the direct children with the tag, no more of them than there are children. |
| Sitemaps.FindAllAppend | UNIVERSAL_SCRAPER/CSV_Gen/CSV_Main.py:519 | `findall` keeps document order: the matches among two runs of children are the first run's matches, then the second's. |
| Sitemaps.FindAllOne | UNIVERSAL_SCRAPER/CSV_Gen/CSV_Main.py:519 | One child is kept, once, exactly when it has the tag. With `FindAllAppend` this fixes `findall`'s result, order and multiplicity on every run of children. |
| Sitemaps.LocOf | UNIVERSAL_SCRAPER/CSV_Gen/CSV_Main.py:520-522 | An entry contributes exactly when its first `loc` child exists with non-empty text. The value is that text, stripped. |
| Sitemaps.Locs | UNIVERSAL_SCRAPER/CSV_Gen/CSV_Main.py:519-522 | Never more URLs than entries. A URL is listed exactly when some entry has it as its stripped loc. |
| Sitemaps.LocsOne | UNIVERSAL_SCRAPER/CSV_Gen/CSV_Main.py:519-522 | One entry gives its loc, or nothing. With `LocsAppend` this fixes the loop's result, in order, on every run of entries. |
| Sitemaps.LocsAppend | UNIVERSAL_SCRAPER/CSV_Gen/CSV_Main.py:513-516 | The loc loop keeps document order across concatenated entry runs. |
| Sitemaps.PresentAppend | UNIVERSAL_SCRAPER/CSV_Gen/CSV_Main.py:519-522 | Skipping entries without a usable value keeps the order of the rest across a concatenation. |
| Sitemaps.UrlsetLocs | UNIVERSAL_SCRAPER/CSV_Gen/scraper_logic.py:173-176 | A URL is listed exactly when some top-level `<url>` child has it as its stripped loc; at most one URL per child. |
| Sitemaps.UrlsetLocsAppend | UNIVERSAL_SCRAPER/CSV_Gen/scraper_logic.py:173-176 | A urlset is read in document order: with the children split into two runs, the URLs are the first run's, then the second's. This order decides `urls[0]` and the row order. |
| Sitemaps.UrlsetLocsOne | UNIVERSAL_SCRAPER/CSV_Gen/scraper_logic.py:173-176 | One child gives its loc when it is a `<url>` entry with one, and nothing otherwise. |
| Sitemaps.IndexLocsFails | UNIVERSAL_SCRAPER/CSV_Gen/CSV_Main.py:507-512 | Reading an index fails exactly when some `<sitemap>` entry names a child that cannot be fetched and parsed. |
| Sitemaps.IndexLocsListed | UNIVERSAL_SCRAPER/CSV_Gen/CSV_Main.py:507-516 | When the read succeeds, a URL is listed exactly when some entry names a child whose urlset lists it. |
| Sitemaps.IndexLocsAppend | UNIVERSAL_SCRAPER/CSV_Gen/CSV_Main.py:508-516 | Entries are read in document order: the URLs of two runs of entries are the first run's, then the second's, and a failure in either run fails the read. |
| Sitemaps.IndexLocsOne | UNIVERSAL_SCRAPER/CSV_Gen/CSV_Main.py:509-516 | One entry gives nothing without a loc, a failure when its child cannot be read, and that child's urlset otherwise. |
| Sitemaps.IndexFlattensInOrder | UNIVERSAL_SCRAPER/CSV_Gen/CSV_Main.py:507-516 | An index of two child sitemaps yields the first child's URLs followed by the second's. |
| Sitemaps.SampleUrlsFails | UNIVERSAL_SCRAPER/CSV_Gen/CSV_Main.py:507-522 | Reading the sitemap fails exactly when the root is a `sitemapindex` and one of its `<sitemap>` entries names a child that cannot be fetched and parsed. |
| Sitemaps.SampleUrlsListed | UNIVERSAL_SCRAPER/CSV_Gen/CSV_Main.py:507-522 | When the read succeeds, a URL is listed exactly when one of these holds. For an index, some `<sitemap>` entry names a child urlset that lists it. For a `urlset`, some top-level `<url>` entry has it as its stripped loc. Any other root lists nothing. |
| Sitemaps.PickSample | UNIVERSAL_SCRAPER/CSV_Gen/CSV_Main.py:524-561 | There are no URLs exactly when the list is empty. The trial order has no repeats and holds exactly the tried URLs, one per round, so the rounds never exceed the distinct URLs. Exhaustion means every URL was tried and every round was answered "r" or invalid, or got no HTML. A confirmed sample is the last URL tried, answered product or listing, with non-empty HTML, and every earlier round went on for one of those reasons. |
| Replay.LinkOf | UNIVERSAL_SCRAPER/CSV_Gen/scraper_logic.py:31-33 | A card raises exactly when its link selector raises. It yields a URL exactly when the first link match has a non-empty href, and the URL is that href. |
| Replay.CardLinks | UNIVERSAL_SCRAPER/CSV_Gen/scraper_logic.py:30-33 | The loop fails exactly when some card raises. Otherwise it gives at most one URL per card, and a URL is listed exactly when it is the link of some card. |
| Replay.CardLinksAppend | UNIVERSAL_SCRAPER/CSV_Gen/scraper_logic.py:30-33 | Card order is preserved: links of `a + b` are links of `a` then links of `b`. |
| Replay.CardLinksOne | UNIVERSAL_SCRAPER/CSV_Gen/scraper_logic.py:30-33 | One card gives its link, nothing, or a failure. With `CardLinksAppend` this fixes the result, in card order, on every run of cards. |
| Replay.ResolveAll | UNIVERSAL_SCRAPER/CSV_Gen/scraper_logic.py:34-35 | One URL per href. With no `<base href>` the hrefs are unchanged. |
| Replay.Dedup | UNIVERSAL_SCRAPER/CSV_Gen/scraper_logic.py:37 | No duplicates, exactly the input's elements, ordered by first occurrence. |
| Replay.DedupNoLonger | UNIVERSAL_SCRAPER/CSV_Gen/scraper_logic.py:37 | De-duplication never lengthens the list. |
| Replay.DedupSnoc | UNIVERSAL_SCRAPER/CSV_Gen/scraper_logic.py:37 | A later element is appended to the result exactly when it was not seen before. Otherwise the result is unchanged. |
| Replay.DedupKeepsFirstSeen | UNIVERSAL_SCRAPER/CSV_Gen/scraper_logic.py:37 | `[h1, h2, h1]` becomes `[h1, h2]`. |
| Replay.CardsToUniqueUrls | UNIVERSAL_SCRAPER/CSV_Gen/scraper_logic.py:27-37 | Three cards linking to h1, h2, h1 give the links `[h1, h2, h1]` and the URLs `[h1, h2]`. |
| Replay.ScrapeProduct | UNIVERSAL_SCRAPER/CSV_Gen/scraper_logic.py:58-70 | The row's keys are the selector keys in the same order, each value that field's `FieldValue`. The row fails exactly when some field does. |
| Replay.RowFor | UNIVERSAL_SCRAPER/CSV_Gen/scraper_logic.py:86-92 | A fetched URL's row fails exactly when scraping its page fails. Its keys are the selector keys plus `url` (kept in place if already a field), distinct. Its `url` is the source URL, and every other key holds the scraped value. |
| Replay.Fetchable | UNIVERSAL_SCRAPER/CSV_Gen/scraper_logic.py:86-88 | A URL is kept exactly when it is listed and its fetch gives a non-empty page. All of them are kept when every URL fetches. |
| Replay.FetchableAppend | UNIVERSAL_SCRAPER/CSV_Gen/scraper_logic.py:83-88 | URL order is kept: the kept URLs of two runs are the first run's, then the second's. |
| Replay.FetchableOne | UNIVERSAL_SCRAPER/CSV_Gen/scraper_logic.py:86-88 | One URL is kept exactly when its fetch gives a page. With `FetchableAppend` this fixes the kept list, in order. |
| Replay.Rows | UNIVERSAL_SCRAPER/CSV_Gen/scraper_logic.py:83-93 | Rows correspond one to one, in order, to the fetched URLs, each being that URL's row. If every fetch raises, the sitemap loop gives no rows and the listing loop crashes on a non-empty list. |
| Replay.RowsFail | UNIVERSAL_SCRAPER/CSV_Gen/scraper_logic.py:83-93 | The row loop aborts exactly when some URL aborts it. That is a raising fetch outside the sitemap's `try`, or a fetched page whose scrape raises. |
| Replay.RowsShape | UNIVERSAL_SCRAPER/CSV_Gen/scraper_logic.py:198-220 | The `url` column is exactly the fetched URLs in order. Every row's keys are the selector keys plus `url`, with no key twice. |
| Replay.WriteCsv | UNIVERSAL_SCRAPER/CSV_Gen/scraper_logic.py:100-111 | No rows means no file. A row with a key outside the first row's keys raises. Otherwise the header is the first row's keys with one line per row. |
| Replay.UniformRowsWrite | UNIVERSAL_SCRAPER/CSV_Gen/scraper_logic.py:236-242 | Rows that share one key sequence always produce a file. |
| Replay.CsvLineRoundTrip | UNIVERSAL_SCRAPER/CSV_Gen/scraper_logic.py:105-111 | Zipping the header with a written line gives back that row. |
| Replay.WrittenLinesReadBack | UNIVERSAL_SCRAPER/CSV_Gen/scraper_logic.py:105-111 | Rows that share one key sequence are all written under that header, and each line reads back as its row. |
| Replay.Emit | UNIVERSAL_SCRAPER/CSV_Gen/scraper_logic.py:100-111 | The CSV gate on uniform rows: no file exactly when there are no rows. Otherwise a file at the given path with that header, one line per row, each line reading back as its row. |
| Replay.CardHrefs | UNIVERSAL_SCRAPER/CSV_Gen/scraper_logic.py:27-33 | A missing or non-string `product_card`, or a raising card selector, fails the step. No cards give no hrefs. Otherwise the hrefs are the card loop's `CardLinks` over the matched cards when `product_link` is a string, and a failure when it is not. |
| Replay.ListingUrls | UNIVERSAL_SCRAPER/CSV_Gen/scraper_logic.py:25-37 | The URLs have no duplicates. They are exactly the resolved card hrefs, and exactly the card hrefs without a `<base>`. They are ordered by first occurrence, and there are no more of them than hrefs. |
| Replay.ListingScraper | UNIVERSAL_SCRAPER/CSV_Gen/scraper_logic.py:20-113 | The run crashes exactly when the card walk fails or finds no URL, the product file is missing, or a URL aborts the row loop. Otherwise it writes a CSV exactly when some URL fetched. The CSV sits at `base/CSV/<host of first URL>/products.csv`, has the row-key header, and its lines read back as the rows of the fetched URLs, in order. |
| Replay.SitemapScraper | UNIVERSAL_SCRAPER/CSV_Gen/scraper_logic.py:156-244 | The run crashes exactly when the product file is missing or a URL aborts the row loop. If every fetch raises, the result is no rows and no CSV. Otherwise it writes a CSV exactly when some URL fetched, with the row-key header, its lines reading back as the rows of the fetched URLs in order. |
| Replay.ListingNestedRunCrashes | UNIVERSAL_SCRAPER/CSV_Gen/scraper_logic.py:83-93 | When every fetch raises, as `asyncio.run` does inside a running event loop, `listing_scraper` crashes whatever its inputs. |
| Replay.ListingAwaitedWrites | UNIVERSAL_SCRAPER/CSV_Gen/scraper_logic.py:83-113 | When the listing has URLs, each giving a page that scrapes cleanly, and the product file exists, the CSV is written. |
| Replay.SitemapAwaitedWrites | UNIVERSAL_SCRAPER/CSV_Gen/scraper_logic.py:196-244 | When the urlset lists URLs, each giving a page that scrapes cleanly, and the product file exists, the CSV is written. |
| Storage.DomainOf | UNIVERSAL_SCRAPER/CSV_Gen/CSV_Main.py:104 | The domain is never empty: the hostname when present and non-empty, else `unknown`. |
| Storage.NormalizeUrl | UNIVERSAL_SCRAPER/CSV_Gen/save_data.py:17-18 | The output has no `/`, `?`, `&` or `=`, and its length is the input's minus twice the count of `://`. |
| Storage.NormalizeUrlIdempotent | UNIVERSAL_SCRAPER/CSV_Gen/save_data.py:17-18 | Normalising twice equals normalising once. |
| Storage.NormalizeUrlExample | UNIVERSAL_SCRAPER/CSV_Gen/save_data.py:18 | `https://a/b` becomes `https_a_b`: `://` collapses to one `_`. |
| Storage.NormalizeUrlCollides | UNIVERSAL_SCRAPER/CSV_Gen/save_data.py:18 | Two different URLs can share a file name. |
| Storage.Slug | UNIVERSAL_SCRAPER/CSV_Gen/scraper_logic.py:125-126 | A path that is all slashes gives `root`. Otherwise the slug is the slash-stripped path with every `/` replaced by `_`. It is never empty and has no `/`. |
| Storage.SlugIgnoresOuterSlashes | UNIVERSAL_SCRAPER/CSV_Gen/save_data.py:46-47 | Outer slashes never change the slug. |
| Storage.DomainFolder | UNIVERSAL_SCRAPER/CSV_Gen/save_data.py:102 | The folder is the netloc with every `.` replaced by `_`, so it has no `.` and the same length. |
| Storage.ArtifactPath | UNIVERSAL_SCRAPER/CSV_Gen/save_data.py:96-187 | A writer does nothing exactly when its content is falsy or a screenshot fails to decode. Otherwise the path is `base/Data/date/<dotless netloc>/<kind folder>/<normalised url><ext>`, the file name being `NormalizeUrl(url)` plus the kind's extension. |
| Storage.ArtifactPathCollides | UNIVERSAL_SCRAPER/CSV_Gen/save_data.py:18 | Two different URLs of one site get the same artifact path, so one write overwrites the other. |
| Storage.PagePath | UNIVERSAL_SCRAPER/CSV_Gen/scraper_logic.py:121-127 | A collected page goes to `base/<tree>/<day>/<host or unknown>/html/<slug>.html`, the file name being `Slug(path)` plus `.html`. |
| Storage.PagePathIgnoresOuterSlashes | UNIVERSAL_SCRAPER/CSV_Gen/scraper_logic.py:125-127 | Outer slashes on the URL path never change where the page is saved. |
| Storage.CollectHtmlAsWritten | UNIVERSAL_SCRAPER/CSV_Gen/save_data.py:39-40 | As written, save_data's `html_collection` returns `None` for every page. |
| Storage.CollectHtmlIntended | UNIVERSAL_SCRAPER/CSV_Gen/save_data.py:74-89 | The intended version returns a page exactly when the clean or raw run produced non-empty HTML, preferring the clean one. |
| Json.Put | UNIVERSAL_SCRAPER/CSV_Gen/scraper_logic.py:91 | `row["url"] = url` keeps an existing key in place or appends a new one. The key is set, every other key is unchanged, and keys stay distinct. |
| Text.ReplaceAllLength | UNIVERSAL_SCRAPER/CSV_Gen/save_data.py:18 | `str.replace` changes the length by the match count times the length difference. |
| Text.StripIdempotent | UNIVERSAL_SCRAPER/CSV_Gen/CSV_Main.py:33 | Stripping twice equals stripping once. |
| Text.StripIsTightInfix | UNIVERSAL_SCRAPER/CSV_Gen/CSV_Main.py:33 | `strip` returns the infix left after removing the droppable characters at both ends. Everything removed is droppable, and neither end of the result is. |

## Left out

- CSS selector matching and HTML parsing: `select`, `select_one`, `get_text(strip=True)` and `<base href>` are engine oracles (`Dom.Engine`, `World.Env.baseHref`).
- XML parsing and `requests.get`: a sitemap is an `Xml` tree, and a child sitemap fetch is a function returning a tree or `None`.
- The crawl4ai crawler and the extraction model: the pages they return and the JSON they produce are inputs (`World.Env.fetch`, `World.Env.collect`, `Discovery.Reply`). Prompts and model configuration are left out (`get_llm_config`).
- `get_user_input` and `input()`: the terminal menu, URL checks and mode choice are interactive I/O. The sitemap prompt's answers are a parameter of `Sitemaps.PickSample`.
- The sitemap dispatch (`CSV_Main.py:555-558`): it calls `Discovery.ProductPage` or `Discovery.ListingPage` on the confirmed sample and has no logic of its own.
- `random.choice`: `Sitemaps.PickSample` picks any untried URL, so its guarantees hold for every choice.
- File writes, `ensure_dir`, `os.path.exists`, JSON and CSV serialisation and CSV quoting are I/O. Existence checks are booleans, and a written file is its path plus contents.
- `asyncio`: event loops are not modelled. A fetch that raises, as `asyncio.run` does inside a running loop, is the `FetchRaised` case of `World.Fetched`.
- Dates and timezones: dates are string parameters.
- Floating-point JSON numbers: `Json.Value` has integers only.
- Discovery.WellFormedReply: a JSON object is assumed to have distinct keys. `json.loads` guarantees this by keeping the last duplicate; the keep-last rule is not modelled.
- Replay.ListingScraper: the product file is taken to decode to a JSON object. A file holding anything else, which would raise on `.items()`, is not modelled.
- Replay.ResolveAll: `urljoin` with a non-empty base is an oracle (`World.Env.join`), so its result is stated only for an empty base.
- Element text: the element's text is the engine's `text` oracle; `get_text(strip=True)` is not modelled character by character.
- Discovery.ResolveHref: protocol-relative hrefs (`//host/p`) are not special-cased. The model follows the code, which prefixes them with `https://<domain>`.
- A `<base>` tag without `href` raises KeyError at `scraper_logic.py:34`. The oracle always answers, so this crash is not modelled.
- The Website_data and A_Dashboard scripts: crawler configuration, menus and a subprocess call with no logic of their own.

## Findings

| source | as written | input that shows it | evidently intended | confidence | as-written member | corrected member |
|---|---|---|---|---|---|---|
| UNIVERSAL_SCRAPER/CSV_Gen/save_data.py:40 | The module does `from datetime import datetime` (line 3) and then calls `datetime.datetime.now(...)`. The class has no `datetime` attribute, so the call raises AttributeError, which the function's own `except` turns into `None`. CSV_Main imports this `html_collection`, so the bootstrap stops before `product_page` (`Discovery.AsWrittenNeverChains`), and the sitemap loop never confirms a sample. | any URL, e.g. `https://a/b` with both crawler runs returning HTML | `datetime.now(...)`, returning the clean page, else the raw page, else `None` | high, not executed | Storage.CollectHtmlAsWritten | Storage.CollectHtmlIntended |
| UNIVERSAL_SCRAPER/CSV_Gen/scraper_logic.py:86 | Both replay loops fetch each page with `asyncio.run(html_collection(...))` (lines 86 and 202). Their callers (CSV_Main.py:493, 625, 639, 655) all run inside `asyncio.run(get_user_input())` (CSV_Main.py:661). There `asyncio.run` raises RuntimeError. `listing_scraper` has no `try`, so it crashes on its first URL. `sitemap_scraper` swallows each error, so it ends with no rows and never writes a CSV (`Replay.SitemapScraper`, the all-raise clause). | any listing with one product card, any urlset with one `<url>`, while the CLI's event loop is running | `await html_collection(...)`, which fetches each page and writes the CSV (`Replay.SitemapAwaitedWrites` for the sitemap loop) | medium, not executed | Replay.ListingNestedRunCrashes | Replay.ListingAwaitedWrites |
