# Vinyl price aggregator — a Dafny model of its core

The system answers a record query by combining three market sources: a
catalog API lookup (Discogs), a scrape of eBay's sold listings and a scrape of
Popsike's auction history. The combined envelope is cached in a JSON document
for ten minutes, keyed by the exact query string. All of this lives in
`scraper.py`. This project models that file from the point where each page or
API answer has arrived, and proves what the code promises about it.

Modules, one per concern of `scraper.py`:

| file | module | models |
|---|---|---|
| `wrappers.dfy` | `Wrappers` | `Option`, the stand-in for Python's `None` |
| `text.dfy` | `Text` | Python string operations the scrapers rely on: `in`, `strip()`, `split(sep)[-1]`, `isdigit`/`\d`, `isspace`/`\s`, the value of a digit string |
| `cache.dfy` | `Cache` | `get_cached_data` / `save_to_cache`, as the class `QueryCache` over a map of entries, plus the specification functions `Lookup` and `Stored` |
| `discogs.dfy` | `Discogs` | `search_discogs`, with each HTTP answer given as its outcome |
| `ebay.dfy` | `Ebay` | `scrape_ebay_sold` from the row list onwards: query qualifier, row filter, price cleaning, `float()`, the row loop (`ScrapeEbaySold`), statistics |
| `popsike.dfy` | `Popsike` | `scrape_popsike` from the row list onwards: the `+` join, link rewrite, date regex and its fallback, last numeric run of the price, the row loop (`ScrapePopsike`) |
| `aggregator.dfy` | `Aggregator` | `get_vinyl_data`: cache first, then the three sources, then a cache write only if something was found |
| `scenarios.dfy` | `Scenarios` | worked cases on concrete inputs: price strings, a three-listing statistics case, TTL expiry, partial and total failure |

How the model is built:

- Each scraper's row loop is a `method` with a `while` loop.
  - Its `ensures` ties the result to a specification function (`EbayFromRows`, `PopsikeFromRows`).
  - The properties are proved about those functions as lemmas.
- The cache is a class with two fields:
  - the parsed document (`entries`);
  - a flag `readable`, false when the document is text that is not JSON (other corrupt files: see "## Left out").
- `Get` changes nothing. `Save` rewrites the fields, and its `ensures` states the new state through `Stored` and `Loaded`.
- `GetVinylData` drives the cache object. Its `ensures` equates its answer and the new cache state with the pure function `Resolve`.
- Clock readings are integer microseconds, passed in as parameters: a cache read time, a cache write time, and the formatted stamp stored in the envelope.

Two behaviours of the code that the model keeps:

- **eBay link without `href`.** `link_elem['href']` (scraper.py:163) sits outside the per-row `try` (scraper.py:165).
  - A link element without `href` raises past the loop into the function-wide handler (scraper.py:195), and the whole eBay scrape yields `None`.
  - This is `RowOutcome.Aborted`, and `Ebay.ParseAllAborts` states it.
  - In the Popsike loop the same lookup (scraper.py:229) is inside the per-row `try`, so there only the row is skipped.
- **Text around an eBay price.** Cleaning keeps only digits and `.` (scraper.py:168), so "Sold $45.99" becomes "45.99" and reads as 45.99. `Scenarios.SoldPrefixPrice` and `Scenarios.SoldPrefixValue` state this.

## Model

| member | source | states |
|---|---|---|
| Text.FindFrom | scraper.py:244 | the leftmost occurrence of a pattern at or after a start index, with no occurrence before it; None only when there is no occurrence at all (`pat in s`) |
| Text.ContainsIff | scraper.py:153 | `Contains` holds exactly when the pattern occurs at some index |
| Text.ContainsSlice | scraper.py:244-245 | an occurrence inside a slice is an occurrence in the whole string |
| Text.LeadingSpaces | scraper.py:245 | the length of the whitespace prefix: all whitespace, and followed by a non-whitespace character or the end |
| Text.TrailingSpaces | scraper.py:245 | the length of the whitespace suffix: all whitespace, and preceded by a non-whitespace character or the start |
| Text.LStripSpec | scraper.py:245 | left strip removes exactly the leading whitespace |
| Text.RStripSpec | scraper.py:245 | right strip removes exactly the trailing whitespace |
| Text.StripSlice | scraper.py:245 | `strip()` returns the slice between the leading and the trailing whitespace |
| Text.StripEnds | scraper.py:245 | what `strip()` returns neither begins nor ends with whitespace |
| Text.StripSpec | scraper.py:245 | `strip()` returns the slice between the leading and the trailing whitespace, which neither begins nor ends with whitespace |
| Text.StripContains | scraper.py:245 | stripping creates no occurrence of a pattern that was not already there |
| Text.StripOfSuffix | scraper.py:245 | stripping a suffix of a string leaves a slice of that string |
| Text.SplitStartStep | scraper.py:245 | one step of `split`'s left-to-right scan: the first separator found from a position is an occurrence at or after it, and the scan resumes right after it |
| Text.SplitStartMoves | scraper.py:245 | the scan moves past its starting position exactly when a separator occurs from there |
| Text.SplitStartNone | scraper.py:245 | no separator occurs from where the scan stops, which is where the last piece starts |
| Text.SplitStartAfterSep | scraper.py:245 | when the scan moved on to `e`, an occurrence of the separator at or after the start ends exactly at `e` |
| Text.SplitLastSpec | scraper.py:245 | `split(sep)[-1]` is a suffix of the input that no longer contains `sep`, and is the input itself when `sep` does not occur |
| Text.SplitLastAfterSep | scraper.py:245 | when `sep` occurs, `split(sep)[-1]` starts right after an occurrence of `sep` |
| Text.DigitsValueNonNegative | scraper.py:264 | the value of a digit string is never negative |
| Cache.LookupSpec | scraper.py:29-33 | a read returns the stored payload exactly when the key is present and less than ten minutes old |
| Cache.ReadAfterWrite | scraper.py:31 | a key just written reads back its payload for less than ten minutes after the write, and reads absent from then on |
| Cache.WriteLeavesOtherKeys | scraper.py:48-51 | a write leaves every other key's entry and read result unchanged |
| Cache.WriteOverwrites | scraper.py:48-51 | a write adds or replaces its key with the new time and payload, stale or fresh |
| Cache.FreshEarlier | scraper.py:31 | an entry fresh at some time is fresh, with the same payload, at every earlier time |
| Cache.QueryCache.Empty | scraper.py:40 | with no backing document the cache is empty and readable |
| Cache.QueryCache.FromDocument | scraper.py:41-46 | the cache holds the given document, or is marked unreadable when the document does not parse |
| Cache.QueryCache.Get | scraper.py:23-36 | the payload is returned exactly when the document is readable, the key is present and the entry is under ten minutes old; an unreadable document reads as empty; the store is not changed |
| Cache.QueryCache.Save | scraper.py:38-57 | the new document is the loaded one (empty if it did not parse) with the key set to (now, data); every other key of a readable document is kept |
| Discogs.SearchDiscogsSpec | scraper.py:59-119 | a release is returned exactly when a token is set, the release search answered, and the chosen list (release hits, or master hits when none) is non-empty with an identified first hit; its title and URL come from that hit; a failed follow-up call leaves its field empty |
| Discogs.FollowUpsNeverFail | scraper.py:97-113 | whether a release is returned does not depend on the two follow-up calls |
| Discogs.MasterOnlyAsFallback | scraper.py:76-80 | with non-empty release hits the master search has no effect |
| Ebay.SearchTextInjective | scraper.py:123 | appending the qualifier keeps distinct queries distinct |
| Ebay.CleanPriceConcat | scraper.py:168 | price cleaning works character by character: it distributes over concatenation |
| Ebay.CleanPriceSingle | scraper.py:168 | a single character is kept exactly when it is a digit or a dot |
| Ebay.CleanPriceSpec | scraper.py:168 | the cleaned price holds only digits and dots, is no longer than the input, leaves such a string unchanged, and is empty when no character qualifies |
| Ebay.CleanPriceIdempotent | scraper.py:168 | cleaning a cleaned price changes nothing |
| Ebay.DotAt | scraper.py:168 | an occurrence of "." at an index is a dot character there |
| Ebay.FirstDot | scraper.py:168 | the first-dot search finds the first dot, or reports none when no character is a dot |
| Ebay.NoDotAllDigits | scraper.py:168 | a cleaned price without a dot is all digits |
| Ebay.FirstDotAfterDigits | scraper.py:168 | in `a.b` with `a` all digits, the first dot is the one after `a` |
| Ebay.ParseFloatAccepts | scraper.py:168 | `float()` on a cleaned price succeeds exactly on `d+`, `d+.`, `d+.d+`, `.d+` |
| Ebay.ParseFloatValue | scraper.py:168 | `a.b` parses to `a + b / 10^len(b)` |
| Ebay.ParseFloatDigits | scraper.py:168 | a digit string parses to its integer value |
| Ebay.ParseRowSpec | scraper.py:153-178 | a row yields a listing exactly when it has no "no title" marker, has title and price, has no link or a link with `href`, and its cleaned price is a float literal; it aborts exactly when the link lacks `href`; the listing keeps the raw price text, uses "#" for a missing link, and its price value is `float()` of the cleaned price |
| Ebay.ParseAllStep | scraper.py:152-178 | one more row extends the walk by that row's listing, by nothing, or aborts it |
| Ebay.RowYields | scraper.py:153-175 | a row with no "no title" marker, a title, a price, a usable link and a price that `float()` reads as `v` appends exactly the listing with that title, raw price, `v` and link ("#" when there is no link) |
| Ebay.RowSkipped | scraper.py:153-178 | a row marked "no title", missing its title or price, or whose cleaned price `float()` rejects leaves the collected listings unchanged |
| Ebay.ParseAllAborts | scraper.py:150-178 | the row walk yields nothing exactly when some row aborts |
| Ebay.ParseAllConcat | scraper.py:152-178 | rows are processed in source order: the listings of `a + b` are those of `a` followed by those of `b` |
| Ebay.ParseAllSingle | scraper.py:152-178 | a single row contributes its own listing if it parses, nothing if it is skipped |
| Ebay.PricesOf | scraper.py:169 | the price list is aligned with the listing list, price for listing |
| Ebay.SeqMin | scraper.py:189 | the minimum is one of the prices and no price is below it |
| Ebay.SeqMax | scraper.py:190 | the maximum is one of the prices and no price is above it |
| Ebay.SumBounds | scraper.py:183 | the sum of n values within [lo, hi] lies within [n·lo, n·hi] |
| Ebay.DivideBound | scraper.py:183 | dividing a bound on n copies by n |
| Ebay.AverageWithin | scraper.py:183 | the average of values within [lo, hi] lies within [lo, hi] |
| Ebay.SummariseSpec | scraper.py:180-193 | no result exactly when nothing parsed; otherwise the first five listings in order, a count of all parsed prices, a min and max that bound every price and are attained, and an average that is the mean of all prices and lies between them |
| Ebay.EbayResultSpec | scraper.py:144-193 | the scrape yields nothing exactly when a row aborts or no row parses |
| Ebay.SelectRowsSpec | scraper.py:146-148 | the alternate selector's rows are used only when the primary selector finds none |
| Ebay.ScrapeEbaySold | scraper.py:144-193 | the loop over the selected rows returns exactly the specified scrape result |
| Popsike.SearchText | scraper.py:200 | every space of the query becomes `+`, every other character is kept, length unchanged |
| Popsike.SearchTextSpec | scraper.py:200 | the search text has no space, and "a b" and "a+b" are sent alike |
| Popsike.RewriteLinkSpec | scraper.py:229-231 | the rewritten link starts with "http" exactly when the original starts with "http" or ".."; a link starting with ".." but not "http" gets the site base in front, every other link is kept as it is; rewriting is idempotent |
| Popsike.DateMatchAt | scraper.py:239 | the match length at a position is non-zero exactly when a date text of 11 or 12 characters starts there, and then covers that date text; a two-digit day is taken whenever one matches |
| Popsike.FindDate | scraper.py:239 | the leftmost position where the date pattern matches, none before it; None only when it matches nowhere |
| Popsike.DateMatchInSlice | scraper.py:239 | a date match inside a slice is a match in the whole string |
| Popsike.HasDateInSlice | scraper.py:239 | if the pattern matches in a slice it matches in the whole string |
| Popsike.CleanDateMatched | scraper.py:239-241 | when the pattern matches, the cleaned date is the leftmost match and is a date text |
| Popsike.AfterMarkerSlice | scraper.py:245 | the stripped text after the last "register" is a slice of the date text |
| Popsike.AfterMarkerClean | scraper.py:245 | the stripped text after the last "register" holds no "register" and has no surrounding whitespace |
| Popsike.AfterMarkerFollows | scraper.py:245 | the stripped last piece is the stripped text after an occurrence of "register" that no later "register" follows |
| Popsike.CleanDateFallback | scraper.py:242-245 | without a match but with "register", the result is the stripped text after an occurrence of "register" with no "register" after it, a slice free of "register" with no surrounding whitespace; with neither, the text is kept |
| Popsike.UnknownDateKept | scraper.py:234-235 | a missing date element gives "Unknown Date", which the cleanup keeps |
| Popsike.CleanDateIdempotent | scraper.py:233-245 | cleaning a cleaned date changes nothing |
| Popsike.TrailingRunLength | scraper.py:260 | the longest suffix made of digits and commas |
| Popsike.RunEnd | scraper.py:260 | one past the last digit or comma, with none after it |
| Popsike.LastRunSpec | scraper.py:260-263 | the last regex match is absent exactly when no digit or comma occurs; otherwise it is a maximal run with no digit or comma after it |
| Popsike.RemoveCommasConcat | scraper.py:264 | comma removal works character by character: it distributes over concatenation |
| Popsike.RemoveCommasSingle | scraper.py:264 | a single character is dropped exactly when it is a comma |
| Popsike.RemoveCommasSpec | scraper.py:264 | removing commas from a run leaves digits only, and leaves nothing exactly when the run is all commas |
| Popsike.PriceValueSpec | scraper.py:258-264 | a price is found exactly when the last run holds a digit; it is then the decimal value of that run's digits with the commas removed, and never negative |
| Popsike.ParseRowSpec | scraper.py:223-275 | a row yields a listing exactly when it has a title anchor with `href` and a price box with a price; the listing carries the anchor text, rewritten link, cleaned date and that price |
| Popsike.ParseAllConcat | scraper.py:223-275 | rows are processed in source order |
| Popsike.ParseAllSingle | scraper.py:223-275 | a single row contributes its own listing if it parses, nothing if it is skipped |
| Popsike.ParseAllLength | scraper.py:223-275 | at most one listing per row |
| Popsike.ParseAllNone | scraper.py:223-275 | when no row yields a listing nothing is collected |
| Popsike.ParseAllSome | scraper.py:223-275 | a row that yields a listing makes the collection non-empty |
| Popsike.ParseAllEmpty | scraper.py:223-275 | nothing is collected exactly when no row yields a listing |
| Popsike.PopsikeResultSpec | scraper.py:277-283 | no result exactly when no row yields a listing; otherwise the first five listings and the count of all |
| Popsike.ScrapePopsike | scraper.py:216-283 | the loop over the rows returns exactly the specified scrape result |
| Aggregator.ResolveHit | scraper.py:290-293 | a fresh cached payload is returned as is, the sources are ignored and the cache is untouched |
| Aggregator.ResolveMiss | scraper.py:295-312 | on a miss the envelope carries the query and the three outcomes; it is written exactly when some source returned data, and then reads back as a hit |
| Aggregator.ResolveAnswersQuery | scraper.py:300-306 | the answer always carries the query asked, and every cached payload stays filed under its own query |
| Aggregator.RepeatWithinTtl | scraper.py:289-312 | a call that fetched data, repeated within ten minutes of its write, returns the same payload whatever the sources say then |
| Aggregator.TotalFailureNotCached | scraper.py:308-310 | a call on which every source failed leaves nothing cached, so a later call fetches afresh |
| Aggregator.GetVinylData | scraper.py:289-312 | the method's answer and the new cache state are those of `Resolve` on the old state |
| Scenarios.CleanFour | scraper.py:168 | a text of four pieces cleans to the concatenation of the pieces' cleanings |
| Scenarios.NumbersKept | scraper.py:168 | "200.00", "45.99", "10.00" and "20.00" are kept whole by cleaning |
| Scenarios.WordsDropped | scraper.py:168 | "Sold $" and " to $" clean to nothing |
| Scenarios.DigitValues | scraper.py:168 | "1200", "00", "45" and "99" denote 1200, 0, 45 and 99 |
| Scenarios.ThousandsPieces | scraper.py:168 | "$", "1", "," and "200.00" clean to "", "1", "" and "200.00" |
| Scenarios.SoldPieces | scraper.py:168 | "Sold $" and "45.99" clean to "" and "45.99" |
| Scenarios.RangePieces | scraper.py:168 | "$", "10.00", " to $" and "20.00" clean to "", "10.00", "" and "20.00" |
| Scenarios.ThousandsSeparatorPrice | scraper.py:168 | "$1,200.00" cleans to "1200.00" |
| Scenarios.ThousandsSeparatorValue | scraper.py:168 | "1200.00" parses to 1200 |
| Scenarios.SoldPrefixPrice | scraper.py:168 | "Sold $45.99" cleans to "45.99" |
| Scenarios.SoldPrefixValue | scraper.py:168 | "45.99" parses to 45.99 |
| Scenarios.PriceRangePrice | scraper.py:168 | a price range "$10.00 to $20.00" fuses into "10.0020.00" |
| Scenarios.PriceRangeValue | scraper.py:168-178 | "10.0020.00" does not parse, so such a row is skipped |
| Scenarios.PopsikeLastRun | scraper.py:260-263 | in "1,200$1,590" the last run of digits and commas is "1,590" |
| Scenarios.PopsikeRunDigits | scraper.py:264 | "1,590" without commas is "1590", which denotes 1590 |
| Scenarios.PopsikeLastNumberPrice | scraper.py:258-264 | a price box reading "1,200$1,590" gives the price 1590 |
| Scenarios.ThreeListingStats | scraper.py:183-191 | prices 10, 20, 30 give average 20, min 10, max 30, count 3 |
| Scenarios.ExpiryBoundary | scraper.py:31 | an entry is served just before the ten-minute mark and not at it |
| Scenarios.PartialFailure | scraper.py:296-310 | catalog down, three eBay listings, no Popsike result: only the eBay field is set, with count 3, and the envelope is cached |
| Scenarios.TotalFailure | scraper.py:296-310 | all sources absent: the envelope holds only query and stamp, nothing is cached, and the next call fetches afresh |

## Left out

- HTTP requests, request headers, timeouts and URL percent-encoding (`urllib.parse.quote`): each source's answer is a parameter of the model.
- HTML parsing with BeautifulSoup and the CSS selectors: a row is given as the elements the selectors would find, with their stripped text.
- The eBay sold-date element (scraper.py:158) is read but never used, so it is not modelled.
- JSON reading and writing of the cache file, and ISO timestamp formatting and parsing: the document is a map from query to (microsecond time, payload), or unreadable.
- Cache.QueryCache.Save: `readable == false` stands only for a cache file that is text but not JSON, which the real write replaces by a fresh map (scraper.py:44-46). Two other corrupt files make the real write fail, and the model does not capture either:
  - a file that is not valid text: the decode error escapes the handler at scraper.py:45 and is swallowed at scraper.py:56;
  - a file that is JSON but not an object, such as `[]`: the assignment at scraper.py:48 raises.
  In both cases no write succeeds and the cache stays empty for good. An error inside `json.dump` (scraper.py:54) comes after `open(CACHE_FILE, 'w')` (scraper.py:53) has truncated the file, so the store is left empty or partial and every other key is lost. An error before that `open` leaves the file as it was. The model always writes in full.
- Aggregator.RepeatWithinTtl: holds for a cache file that is missing, a JSON object, or text that is not JSON. For the two corrupt files above, or after a failed dump, the real second call fetches again.
- Cache.QueryCache.Get: a document that parses but holds an entry without a valid `timestamp` makes the real read return `None`. This case is not modelled.
- The formatted generation time (`strftime`) is an opaque string parameter.
- The read-modify-write race between concurrent callers on the cache file: the model is sequential.
- Logging is not modelled.
- Ebay.SummariseSpec: the average is the exact mean. It is not rounded to two decimals (`round(avg, 2)`, scraper.py:188), because decimal rounding of binary floats is not modelled.
- Ebay.ParseFloatValue: prices are exact rationals, not IEEE doubles, so rounding of long decimal strings is not modelled.
- Popsike.ParseRow: the display string `f"${price_val:,.2f}"` (scraper.py:269) is not built. The listing keeps the numeric value.
- Popsike.CleanDateFallback: when occurrences of "register" overlap (it can overlap itself on its final "r"), the contract does not say which of them the piece follows. Python's split takes the one its left-to-right scan of non-overlapping occurrences reaches last, and `Text.SplitStart` defines that scan (`Text.SplitStartStep`, `Text.SplitStartNone`, `Text.SplitStartAfterSep`).
- Popsike.PriceValue: the value is an integer. Python's `float()` of a digit string is numerically the same for prices of ordinary size.
- Text.IsDigit: only ASCII digits count. Python's `isdigit()` and `\d` also accept other Unicode digits, which do not occur in these pages' prices and dates.
- Aggregator.Resolve: a cached payload counts as a hit whenever it is present. Python's `if cached:` would also reject an empty payload, but a stored envelope is never empty.
- Discogs.SearchDiscogs: a present but `null` `format` is treated like a missing one.
- Each endpoint's JSON members other than the ones read are opaque maps.
- The web front end (`app.py`) and the debugging scripts are not part of this model.
