# AppExchange consultant scraper: a Dafny model of its core

The program opens the consulting directory of the Salesforce AppExchange (Japan) in a headless
browser. It presses "load more" until the list stops growing, splits the page body into
listing tiles and extracts each new listing's id, name and detail URL. It then visits each
detail page for the publisher's website, records every visited id in a ledger file
(`fetched.txt`), and writes the results as CSV.

The model covers the pure core of `main.go`:

- **`TextSearch`**: Go's `strings.Index` and `strings.Split` (non-empty separator), as
  functions over `seq<char>`.
- **`Attributes`**: `extractAttr`, the value between an attribute prefix and the next `"`.
- **`Unescape`**: `htmlUnescape`, a `strings.NewReplacer` over six character references.
  It matches leftmost, argument order breaks ties, and replaced text is never rescanned.
- **`Listings`**: the extraction loop. It splits on the tile marker and skips split indices
  below 29. It keeps a tile only when its id is non-empty and not yet in the ledger, and its
  decoded name and URL are non-empty.
- **`Ledger`**: `loadFetchedIDs` (the non-empty lines of the file) and the effect of
  `appendFetchedID` on the file content (`id` and a newline at the end, nothing when the file
  cannot be opened). The file is absent, unreadable, or readable with its content: an
  unreadable file that still opens for appending receives lines but reads as empty.
- **`Enrichment`**: the detail-page loop. The website is set only when the visit succeeds; the
  id is appended either way.
- **`Pagination`**: `clickLoadMoreUntilDone`, a bounded state machine over an oracle for the
  browser. It runs at most 20 triggers and at most 20 polls after each. It stops when the
  trigger fails or when 20 polls see no growth. It reports an error only when the count read
  before a trigger fails.
- **`Scrape`**: one run from ledger to report, and what a second run over the same page finds.

Every loop of the source is bounded, and so is every recursion here, so each modelled operation
terminates. In particular the load-more driver stops after at most 20 rounds.

The browser is replaced by explicit inputs:
- the page body as a string;
- a `Visit` outcome per listing (failed, or the detail page's HTML);
- a flag per listing saying whether the ledger file could be opened;
- for pagination, a `Session` of three functions: the count read before each trigger, whether
  each trigger ran, and the count each poll reads.

A poll whose read fails leaves Go's `var currentCount int` at zero, so it reads as 0.

The skip boundary `i < 29` drops split index 0 (the text before the first tile marker) and the
first 28 tiles. The source's comment says "skip the first 28", and counted in tiles the two
agree (`RenderedPageSkips28Tiles`): a tile can be extracted only when at least 28 tiles
precede it.

## Model

| member | source | states |
|---|---|---|
| `TextSearch.IndexOf` | main.go:146 | The result is the leftmost position where the pattern occurs, or absent (Go's -1) exactly when it never occurs |
| `TextSearch.Split` | main.go:52 | At least one part. Its value is fixed by `SplitWithoutOccurrence` and `SplitAtFirst`; `JoinSplit` and `SplitPartsAvoidSeparator` state what the parts are |
| `TextSearch.SplitWithoutOccurrence` | main.go:52 | Text holding no separator splits into itself alone |
| `TextSearch.SplitAtFirst` | main.go:52 | Text is cut at the first occurrence of the separator: the text before it is the first part, and the rest is split in turn |
| `TextSearch.JoinSplit` | main.go:52 | Splitting a page on the tile marker loses nothing: joining the parts with the marker gives back the page |
| `TextSearch.SplitPartsAvoidSeparator` | main.go:175 | No part produced by a split contains the separator, so no ledger line contains a newline |
| `Attributes.ExtractAttr` | main.go:145-156 | The value never contains `"`. It is empty when the prefix is absent or no `"` follows its first occurrence. Otherwise the prefix, the value and a `"` appear in the text exactly at the prefix's first occurrence |
| `Attributes.ExtractRendered` | main.go:145-156 | Round trip: a quote-free value written as prefix, value, `"` after text holding no earlier occurrence of the prefix is extracted back unchanged, whatever follows |
| `Unescape.HtmlUnescape` | main.go:159-169 | Never longer than its input, and empty exactly when the input is. Its value is fixed by `UnescapeReference`, `UnescapePlainChar` and `UnescapeBareAmpersand`, which cover each possible first character |
| `Unescape.UnescapePlainChar` | main.go:159-169 | A first character other than `&` is copied, and decoding continues after it |
| `Unescape.UnescapeBareAmpersand` | main.go:159-169 | An `&` that starts none of the six references is copied, and decoding continues after it (`&x` gives `&x`) |
| `Unescape.UnescapeReference` | main.go:160-168 | One of the six references at the front of the text becomes its character, and decoding continues after it, independently of the replacement |
| `Unescape.UnescapeIdentity` | main.go:159-169 | Text that holds none of the six references comes back unchanged |
| `Unescape.UnescapeEscape` | main.go:159-169 | Decoding is a left inverse of escaping the six characters `/ & < > " '`: every string survives escape-then-decode |
| `Unescape.UnescapeEncodeAll` | main.go:160-168 | A run of references decodes to their characters, one per reference, in order |
| `Unescape.ReferencesDecodeClean` | main.go:160-168 | Text made only of references decodes to text holding no reference |
| `Unescape.EscapedQuoteFree` | main.go:145-156 | Escaped text never holds `"`, so an escaped name is read back whole by the attribute extractor |
| `Unescape.DecodeReferencesTwice` | main.go:159-169 | On text made only of references a second decoding pass changes nothing |
| `Unescape.NoRescan` | main.go:162 | `&amp;` followed by the tail of any reference decodes to that reference (`&amp;lt;` gives `&lt;`): a replacement is not scanned again |
| `Unescape.UnescapeAmidPlainText` | main.go:159-169 | In text whose only `&` begins one reference, only that reference is replaced |
| `Unescape.AmpersandInName` | main.go:62 | The listing name `A &amp; B` decodes to `A & B` |
| `Listings.FromFragment` | main.go:58-70 | A fragment gives a listing if and only if its id attribute is non-empty and not in the ledger and its decoded name and its URL attribute are non-empty. The listing is made of exactly those id, decoded name and URL, with an empty website |
| `Listings.RenderedTileYields` | main.go:58-70 | Round trip for any tile written as id, escaped name and URL attributes (quote-free id and URL, each attribute the first of its kind): it yields the listing it was written from, name decoded back, or nothing when the id is empty or known or the name or URL is empty |
| `Listings.ExtractListings` | main.go:52-71 | Every extracted listing is new with respect to the ledger and carries a non-empty id, name and URL |
| `Listings.ExtractSkipsLeadingFragments` | main.go:52-57 | Split indices 0 to 28 never contribute. The result is empty for a page of at most 29 parts, and otherwise the listings of parts 29 onward, in page order |
| `Listings.KeepMembers` | main.go:53-70 | A listing is extracted from a run of fragments if and only if one of those fragments yields it |
| `Listings.ReExtractionYieldsNothing` | main.go:58-61 | Extracting again, against a ledger that holds the old ledger and every id extracted, gives nothing |
| `Listings.RenderedPageSkips28Tiles` | main.go:51-57 | On a page written as leading text followed by marker-introduced tiles, the first 28 tiles are dropped and the remaining tiles are kept in order |
| `Listings.DuplicateFragmentsBothKept` | main.go:53-70 | Any fragment that gives a listing, repeated, gives that listing twice: extraction consults only the ledger, so ids within one page are not made unique |
| `Listings.DuplicateTilesBothKept` | main.go:53-70 | Instance of the above: two copies of the tile with id 42 both give listing 42 |
| `Listings.ExamplePageYieldsOneListing` | main.go:51-71 | A page of 29 copies of the tile with id 42, name `A &amp; B` and URL `http://x/42` gives exactly one listing, named `A & B` |
| `Ledger.ParseLedger` | main.go:172-183 | No recorded id is empty or holds a newline, and an absent or unreadable file records nothing |
| `Ledger.UnterminatedLineGlued` | main.go:175-190 | Content whose last line lacks a newline gets the next id glued onto it: appending `456` to `123` records only `123456` |
| `Ledger.LedgerIsItsLines` | main.go:172-183 | A string is recorded if and only if it is non-empty and a whole line of the file |
| `Ledger.ParseAppendedLine` | main.go:175-190 | For content that is empty or ends in a newline and an id that is non-empty and newline-free, reading the content plus the id's line gives the old ids plus exactly that id |
| `Ledger.AppendFetchedId` | main.go:172-192 | The content of a readable file only grows, and an unreadable one stays unreadable and reads as nothing. Nothing is written when the file cannot be opened. Content that is empty or ends in a newline stays so. For a readable or absent file whose content is empty or ends in a newline, and an id that is non-empty and newline-free, reading back after a successful append gives the old ids plus the appended one |
| `Ledger.ParseAppended` | main.go:172-192 | For content that is empty or ends in a newline, and ids that are non-empty and newline-free, after a run of successful appends a readable or absent ledger reads back as the old ids plus exactly the appended ones; an unreadable one still reads as nothing. The content stays empty or newline-terminated |
| `Ledger.MultiLineIdNotRecorded` | main.go:190 | An id holding a newline is written as two lines and read back as those two lines (`a\nb` gives `a` and `b`), not as itself |
| `Enrichment.Visited` | main.go:82-90 | Only the website can change. A failed visit leaves it as it was; a loaded page sets it to the page's website attribute, empty if it has none |
| `Enrichment.AppendedIds` | main.go:76-93 | No more ids than listings. An id is appended if and only if it belongs to a listing whose append opened the file. When every append opens the file, the ids are exactly the listings' ids, in order |
| `Enrichment.Enrich` | main.go:76-94 | One report row per listing, in order, with name, id and URL unchanged. A failed visit leaves the website unchanged; a loaded one sets it from the detail page. The ledger receives, in order, the ids of the listings whose append opened the file |
| `Enrichment.EnrichRecordsEveryListing` | main.go:76-94 | When every append opens the file, each listing's id is appended exactly once, in order, whether or not its visit succeeded. For a ledger whose content is empty or ends in a newline, and listing ids that are non-empty and newline-free, a readable or absent ledger then reads as the old ids plus all listing ids; an unreadable one as nothing |
| `Pagination.FirstGrowth` | main.go:125-135 | The result is the first poll whose count exceeds the pre-trigger count, or none when all 20 polls stay at or below it |
| `Pagination.Drive` | main.go:104-142 | The driver's run satisfies `Explains`. Every completed round read its count, triggered and grew at its first growing poll. The run stops in the next round: a failed count read, a failed trigger, 20 polls without growth, or the 20-round budget |
| `Pagination.ClickLoadMoreUntilDone` | main.go:104-142 | The loop written as nested loops produces a run that `Explains` accepts, and reports an error exactly when it stopped on a failed count read |
| `Pagination.ExplainsExactlyDrive` | main.go:104-142 | Every session has exactly one explained run, which is the one the driver computes |
| `Pagination.DriverIsBounded` | main.go:105-126 | However the page behaves, there are at most 20 count reads, 20 trigger attempts (a failed one included) and 400 polls, so at most 200 seconds of poll sleeps |
| `Pagination.NeverGrowingPage` | main.go:125-139 | A page whose count never grows stops after one trigger and 20 polls, without error |
| `Pagination.FailedPollsNeverGrow` | main.go:127-131 | Failed poll reads count as 0, so they never register growth over a non-negative count |
| `Pagination.AlwaysGrowingPage` | main.go:105-140 | A page that grows at every first poll runs 20 triggers and then stops, without error |
| `Pagination.ErrorOnlyOnCountRead` | main.go:105-141 | An error is reported if and only if some count read before a trigger fails, after every earlier round grew |
| `Scrape.Scrape` | main.go:48-94 | One report row per new listing, in page order, with that listing's name, id and URL: an id the ledger lacked and non-empty name and URL. The website is empty when the visit failed and the page's attribute when it loaded. The ledger gains the ids whose appends opened the file |
| `Scrape.SecondRunFindsNothing` | main.go:48-94 | For a readable or absent ledger that is empty or ends in a newline, after a run whose appends all opened it, a second run over the same page extracts nothing, whatever the detail visits did |
| `Scrape.UnreadableLedgerForgetsRuns` | main.go:172-192 | A ledger that exists but cannot be read stays unreadable after a run, so the next run extracts as many listings as against an empty ledger |
| `Scrape.UnopenableLedgerUnchanged` | main.go:186-192 | When no append can open the ledger, a run leaves the ledger file as it was |

## Left out

- The browser session is not modelled: chromedp navigation, `OuterHTML`, `Evaluate`, the
  `loadMoreListingsJS()` script and the `querySelectorAll` count. Their results are inputs (the
  page string, `Visit`, `Session`).
- Sleeps and the random 3-5 second delay before each visit are not modelled. Time enters only
  through `PollIntervalMs` in the poll bound.
- The fatal exits (`log.Fatal` on the first navigation, on reading the body and on the CSV
  write) and all console output are left out.
- `writeCSV` is left out. It is file output of the report's name, listing URL and website
  columns under a fixed header; the model stops at the report rows.
- The page that `Scrape` reads is an input. In the program it is whatever the browser holds
  after the load-more driver, whose error main only logs.
- Ledger.AppendFetchedId: a `WriteString` that fails or writes partially after the file
  opened is not modelled; in the model an opened file always receives the whole line.
- Text is `seq<char>`, where Go works on bytes. All markers and references are ASCII, so
  searches, splits and slices agree with the bytes of valid UTF-8 input.
- Pagination.DriverIsBounded: the bound counts polls and triggers, not wall-clock time spent
  in the browser calls themselves.
- Scrape.SecondRunFindsNothing requires a readable or absent ledger that is empty or ends in a
  newline, and ids without a newline. Without a final newline the first appended id is glued
  onto the last line (`UnterminatedLineGlued`). An unreadable ledger forgets every run
  (`UnreadableLedgerForgetsRuns`). An id holding a newline is written as several lines
  (`MultiLineIdNotRecorded`). In each case the source does not recognise the ids on the next run.
