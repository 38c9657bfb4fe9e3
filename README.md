# Arkansas county auction scraper, modelled in Dafny

This project models the core of `auction_scraper.py`. The scraper visits the
notice pages of five Arkansas counties. It hands each page to one of three
parsers, chosen by the page's host:

- the Pulaski parser follows the page's auction links;
- the PDF-listing parser reads every linked PDF;
- the generic parser reads the page text, then every linked PDF.

All three parsers pull street addresses out of text with two regex tiers. The
scraper collects one row (county, address, source) per address, then keeps
the first row of each (county, lower-cased address) pair.

The modules follow the program:

- `Strings` (`strings.dfy`): the Python string operations the scraper uses, on ASCII. These are `strip`, `lower`, `in` and `endswith`.
- `Comprehensions` (`comprehensions.dfy`): a list comprehension with an `if`, which is also how a CSS selector picks links in document order.
- `FirstOccurrence` (`first_occurrence.dfy`): the "filter with a seen set" loop, as one function `KeepFirst(s, key, keep)`. The scraper writes this loop twice: over the address candidates (`auction_scraper.py:80-84`) and over the final records (`auction_scraper.py:194-199`). `dict.fromkeys` (`auction_scraper.py:124`) does the same job, and is `Distinct`. `KeepFirst` is characterised independently by the positions that hold the first acceptable element of each key.
- `FileNames` (`file_names.dfy`): `sanitize_filename` and the `.pdf` naming rule of `download_pdf`.
- `Addresses` (`addresses.dfy`): `find_addresses_in_text`. This covers the whitespace normalisation, the two tiers walked in order, and the first-occurrence filter.
- `Parsers` (`parsers.dfy`): `download_pdf`, `extract_addresses_from_pdf`, and the three parsers. Each parser is an imperative method, proved equal to a function that states what it returns.
- `Scrape` (`scrape.dfy`): host dispatch, the run over the sites, and the final deduplication.

The outside world is a value `Parsers.Web` of total functions:

- `get` is the HTTP fetch: a status and a body, or `Unreachable` when it raises;
- `pageText` and `hrefs` stand for BeautifulSoup;
- `pdfPages` stands for pdfplumber: the pages' text, or `None` when the file cannot be read;
- `urljoin`, `netloc`, `urlName` (the last path segment) and `unquote` are the URL helpers;
- `finditer` gives the `group(1)` strings of the regex matches of a tier.

Python leaves the iteration order of the Pulaski parser's `set` of links unspecified. That order is an input `order`, which must list each link exactly once (`Parsers.Enumerates`).

Failures are not isolated per link or per site. Only `download_pdf` (`auction_scraper.py:53`, `auction_scraper.py:64-65`) and `extract_addresses_from_pdf` (`auction_scraper.py:88`, `auction_scraper.py:95-97`) catch exceptions. A fetch that raises inside `parse_pulaski` (`auction_scraper.py:106`, `auction_scraper.py:115`), `parse_pdf_listing` (`auction_scraper.py:135`) or `generic_page` (`auction_scraper.py:154`) leaves the parser. `scrape` does not catch it either (`auction_scraper.py:185-192`), so the whole run ends. `Parsers.Outcome` is either `Rows(rows)` or `Raised(url)`, and `Parsers.Then` / `Parsers.Sequence` carry the exception through the loops.

The thresholds also differ:

- the parsers skip a page when its status is at least 400 (`IsErrorStatus`);
- `download_pdf` fails only for statuses from 400 to 599 (`raise_for_status`, `RaisesForStatus`).

## Model

| member | source | states |
|---|---|---|
| Strings.Strip | auction_scraper.py:49 | `strip()` never lengthens its input and leaves no whitespace at either end |
| Strings.StripSlice | auction_scraper.py:49 | `strip()` returns the slice of its input that starts after the leading whitespace |
| Strings.StripFrom | auction_scraper.py:82 | when `s[k]` is the first non-whitespace character, `strip()` is a non-empty slice starting at `k`, and only whitespace follows it |
| Strings.StripAllSpace | auction_scraper.py:50 | text made only of whitespace strips to the empty string |
| Strings.Lower | auction_scraper.py:196 | `lower()` keeps the length and lowers each character |
| FileNames.ReplaceChar | auction_scraper.py:49 | each character becomes one of `[\w\-\. ]`, and exactly those characters are left unchanged |
| FileNames.ReplaceDisallowed | auction_scraper.py:49 | the substitution keeps the length and replaces each character on its own |
| FileNames.SanitizeFilename | auction_scraper.py:48-50 | the sanitised name is never empty, is at most 180 characters, and holds only characters of `[\w\-\. ]` |
| FileNames.SanitizeBlankName | auction_scraper.py:48-50 | an empty or all-space name gives the fallback `"file"` |
| FileNames.SanitizeKeepsMiddle | auction_scraper.py:48-50 | any other name keeps its replaced characters from its first non-space character on, in order, up to 180 of them; when fewer than 180 are kept, the result does not end in a space and only spaces were dropped after it; when exactly 180 are kept, a non-space of the name lies at or after the last kept position, so trailing spaces are never kept |
| FileNames.SanitizeCut | auction_scraper.py:49-50 | a sanitised name of exactly 180 characters was cut from a stripped name at least that long: a non-space of the name lies at or after its last position |
| FileNames.SanitizeUncut | auction_scraper.py:49-50 | a sanitised name shorter than 180 characters was not cut: it ends in a non-space, and only spaces follow that character in the name |
| FileNames.WithPdfSuffix | auction_scraper.py:57-58 | the result ends in `.pdf` in any case, starts with the base, is at most 4 characters longer, and equals the base exactly when the base already ends in `.pdf`; otherwise it is the base with exactly `.pdf` appended |
| FileNames.PdfSuffixEndsWithPdf | auction_scraper.py:57-58 | appending `.pdf` always passes the test `lower().endswith(".pdf")` |
| FileNames.SuffixKeepsChars | auction_scraper.py:56-58 | appending `.pdf` to a sanitised name adds only characters of `[\w\-\. ]` |
| FileNames.SavedFileName | auction_scraper.py:56-58 | the saved file name ends in `.pdf`, is 4 to 184 characters, holds only kept characters, and starts with the sanitised hint (or the sanitised URL name when there is no hint) |
| Comprehensions.Filter | auction_scraper.py:119 | a filtering comprehension keeps only elements that pass the test, and every element that passes it |
| Comprehensions.FilterConcat | auction_scraper.py:138 | filtering a concatenation gives the concatenation of the filtered parts, so order and repeats are kept |
| FirstOccurrence.KeepFirstLength | auction_scraper.py:194-199 | the seen-set loop never returns more elements than it was given |
| FirstOccurrence.KeepFirstSelectsFirstPositions | auction_scraper.py:194-199 | the seen-set loop returns, in input order, exactly the elements at the positions where an acceptable element's key appears for the first time |
| FirstOccurrence.KeepFirstAccepts | auction_scraper.py:197 | every kept element passes the acceptance test |
| FirstOccurrence.KeepFirstDistinctKeys | auction_scraper.py:196-199 | no two kept elements share a key |
| FirstOccurrence.KeepFirstKeepsFirsts | auction_scraper.py:194-199 | the first acceptable element of every key is kept |
| FirstOccurrence.KeepFirstOnlyFirsts | auction_scraper.py:194-199 | every kept element is the first acceptable element of its key |
| FirstOccurrence.KeepFirstCovers | auction_scraper.py:194-199 | every acceptable input element has a kept element with its key |
| FirstOccurrence.KeepFirstAppend | auction_scraper.py:80-84 | walking `s + t` begins with the walk of `s` unchanged; every later element comes from `t` with a key not seen in `s` |
| FirstOccurrence.KeepFirstFilter | auction_scraper.py:194-199 | when elements with equal keys agree on a test, deduplicating and then filtering by that test equals filtering and then deduplicating |
| FirstOccurrence.Distinct | auction_scraper.py:124 | `dict.fromkeys` never returns more keys than it was given |
| FirstOccurrence.DistinctProperties | auction_scraper.py:124 | `dict.fromkeys` keeps no duplicates, holds exactly the elements of its input, and lists them in the order of their first occurrences |
| Addresses.CollapseBlanks | auction_scraper.py:77 | the first substitution never lengthens the text |
| Addresses.CollapseRun | auction_scraper.py:77 | a non-empty run of spaces and tabs becomes exactly one space |
| Addresses.CollapseNoBlanks | auction_scraper.py:77 | text without spaces or tabs is left unchanged |
| Addresses.CollapseConcat | auction_scraper.py:77 | the substitution works piecewise on any split that does not cut a run of spaces and tabs |
| Addresses.CollapseProperties | auction_scraper.py:77 | after the first substitution there is no tab and no two adjacent spaces; only the empty text gives the empty text |
| Addresses.RemoveCR | auction_scraper.py:78 | the second substitution never lengthens the text and leaves no `\r` |
| Addresses.RemoveCRProperties | auction_scraper.py:78 | the second substitution keeps every character except `\r`, and no `\r` is left |
| Addresses.RemoveCRConcat | auction_scraper.py:78 | the second substitution works piecewise: removing `\r` from `a + b` gives the result for `a` followed by the result for `b` |
| Addresses.RemoveCRNoCR | auction_scraper.py:78 | text without `\r` is left unchanged |
| Addresses.Normalise | auction_scraper.py:77-78 | the two substitutions together never lengthen the text and leave no `\r` |
| Addresses.NormaliseRemovesTabsAndCR | auction_scraper.py:77-78 | the normalised text holds no tab and no carriage return |
| Addresses.NormaliseCanLeaveDoubleSpace | auction_scraper.py:77-78 | removing `\r` after collapsing can leave two adjacent spaces: `" \r "` normalises to two spaces |
| Addresses.AddressesIn | auction_scraper.py:76-85 | every address `find_addresses_in_text` returns has at least 8 characters |
| Addresses.FindAddresses | auction_scraper.py:76-85 | the nested loop returns the first-occurrence walk over the stripped matches of both tiers, keeping those of at least 8 characters |
| Addresses.CollectMatches | auction_scraper.py:81-84 | the inner loop over one tier's matches extends the walk by that tier's stripped matches |
| Addresses.AllCandidates | auction_scraper.py:80-82 | the candidates are all the stripped labelled matches, then all the stripped bare matches |
| Addresses.AddressesAreLongMatches | auction_scraper.py:80-83 | every returned address is at least 8 characters and is the stripped form of a match of one of the tiers |
| Addresses.AddressesLong | auction_scraper.py:83 | every returned address is at least 8 characters long |
| Addresses.AddressesDistinct | auction_scraper.py:83 | the result has no duplicates |
| Addresses.CandidateIndex | auction_scraper.py:80-82 | the stripped `j`-th match of either tier is one of the candidates |
| Addresses.AddressesComplete | auction_scraper.py:80-84 | every match whose stripped form has at least 8 characters is in the result |
| Addresses.LabelledBeforeBare | auction_scraper.py:80-84 | the labelled tier's addresses form a prefix of the result; every later address is a bare match the labelled tier did not already give |
| Addresses.AddressesInFirstOccurrenceOrder | auction_scraper.py:79-85 | the result lists, in order, the candidates at the positions where a long candidate first appears |
| Parsers.Then | auction_scraper.py:114-116 | a step that raises ends the run with that exception; a second step that raises after a first that did not ends it with the second step's exception; otherwise the rows of both steps are concatenated |
| Parsers.SequenceRaisedSticky | auction_scraper.py:114-116 | once an exception has been raised, later turns change nothing |
| Parsers.SequenceRaised | auction_scraper.py:114-116 | a loop ends in an exception exactly when one of its steps raises |
| Parsers.SequenceRaisedBy | auction_scraper.py:114-116 | the exception that ends a loop is the one raised by its first raising step: every earlier step returned rows |
| Parsers.SequenceRowsFrom | auction_scraper.py:114-130 | if every step's rows have the county, a listed source and long addresses, so do the rows the loop collects |
| Parsers.RowsForAt | auction_scraper.py:143-149 | row `i` holds address `i` with the given county and source |
| Parsers.AppendRows | auction_scraper.py:158-164 | the append loop adds one row per address, in order, after the existing rows |
| Parsers.DownloadPdf | auction_scraper.py:52-65 | a file is saved exactly when the fetch returns and `raise_for_status` does not raise; it holds the response body, and its name is the suffix rule applied to the sanitised hint (or URL name), so it ends in `.pdf` and has 4 to 184 characters |
| Parsers.ExtractAddressesFromPdf | auction_scraper.py:87-97 | the loop joins `"\n" + text` of every page and returns the addresses of that text; an unreadable file gives none; every address has at least 8 characters |
| Parsers.ReadPdfLink | auction_scraper.py:140-142 | download, then read the file when one was saved; every address has at least 8 characters |
| Parsers.PdfAddressesAtLong | auction_scraper.py:121-123 | a PDF link contributes only addresses of at least 8 characters |
| Parsers.CollectPdfRows | auction_scraper.py:138-149 | the PDF loop appends, link after link, one row per address of each PDF, with the joined link as source |
| Parsers.ParsePdfListing | auction_scraper.py:133-150 | it returns the rows of all PDFs linked from the page, in link order; with the URL helpers taken as total, it raises exactly when the fetch of the listing page raises, because PDF downloads and PDF reading catch their own errors; status 400 or more gives no rows |
| Parsers.PdfLinkRowsSources | auction_scraper.py:138-149 | every row of the PDF loop has the county, one of the joined PDF links as source, and an address of at least 8 characters that was read from the PDF named as its source |
| Parsers.PdfLinkRowsAddresses | auction_scraper.py:143-148 | every row's address is one of the addresses of the PDF named as its source |
| Parsers.GenericPage | auction_scraper.py:152-176 | it returns the page's own address rows, then the PDF rows; it raises exactly when the fetch of the page raises; status 400 or more gives no rows |
| Parsers.GenericHtmlBeforePdf | auction_scraper.py:157-176 | the page's own addresses come first, in order, with the page as source; every later row comes from one of the page's PDF links |
| Parsers.CollectAuctionLinks | auction_scraper.py:109-113 | the loop builds the link set `AuctionLinks` that `AuctionLinksMembers` characterises |
| Parsers.AuctionLinksMembers | auction_scraper.py:109-113 | a URL is in the link set exactly when it is `urljoin(url, href)` for some `href` of the page that contains `/auction-` |
| Parsers.CollectPdfAddresses | auction_scraper.py:119-123 | the addresses of the detail page's PDFs are appended PDF after PDF |
| Parsers.DetailPageRows | auction_scraper.py:115-130 | with the URL helpers taken as total, a detail page raises exactly when its fetch raises, and the exception names that page |
| Parsers.PageAddressesLong | auction_scraper.py:118-123 | every address of a detail page, from its text or its PDFs, has at least 8 characters |
| Parsers.PulaskiPageRows | auction_scraper.py:124-130 | a readable detail page gives one row per distinct address found on it or in its PDFs, each with the county and the page as source, in the order of the addresses' first occurrences; no address repeats and none is missed |
| Parsers.ParsePulaski | auction_scraper.py:104-131 | it visits the detail links in the given order of the set and returns their rows; a raising notice-page fetch propagates; status 400 or more gives no rows |
| Parsers.DetailRowsRaised | auction_scraper.py:114-116 | the Pulaski parser is aborted exactly when the fetch of one of the detail pages raises |
| Parsers.DetailRowsRaisedAt | auction_scraper.py:114-116 | the exception that aborts it names a visited detail page whose fetch raised, and it is the first such page in the visiting order |
| Parsers.DetailRowsSources | auction_scraper.py:114-130 | every Pulaski row has the county, a visited detail page as source, and an address of at least 8 characters |
| Scrape.ChooseStrategy | auction_scraper.py:186-192 | a host with `pulaskiclerkar.gov` goes to the Pulaski parser; otherwise a host with the Sebastian or Crawford domain goes to the PDF listing; everything else goes to the generic page |
| Scrape.PulaskiHostDispatch | auction_scraper.py:187-188 | the Pulaski host goes to the Pulaski parser |
| Scrape.SebastianHostDispatch | auction_scraper.py:189-190 | the Sebastian host goes to the PDF-listing parser |
| Scrape.CrawfordHostDispatch | auction_scraper.py:189-190 | the Crawford host goes to the PDF-listing parser |
| Scrape.GenericHostsDispatch | auction_scraper.py:191-192 | the Benton and Washington hosts match no test and go to the generic parser |
| Scrape.CountySitesDispatch | auction_scraper.py:15-21 | given the configured sites' hosts, the five counties go in order to Pulaski, PDF listing, PDF listing, generic and generic |
| Scrape.RunSite | auction_scraper.py:186-192 | one turn of the site loop runs the parser the host selects |
| Scrape.Deduplicated | auction_scraper.py:194-199 | the final pass never returns more records than it was given, and none with an empty address |
| Scrape.DedupRecords | auction_scraper.py:194-199 | the deduplication loop with its `seen` set returns the first-occurrence walk keyed by county and lower-cased address |
| Scrape.Scrape | auction_scraper.py:179-200 | the run extends the results site by site, stops at the first exception, and deduplicates |
| Scrape.DedupHasAddresses | auction_scraper.py:197 | no returned record has an empty address |
| Scrape.DedupUniqueKeys | auction_scraper.py:196-199 | no two returned records share a county and an address up to case |
| Scrape.DedupKeepsFirstOccurrences | auction_scraper.py:194-199 | the returned records are, in order, the records where a key first appears; the result is a subsequence and the first occurrence wins |
| Scrape.DedupCovers | auction_scraper.py:194-199 | every record with an address is represented by a returned record of its county with the same address up to case |
| Scrape.DedupPerCounty | auction_scraper.py:196 | deduplication works per county: a county's returned records are what it would keep on its own |
| Scrape.AllSiteRowsRaised | auction_scraper.py:185-192 | the run ends in an exception exactly when one of the sites' parsers raises |
| Scrape.AllSiteRowsRaisedFirst | auction_scraper.py:185-192 | that exception is the one of the first site whose parser raises: every earlier site returned rows |
| Scrape.PulaskiRowsLong | auction_scraper.py:104-131 | the Pulaski parser's rows have the county and addresses of at least 8 characters |
| Scrape.PdfListingRowsLong | auction_scraper.py:133-150 | the PDF-listing parser's rows have the county and addresses of at least 8 characters |
| Scrape.GenericRowsLong | auction_scraper.py:152-176 | the generic parser's rows have the county and addresses of at least 8 characters |
| Scrape.SiteRowsLong | auction_scraper.py:186-192 | whichever parser a site gets, its rows have the site's county and addresses of at least 8 characters |
| Scrape.AllSiteRowsHaveAddresses | auction_scraper.py:194-197 | every collected row has an address, so the `if r["address"]` test never drops a parser's row |

## Left out

- HTTP is the parameter `Web.get`. `make_session`, retries, timeouts and headers are left out. A fetch that raises is `Unreachable`.
- HTML parsing (`BeautifulSoup`, `get_text`, the CSS selectors) is the parameters `pageText` and `hrefs`. Only the `$=".pdf"` suffix test is modelled (`Parsers.IsPdfHref`).
- PDF decoding is the parameter `pdfPages`. Any exception inside `extract_addresses_from_pdf` is modelled as `None`, which gives no addresses. Its `print` is left out.
- The regular expressions of `ADDR_REGEXES` are the parameter `finditer`. The model takes the matches' `group(1)` as given and does not check what they match.
- `urlparse`, `urljoin`, `unquote` and `pathlib.Path(...).name` are the parameters `netloc`, `urljoin`, `unquote` and `urlName`. They are total functions. So a `ValueError` these helpers raise on a malformed `href` (such as `http://[x/a.pdf`) outside any `try` is not modelled. The calls are at `auction_scraper.py:113`, `auction_scraper.py:119`, `auction_scraper.py:121`, `auction_scraper.py:139-140`, `auction_scraper.py:166-167` and `auction_scraper.py:186`. In the program such an error ends the whole run, like a raising fetch.
- File-system effects (`ensure_dir`, `os.path.join`, writing the PDF) are assumed to succeed. A write that fails, which `download_pdf` would turn into `""`, is not modelled.
- The `maps` column (`quote(addr)`) is left out. No property depends on it.
- Characters are ASCII: `\w`, `str.isspace` and `str.lower` are modelled on ASCII only.
- `Addresses.CollapseBlanks` is a character-by-character form of `re.sub(r"[ \t]+", " ", ...)`. `CollapseRun`, `CollapseNoBlanks` and `CollapseConcat` show that it agrees with the regex on runs, on text without blanks, and on concatenation.
- `save_csv`, `save_html`, the date-stamped output directory and the command-line entry point are left out. They are output only.
- Parsers.ParsePulaski: Python's set iteration order is not modelled. The caller supplies it as `order`, and the results hold for every order that lists each link once.
