/**
 * The three site parsers (`parse_pulaski`, `parse_pdf_listing`,
 * `generic_page`) and the PDF helpers they share (`download_pdf`,
 * `extract_addresses_from_pdf`), over an abstract web: which pages are
 * fetched, which links are followed and which rows come out in which order.
 */
module Parsers {
  import opened Strings
  import opened FirstOccurrence
  import opened FileNames
  import opened Addresses
  import opened Comprehensions

  datatype Option<+T> = None | Some(value: T)

  /** What `sess.get(url)` gives: a response, or an exception (connection error, timeout, retries used up). */
  datatype Response = Response(status: int, body: string) | Unreachable

  /**
   * The outside world and the libraries the parsers call, as parameters:
   * `get` is the HTTP session; `pageText` is `BeautifulSoup(body).get_text("\n", strip=True)`;
   * `hrefs` lists the `href` of every `<a href>` of a page in document order;
   * `pdfPages` is pdfplumber on a saved file (`None` when it raises, a page
   * whose `extract_text()` is `None` as `None`); `urljoin`, `netloc`
   * (`urlparse(u).netloc`), `urlName` (`pathlib.Path(urlparse(u).path).name`)
   * and `unquote` are the URL helpers; `finditer` is the regex engine.
   */
  datatype Web = Web(
    get: string -> Response,
    pageText: string -> string,
    hrefs: string -> seq<string>,
    pdfPages: string -> Option<seq<Option<string>>>,
    urljoin: (string, string) -> string,
    netloc: string -> string,
    urlName: string -> string,
    unquote: string -> string,
    finditer: Matcher)

  /** One result record: county, address and the page or PDF it was found on. */
  datatype Row = Row(county: string, address: string, source: string)

  /** What a parser gives: its rows, or the exception of a `get` it does not catch. */
  datatype Outcome = Rows(rows: seq<Row>) | Raised(url: string)

  /** A PDF written to disk by `download_pdf`: its file name and its bytes. */
  datatype SavedPdf = SavedPdf(name: string, content: string)

  /** The parsers' own check `status_code >= 400`. */
  predicate IsErrorStatus(status: int)
  {
    status >= 400
  }

  /** `raise_for_status()` raises for client and server errors only. */
  predicate RaisesForStatus(status: int)
  {
    400 <= status < 600
  }

  /** One step after another: the first exception ends the run, otherwise the rows accumulate. */
  function Then(a: Outcome, b: Outcome): (r: Outcome)
    ensures r.Raised? <==> a.Raised? || b.Raised?
    ensures a.Raised? ==> r == a
    ensures !a.Raised? && b.Raised? ==> r == b
    ensures r.Rows? ==> r.rows == a.rows + b.rows
  {
    if a.Raised? then a else if b.Raised? then b else Rows(a.rows + b.rows)
  }

  /** A loop that extends its rows with each outcome in turn; the first exception ends it. */
  function Sequence(os: seq<Outcome>): Outcome
  {
    if os == [] then Rows([]) else Then(Sequence(os[..|os| - 1]), os[|os| - 1])
  }

  /** One more turn of the loop. */
  lemma SequenceStep(os: seq<Outcome>, i: nat)
    requires i < |os|
    ensures Sequence(os[..i + 1]) == Then(Sequence(os[..i]), os[i])
  {
    assert os[..i + 1][..i] == os[..i];
  }

  /** Once an exception is raised, later outcomes change nothing. */
  lemma {:induction false} SequenceRaisedSticky(os: seq<Outcome>, i: nat)
    requires i <= |os|
    requires Sequence(os[..i]).Raised?
    ensures Sequence(os) == Sequence(os[..i])
    decreases |os|
  {
    if i == |os| {
      assert os[..i] == os;
    } else {
      var n := |os| - 1;
      assert os[..n][..i] == os[..i];
      SequenceRaisedSticky(os[..n], i);
    }
  }

  /** The loop ends in an exception exactly when one of the outcomes is one. */
  lemma {:induction false} SequenceRaised(os: seq<Outcome>)
    ensures Sequence(os).Raised? <==> exists i :: 0 <= i < |os| && os[i].Raised?
  {
    if os != [] {
      var n := |os| - 1;
      SequenceRaised(os[..n]);
      if exists i :: 0 <= i < n && os[..n][i].Raised? {
        var i :| 0 <= i < n && os[..n][i].Raised?;
        assert os[i] == os[..n][i];
      }
      if exists i :: 0 <= i < |os| && os[i].Raised? {
        var i :| 0 <= i < |os| && os[i].Raised?;
        if i < n {
          assert os[..n][i] == os[i];
        }
      }
    }
  }

  /** The exception that ends the loop is that of the first outcome that is an exception. */
  lemma {:induction false} SequenceRaisedBy(os: seq<Outcome>)
    ensures Sequence(os).Raised? ==>
              exists i :: 0 <= i < |os| && os[i] == Sequence(os) && forall j :: 0 <= j < i ==> os[j].Rows?
  {
    if os != [] {
      var n := |os| - 1;
      var init := os[..n];
      SequenceRaisedBy(init);
      if Sequence(init).Raised? {
        var i :| 0 <= i < n && init[i] == Sequence(init) && forall j :: 0 <= j < i ==> init[j].Rows?;
        assert os[i] == init[i];
        forall j | 0 <= j < i ensures os[j].Rows? {
          assert os[j] == init[j];
        }
      } else if os[n].Raised? {
        SequenceRaised(init);
        forall j | 0 <= j < n ensures os[j].Rows? {
          assert os[j] == init[j];
        }
      }
    }
  }

  /** The rows `{"county": county, "address": addr, "source": source}` for each address, in order. */
  function RowsFor(county: string, addrs: seq<string>, source: string): (r: seq<Row>)
    ensures |r| == |addrs|
  {
    if addrs == [] then []
    else RowsFor(county, addrs[..|addrs| - 1], source) + [Row(county, addrs[|addrs| - 1], source)]
  }

  /** Row `i` carries address `i`, with the given county and source. */
  lemma {:induction false} RowsForAt(county: string, addrs: seq<string>, source: string)
    ensures var r := RowsFor(county, addrs, source);
            forall i :: 0 <= i < |r| ==> r[i] == Row(county, addrs[i], source)
  {
    if addrs != [] {
      var init := addrs[..|addrs| - 1];
      RowsForAt(county, init, source);
      var r := RowsFor(county, addrs, source);
      forall i | 0 <= i < |r| ensures r[i] == Row(county, addrs[i], source) {
        if i < |init| {
          assert r[i] == RowsFor(county, init, source)[i];
        }
      }
    }
  }

  /** The `for addr in addresses: out.append(...)` loop every parser has. */
  method AppendRows(out: seq<Row>, county: string, addrs: seq<string>, source: string) returns (res: seq<Row>)
    ensures res == out + RowsFor(county, addrs, source)
  {
    res := out;
    for i := 0 to |addrs|
      invariant res == out + RowsFor(county, addrs[..i], source)
    {
      res := res + [Row(county, addrs[i], source)];
      assert addrs[..i + 1][..i] == addrs[..i];
    }
    assert addrs[..|addrs|] == addrs;
  }

  /** The `hint` every parser passes to `download_pdf`: `f"{county} - {name}"`. */
  function PdfHint(county: string, name: string): string
  {
    county + " - " + name
  }

  /**
   * `download_pdf`: fetch, `raise_for_status`, name the file and write it.
   * Every exception is caught, so the result is "nothing saved" rather than
   * an exception.
   */
  function DownloadPdf(web: Web, url: string, hint: string): (r: Option<SavedPdf>)
    ensures r.Some? <==> web.get(url).Response? && !RaisesForStatus(web.get(url).status)
    ensures r.Some? ==> r.value.content == web.get(url).body
    ensures r.Some? ==> EndsWithPdf(r.value.name) && 4 <= |r.value.name| <= MaxNameLength + 4
    ensures r.Some? ==> r.value.name == SavedFileName(hint, web.unquote(web.urlName(url)))
  {
    match web.get(url)
    case Unreachable => None
    case Response(status, body) =>
      if RaisesForStatus(status) then None
      else Some(SavedPdf(SavedFileName(hint, web.unquote(web.urlName(url))), body))
  }

  /** `page.extract_text() or ""`. */
  function PageText(page: Option<string>): string
  {
    match page
    case None => ""
    case Some(t) => t
  }

  /** The text `extract_addresses_from_pdf` builds: `"\n" + text` for each page, in page order. */
  function JoinPages(pages: seq<Option<string>>): string
  {
    if pages == [] then ""
    else JoinPages(pages[..|pages| - 1]) + "\n" + PageText(pages[|pages| - 1])
  }

  /** What `extract_addresses_from_pdf` returns for the content of a saved file. */
  function PdfAddresses(web: Web, content: string): seq<string>
  {
    match web.pdfPages(content)
    case None => []
    case Some(pages) => AddressesIn(web.finditer, JoinPages(pages))
  }

  /** `extract_addresses_from_pdf`: join the page texts, then `find_addresses_in_text`; a file pdfplumber cannot read gives nothing. */
  method ExtractAddressesFromPdf(web: Web, content: string) returns (addrs: seq<string>)
    ensures addrs == PdfAddresses(web, content)
    ensures web.pdfPages(content).None? ==> addrs == []
    ensures forall a :: a in addrs ==> |a| >= MinAddressLength
  {
    match web.pdfPages(content)
    case None =>
      addrs := [];
    case Some(pages) =>
      var txt := "";
      for i := 0 to |pages|
        invariant txt == JoinPages(pages[..i])
      {
        txt := txt + "\n" + PageText(pages[i]);
        assert pages[..i + 1][..i] == pages[..i];
      }
      assert pages[..|pages|] == pages;
      addrs := FindAddresses(txt, web.finditer);
      AddressesLong(web.finditer, txt);
  }

  /** The addresses one PDF link contributes: download it, then read it; nothing when the download fails. */
  function PdfAddressesAt(web: Web, county: string, purl: string): seq<string>
  {
    match DownloadPdf(web, purl, PdfHint(county, web.urlName(purl)))
    case None => []
    case Some(saved) => PdfAddresses(web, saved.content)
  }

  /** The selector `a[href$=".pdf"]`: the link ends with `.pdf`, case-sensitively. */
  predicate IsPdfHref(href: string)
  {
    EndsWith(href, ".pdf")
  }

  /** The `href`s the selector `a[href$=".pdf"]` picks, in document order. */
  function PdfHrefs(hrefs: seq<string>): seq<string>
  {
    Filter(hrefs, IsPdfHref)
  }

  /** The rows the PDF loop of `parse_pdf_listing` and `generic_page` appends for the links `hrefs` of the page `base`. */
  function PdfLinkRows(web: Web, county: string, base: string, hrefs: seq<string>): seq<Row>
  {
    if hrefs == [] then []
    else
      var full := web.urljoin(base, hrefs[|hrefs| - 1]);
      PdfLinkRows(web, county, base, hrefs[..|hrefs| - 1]) + RowsFor(county, PdfAddressesAt(web, county, full), full)
  }

  /** `saved = download_pdf(...)` then, when something was saved, `extract_addresses_from_pdf(saved)`. */
  method ReadPdfLink(web: Web, county: string, purl: string) returns (addrs: seq<string>)
    ensures addrs == PdfAddressesAt(web, county, purl)
    ensures forall a :: a in addrs ==> |a| >= MinAddressLength
  {
    var saved := DownloadPdf(web, purl, PdfHint(county, web.urlName(purl)));
    addrs := [];
    if saved.Some? {
      addrs := ExtractAddressesFromPdf(web, saved.value.content);
    }
    PdfAddressesAtLong(web, county, purl);
  }

  /** One more PDF link of the listing loop. */
  lemma PdfLinkRowsStep(web: Web, county: string, base: string, links: seq<string>, i: nat, out: seq<Row>)
    requires i < |links|
    ensures var full := web.urljoin(base, links[i]);
            out + PdfLinkRows(web, county, base, links[..i + 1]) ==
            (out + PdfLinkRows(web, county, base, links[..i])) + RowsFor(county, PdfAddressesAt(web, county, full), full)
  {
    var full := web.urljoin(base, links[i]);
    var p := links[..i + 1];
    assert p[..i] == links[..i];
    var tail := RowsFor(county, PdfAddressesAt(web, county, full), full);
    assert PdfLinkRows(web, county, base, p) == PdfLinkRows(web, county, base, links[..i]) + tail;
  }

  /** The loop over `a[href$=".pdf"]`: join, download, read and append one row per address with the PDF as source. */
  method CollectPdfRows(web: Web, county: string, base: string, links: seq<string>, out: seq<Row>) returns (res: seq<Row>)
    ensures res == out + PdfLinkRows(web, county, base, links)
  {
    res := out;
    for i := 0 to |links|
      invariant res == out + PdfLinkRows(web, county, base, links[..i])
    {
      var full := web.urljoin(base, links[i]);
      var addrs := ReadPdfLink(web, county, full);
      PdfLinkRowsStep(web, county, base, links, i, out);
      res := AppendRows(res, county, addrs, full);
    }
    assert links[..|links|] == links;
  }

  /** What `parse_pdf_listing(url, county)` gives. */
  function PdfListingRows(web: Web, url: string, county: string): Outcome
  {
    match web.get(url)
    case Unreachable => Raised(url)
    case Response(status, body) =>
      if IsErrorStatus(status) then Rows([])
      else Rows(PdfLinkRows(web, county, url, PdfHrefs(web.hrefs(body))))
  }

  /** `parse_pdf_listing`: every PDF linked from the page, read in link order. */
  method ParsePdfListing(web: Web, url: string, county: string) returns (out: Outcome)
    ensures out == PdfListingRows(web, url, county)
    ensures web.get(url).Unreachable? <==> out.Raised?
    ensures web.get(url).Response? && IsErrorStatus(web.get(url).status) ==> out == Rows([])
  {
    var r := web.get(url);
    if r.Unreachable? {
      return Raised(url);
    }
    if IsErrorStatus(r.status) {
      return Rows([]);
    }
    var rows := CollectPdfRows(web, county, url, PdfHrefs(web.hrefs(r.body)), []);
    assert [] + PdfLinkRows(web, county, url, PdfHrefs(web.hrefs(r.body))) == rows;
    out := Rows(rows);
  }

  /** What `generic_page(url, county)` gives: the page's own addresses first, then those of its PDFs. */
  function GenericPageRows(web: Web, url: string, county: string): Outcome
  {
    match web.get(url)
    case Unreachable => Raised(url)
    case Response(status, body) =>
      if IsErrorStatus(status) then Rows([])
      else Rows(RowsFor(county, AddressesIn(web.finditer, web.pageText(body)), url) +
                PdfLinkRows(web, county, url, PdfHrefs(web.hrefs(body))))
  }

  /** `generic_page`: addresses in the page text, then the PDF loop. */
  method GenericPage(web: Web, url: string, county: string) returns (out: Outcome)
    ensures out == GenericPageRows(web, url, county)
    ensures web.get(url).Unreachable? <==> out.Raised?
    ensures web.get(url).Response? && IsErrorStatus(web.get(url).status) ==> out == Rows([])
  {
    var r := web.get(url);
    if r.Unreachable? {
      return Raised(url);
    }
    if IsErrorStatus(r.status) {
      return Rows([]);
    }
    var addrs := FindAddresses(web.pageText(r.body), web.finditer);
    var rows := AppendRows([], county, addrs, url);
    assert rows == RowsFor(county, addrs, url) by {
      assert [] + RowsFor(county, addrs, url) == RowsFor(county, addrs, url);
    }
    rows := CollectPdfRows(web, county, url, PdfHrefs(web.hrefs(r.body)), rows);
    out := Rows(rows);
  }

  /** The Pulaski filter `"/auction-" in href`. */
  predicate IsAuctionHref(href: string)
  {
    Contains(href, "/auction-")
  }

  /** The set `links` that `parse_pulaski` builds from the `href`s of the notice page `url`. */
  function AuctionLinks(web: Web, url: string, hrefs: seq<string>): set<string>
  {
    if hrefs == [] then {}
    else
      var h := hrefs[|hrefs| - 1];
      AuctionLinks(web, url, hrefs[..|hrefs| - 1]) + (if IsAuctionHref(h) then {web.urljoin(url, h)} else {})
  }

  /** The link set holds exactly the joined URLs of the `href`s that contain `/auction-`. */
  lemma {:induction false} AuctionLinksMembers(web: Web, url: string, hrefs: seq<string>)
    ensures forall x :: x in AuctionLinks(web, url, hrefs) <==>
              exists i :: 0 <= i < |hrefs| && IsAuctionHref(hrefs[i]) && x == web.urljoin(url, hrefs[i])
  {
    if hrefs != [] {
      var init := hrefs[..|hrefs| - 1];
      var h := hrefs[|hrefs| - 1];
      AuctionLinksMembers(web, url, init);
      forall x | x in AuctionLinks(web, url, hrefs)
        ensures exists i :: 0 <= i < |hrefs| && IsAuctionHref(hrefs[i]) && x == web.urljoin(url, hrefs[i])
      {
        if x !in AuctionLinks(web, url, init) {
          assert hrefs[|hrefs| - 1] == h;
        } else {
          var i :| 0 <= i < |init| && IsAuctionHref(init[i]) && x == web.urljoin(url, init[i]);
          assert hrefs[i] == init[i];
        }
      }
      forall x | exists i :: 0 <= i < |hrefs| && IsAuctionHref(hrefs[i]) && x == web.urljoin(url, hrefs[i])
        ensures x in AuctionLinks(web, url, hrefs)
      {
        var i :| 0 <= i < |hrefs| && IsAuctionHref(hrefs[i]) && x == web.urljoin(url, hrefs[i]);
        if i < |init| {
          assert init[i] == hrefs[i];
        }
      }
    }
  }

  /** The detail links of the Pulaski notice page, as fetched; none when the fetch raises. */
  function DetailLinks(web: Web, url: string): set<string>
  {
    match web.get(url)
    case Unreachable => {}
    case Response(_, body) => AuctionLinks(web, url, web.hrefs(body))
  }

  /** The loop that adds `urljoin(url, href)` to `links` for each auction `href`. */
  method CollectAuctionLinks(web: Web, url: string, hrefs: seq<string>) returns (links: set<string>)
    ensures links == AuctionLinks(web, url, hrefs)
  {
    links := {};
    for i := 0 to |hrefs|
      invariant links == AuctionLinks(web, url, hrefs[..i])
    {
      if IsAuctionHref(hrefs[i]) {
        links := links + {web.urljoin(url, hrefs[i])};
      }
      assert hrefs[..i + 1][..i] == hrefs[..i];
    }
    assert hrefs[..|hrefs|] == hrefs;
  }

  /** `order` lists every element of `links` exactly once: one possible iteration order of a Python set. */
  predicate Enumerates(order: seq<string>, links: set<string>)
  {
    (forall i, j :: 0 <= i < j < |order| ==> order[i] != order[j]) &&
    (forall x :: x in links ==> x in order) &&
    (forall i :: 0 <= i < |order| ==> order[i] in links)
  }

  /** `[urljoin(base, h) for h in hrefs]`. */
  function JoinAll(web: Web, base: string, hrefs: seq<string>): (r: seq<string>)
    ensures |r| == |hrefs|
  {
    if hrefs == [] then []
    else JoinAll(web, base, hrefs[..|hrefs| - 1]) + [web.urljoin(base, hrefs[|hrefs| - 1])]
  }

  /** The addresses the PDF loop of a Pulaski detail page adds, PDF after PDF. */
  function PdfAddressList(web: Web, county: string, purls: seq<string>): seq<string>
  {
    if purls == [] then []
    else PdfAddressList(web, county, purls[..|purls| - 1]) + PdfAddressesAt(web, county, purls[|purls| - 1])
  }

  /** One more PDF of a detail page. */
  lemma PdfAddressListStep(web: Web, county: string, purls: seq<string>, i: nat, addrs: seq<string>)
    requires i < |purls|
    ensures addrs + PdfAddressList(web, county, purls[..i + 1]) ==
            (addrs + PdfAddressList(web, county, purls[..i])) + PdfAddressesAt(web, county, purls[i])
  {
    assert purls[..i + 1][..i] == purls[..i];
  }

  /** `addresses += extract_addresses_from_pdf(saved)` for each PDF that was saved. */
  method CollectPdfAddresses(web: Web, county: string, purls: seq<string>, addrs: seq<string>) returns (res: seq<string>)
    ensures res == addrs + PdfAddressList(web, county, purls)
  {
    res := addrs;
    for i := 0 to |purls|
      invariant res == addrs + PdfAddressList(web, county, purls[..i])
    {
      var more := ReadPdfLink(web, county, purls[i]);
      PdfAddressListStep(web, county, purls, i, addrs);
      res := res + more;
    }
    assert purls[..|purls|] == purls;
  }

  /** All addresses of a Pulaski detail page: those of its text, then those of its PDFs, duplicates included. */
  function PageAddresses(web: Web, county: string, href: string, body: string): seq<string>
  {
    AddressesIn(web.finditer, web.pageText(body)) +
    PdfAddressList(web, county, JoinAll(web, href, PdfHrefs(web.hrefs(body))))
  }

  /** The rows one Pulaski detail page gives: one per distinct address, with the page as source. */
  function DetailPageRows(web: Web, county: string, href: string): (r: Outcome)
    ensures r.Raised? <==> web.get(href).Unreachable?
    ensures r.Raised? ==> r.url == href
  {
    match web.get(href)
    case Unreachable => Raised(href)
    case Response(status, body) =>
      if IsErrorStatus(status) then Rows([])
      else Rows(RowsFor(county, Distinct(PageAddresses(web, county, href, body)), href))
  }

  /** The outcome of each detail page, in `order`. */
  function PageOutcomes(web: Web, county: string, order: seq<string>): seq<Outcome>
  {
    seq(|order|, i requires 0 <= i < |order| => DetailPageRows(web, county, order[i]))
  }

  /** The detail pages visited in `order`, one after another. */
  function DetailRows(web: Web, county: string, order: seq<string>): Outcome
  {
    Sequence(PageOutcomes(web, county, order))
  }

  /** What `parse_pulaski(url, county)` gives when the set of detail links is iterated in `order`. */
  function PulaskiRows(web: Web, url: string, county: string, order: seq<string>): Outcome
  {
    match web.get(url)
    case Unreachable => Raised(url)
    case Response(status, _) =>
      if IsErrorStatus(status) then Rows([]) else DetailRows(web, county, order)
  }

  /**
   * `parse_pulaski`: fetch the notice page, collect the auction links, then
   * visit each detail page. `order` is the order in which the set of links is
   * walked, which Python leaves unspecified.
   */
  method ParsePulaski(web: Web, url: string, county: string, order: seq<string>) returns (out: Outcome)
    requires Enumerates(order, DetailLinks(web, url))
    ensures out == PulaskiRows(web, url, county, order)
    ensures web.get(url).Unreachable? ==> out == Raised(url)
    ensures web.get(url).Response? && IsErrorStatus(web.get(url).status) ==> out == Rows([])
  {
    var r := web.get(url);
    if r.Unreachable? {
      return Raised(url);
    }
    if IsErrorStatus(r.status) {
      return Rows([]);
    }
    var links := CollectAuctionLinks(web, url, web.hrefs(r.body));
    assert forall h :: h in links <==> h in order;
    ghost var os := PageOutcomes(web, county, order);
    var rows := [];
    for i := 0 to |order|
      invariant Sequence(os[..i]) == Rows(rows)
    {
      var href := order[i];
      SequenceStep(os, i);
      var d := web.get(href);
      if d.Unreachable? {
        SequenceRaisedSticky(os, i + 1);
        return Raised(href);
      }
      if IsErrorStatus(d.status) {
        assert rows + [] == rows;
        continue;
      }
      var addresses := FindAddresses(web.pageText(d.body), web.finditer);
      var pdfs := JoinAll(web, href, PdfHrefs(web.hrefs(d.body)));
      addresses := CollectPdfAddresses(web, county, pdfs, addresses);
      rows := AppendRows(rows, county, Distinct(addresses), href);
    }
    assert os[..|order|] == os;
    out := Rows(rows);
  }

  /** A PDF link contributes only addresses of at least 8 characters. */
  lemma PdfAddressesAtLong(web: Web, county: string, purl: string)
    ensures forall a :: a in PdfAddressesAt(web, county, purl) ==> |a| >= MinAddressLength
  {
    match DownloadPdf(web, purl, PdfHint(county, web.urlName(purl)))
    case None =>
    case Some(saved) =>
      match web.pdfPages(saved.content)
      case None =>
      case Some(pages) => AddressesLong(web.finditer, JoinPages(pages));
  }

  /** Every row names `county`, one of `sources` as its source, and an address of at least 8 characters. */
  ghost predicate RowsFrom(rs: seq<Row>, county: string, sources: seq<string>)
  {
    forall i :: 0 <= i < |rs| ==>
      rs[i].county == county && rs[i].source in sources && |rs[i].address| >= MinAddressLength
  }

  /** `RowsFrom` is kept by concatenation. */
  lemma RowsFromConcat(a: seq<Row>, b: seq<Row>, county: string, sa: seq<string>, sb: seq<string>)
    requires RowsFrom(a, county, sa) && RowsFrom(b, county, sb)
    ensures RowsFrom(a + b, county, sa + sb)
  {
    forall i | 0 <= i < |a + b|
      ensures (a + b)[i].county == county && (a + b)[i].source in sa + sb &&
              |(a + b)[i].address| >= MinAddressLength
    {
      if i >= |a| {
        assert (a + b)[i] == b[i - |a|];
      }
    }
  }

  /** When every outcome's rows come from `county` and `sources`, so do the rows the loop collects. */
  lemma {:induction false} SequenceRowsFrom(os: seq<Outcome>, county: string, sources: seq<string>)
    requires forall i :: 0 <= i < |os| && os[i].Rows? ==> RowsFrom(os[i].rows, county, sources)
    ensures Sequence(os).Rows? ==> RowsFrom(Sequence(os).rows, county, sources)
  {
    if os != [] {
      var n := |os| - 1;
      assert forall i :: 0 <= i < n ==> os[..n][i] == os[i];
      SequenceRowsFrom(os[..n], county, sources);
      var a := Sequence(os[..n]);
      var o := Sequence(os);
      if o.Rows? {
        forall i | 0 <= i < |o.rows|
          ensures o.rows[i].county == county && o.rows[i].source in sources &&
                  |o.rows[i].address| >= MinAddressLength
        {
          if i < |a.rows| {
            assert o.rows[i] == a.rows[i];
          } else {
            assert o.rows[i] == os[n].rows[i - |a.rows|];
          }
        }
      }
    }
  }

  /** Rows built from long addresses all come from their one source. */
  lemma RowsForFrom(county: string, addrs: seq<string>, source: string)
    requires forall a :: a in addrs ==> |a| >= MinAddressLength
    ensures RowsFrom(RowsFor(county, addrs, source), county, [source])
  {
    RowsForAt(county, addrs, source);
    var rs := RowsFor(county, addrs, source);
    forall i | 0 <= i < |rs| ensures |rs[i].address| >= MinAddressLength {
      assert addrs[i] in addrs;
    }
  }

  /** A row appended by `RowsFor` after `before` holds one of the addresses and the given source. */
  lemma AppendedRowAt(before: seq<Row>, county: string, addrs: seq<string>, source: string, i: nat)
    requires |before| <= i < |before| + |addrs|
    ensures (before + RowsFor(county, addrs, source))[i] == Row(county, addrs[i - |before|], source)
    ensures addrs[i - |before|] in addrs
  {
    RowsForAt(county, addrs, source);
  }

  /** Row `i` of the PDF loop carries an address extracted from the PDF named as its source. */
  lemma {:induction false} PdfLinkRowAddress(web: Web, county: string, base: string, hrefs: seq<string>, i: nat)
    requires i < |PdfLinkRows(web, county, base, hrefs)|
    ensures var r := PdfLinkRows(web, county, base, hrefs)[i];
            r.address in PdfAddressesAt(web, county, r.source)
  {
    var init := hrefs[..|hrefs| - 1];
    var full := web.urljoin(base, hrefs[|hrefs| - 1]);
    var addrs := PdfAddressesAt(web, county, full);
    var before := PdfLinkRows(web, county, base, init);
    var added := RowsFor(county, addrs, full);
    assert PdfLinkRows(web, county, base, hrefs) == before + added;
    if i < |before| {
      PdfLinkRowAddress(web, county, base, init, i);
      assert (before + added)[i] == before[i];
    } else {
      AppendedRowAt(before, county, addrs, full, i);
    }
  }


  /** Each row of the PDF loop carries an address extracted from the PDF named as its source. */
  lemma PdfLinkRowsAddresses(web: Web, county: string, base: string, hrefs: seq<string>)
    ensures var rs := PdfLinkRows(web, county, base, hrefs);
            forall i :: 0 <= i < |rs| ==> rs[i].address in PdfAddressesAt(web, county, rs[i].source)
  {
    var rs := PdfLinkRows(web, county, base, hrefs);
    forall i | 0 <= i < |rs| ensures rs[i].address in PdfAddressesAt(web, county, rs[i].source) {
      PdfLinkRowAddress(web, county, base, hrefs, i);
    }
  }

  /** The rows of the PDF loop come from the county and name one of the joined PDF links as source. */
  lemma {:induction false} PdfLinkRowsFrom(web: Web, county: string, base: string, hrefs: seq<string>)
    ensures RowsFrom(PdfLinkRows(web, county, base, hrefs), county, JoinAll(web, base, hrefs))
  {
    if hrefs != [] {
      var init := hrefs[..|hrefs| - 1];
      var full := web.urljoin(base, hrefs[|hrefs| - 1]);
      PdfLinkRowsFrom(web, county, base, init);
      var addrs := PdfAddressesAt(web, county, full);
      PdfAddressesAtLong(web, county, full);
      RowsForFrom(county, addrs, full);
      RowsFromConcat(PdfLinkRows(web, county, base, init), RowsFor(county, addrs, full), county,
                     JoinAll(web, base, init), [full]);
    }
  }

  /**
   * The rows of the PDF loop come from the county, name one of the joined PDF
   * links as source, and carry an address extracted from that PDF.
   */
  lemma PdfLinkRowsSources(web: Web, county: string, base: string, hrefs: seq<string>)
    ensures RowsFrom(PdfLinkRows(web, county, base, hrefs), county, JoinAll(web, base, hrefs))
    ensures var rs := PdfLinkRows(web, county, base, hrefs);
            forall i :: 0 <= i < |rs| ==> rs[i].address in PdfAddressesAt(web, county, rs[i].source)
  {
    PdfLinkRowsFrom(web, county, base, hrefs);
    PdfLinkRowsAddresses(web, county, base, hrefs);
  }

  /**
   * `generic_page` lists the addresses of the page text first, in their
   * order and with the page as source; every later row comes from one of the
   * page's PDF links.
   */
  lemma GenericHtmlBeforePdf(web: Web, url: string, county: string)
    requires web.get(url).Response? && !IsErrorStatus(web.get(url).status)
    ensures var body := web.get(url).body;
            var html := AddressesIn(web.finditer, web.pageText(body));
            var o := GenericPageRows(web, url, county);
            o.Rows? && |html| <= |o.rows| &&
            (forall i :: 0 <= i < |html| ==> o.rows[i] == Row(county, html[i], url)) &&
            RowsFrom(o.rows[|html|..], county, JoinAll(web, url, PdfHrefs(web.hrefs(body))))
  {
    var body := web.get(url).body;
    var html := AddressesIn(web.finditer, web.pageText(body));
    var head := RowsFor(county, html, url);
    var tail := PdfLinkRows(web, county, url, PdfHrefs(web.hrefs(body)));
    var rs := GenericPageRows(web, url, county).rows;
    assert rs == head + tail;
    assert rs[|html|..] == tail;
    RowsForAt(county, html, url);
    PdfLinkRowsSources(web, county, url, PdfHrefs(web.hrefs(body)));
  }

  /** Every address of a detail page, from its text or its PDFs, is at least 8 characters long. */
  lemma {:induction false} PageAddressesLong(web: Web, county: string, href: string, body: string)
    ensures forall a :: a in PageAddresses(web, county, href, body) ==> |a| >= MinAddressLength
  {
    AddressesLong(web.finditer, web.pageText(body));
    PdfAddressListLong(web, county, JoinAll(web, href, PdfHrefs(web.hrefs(body))));
  }

  lemma {:induction false} PdfAddressListLong(web: Web, county: string, purls: seq<string>)
    ensures forall a :: a in PdfAddressList(web, county, purls) ==> |a| >= MinAddressLength
  {
    if purls != [] {
      PdfAddressListLong(web, county, purls[..|purls| - 1]);
      PdfAddressesAtLong(web, county, purls[|purls| - 1]);
    }
  }

  /**
   * A Pulaski detail page gives one row per distinct address found on it or
   * in its PDFs, in the order of their first occurrences (`Distinct`), each
   * with the county and the page itself as source.
   */
  lemma PulaskiPageRows(web: Web, county: string, href: string)
    requires web.get(href).Response? && !IsErrorStatus(web.get(href).status)
    ensures var found := PageAddresses(web, county, href, web.get(href).body);
            var rs := DetailPageRows(web, county, href).rows;
            DetailPageRows(web, county, href).Rows? &&
            (forall i :: 0 <= i < |rs| ==> rs[i].county == county && rs[i].source == href && rs[i].address in found) &&
            (forall i, j :: 0 <= i < j < |rs| ==> rs[i].address != rs[j].address) &&
            (forall a :: a in found ==> exists i :: 0 <= i < |rs| && rs[i].address == a) &&
            |rs| == |Distinct(found)| && (forall i :: 0 <= i < |rs| ==> rs[i].address == Distinct(found)[i])
  {
    var found := PageAddresses(web, county, href, web.get(href).body);
    assert DetailPageRows(web, county, href).rows == RowsFor(county, Distinct(found), href);
    RowsForDistinct(county, found, href);
  }

  /** One row per distinct address, in first-occurrence order, each with the given county and source. */
  lemma RowsForDistinct(county: string, found: seq<string>, source: string)
    ensures var d := Distinct(found);
            var rs := RowsFor(county, d, source);
            (forall i :: 0 <= i < |rs| ==> rs[i].county == county && rs[i].source == source && rs[i].address in found) &&
            (forall i, j :: 0 <= i < j < |rs| ==> rs[i].address != rs[j].address) &&
            (forall a :: a in found ==> exists i :: 0 <= i < |rs| && rs[i].address == a) &&
            |rs| == |d| && (forall i :: 0 <= i < |rs| ==> rs[i].address == d[i])
  {
    var d := Distinct(found);
    var rs := RowsFor(county, d, source);
    RowsForAt(county, d, source);
    DistinctProperties(found);
    forall i, j | 0 <= i < j < |rs| ensures rs[i].address != rs[j].address {
      assert rs[i].address == d[i] && rs[j].address == d[j];
    }
    forall a | a in found ensures exists i :: 0 <= i < |rs| && rs[i].address == a {
      var i :| 0 <= i < |d| && d[i] == a;
      assert rs[i].address == a;
    }
  }


  /** The Pulaski parser is aborted exactly when the fetch of one of the detail pages raises. */
  lemma DetailRowsRaised(web: Web, county: string, order: seq<string>)
    ensures DetailRows(web, county, order).Raised? <==>
            exists i :: 0 <= i < |order| && web.get(order[i]).Unreachable?
  {
    var os := PageOutcomes(web, county, order);
    SequenceRaised(os);
    if DetailRows(web, county, order).Raised? {
      var i :| 0 <= i < |os| && os[i].Raised?;
      assert web.get(order[i]).Unreachable?;
    }
    if exists i :: 0 <= i < |order| && web.get(order[i]).Unreachable? {
      var i :| 0 <= i < |order| && web.get(order[i]).Unreachable?;
      assert os[i].Raised?;
    }
  }

  /**
   * The exception that aborts the Pulaski parser is that of the first detail
   * page in `order` whose fetch raises.
   */
  lemma DetailRowsRaisedAt(web: Web, county: string, order: seq<string>)
    ensures var o := DetailRows(web, county, order);
            o.Raised? ==> o.url in order && web.get(o.url).Unreachable?
    ensures var o := DetailRows(web, county, order);
            o.Raised? ==> exists i :: 0 <= i < |order| && o.url == order[i] && web.get(order[i]).Unreachable? &&
                                      forall j :: 0 <= j < i ==> !web.get(order[j]).Unreachable?
  {
    var os := PageOutcomes(web, county, order);
    SequenceRaisedBy(os);
    if Sequence(os).Raised? {
      var i :| 0 <= i < |os| && os[i] == Sequence(os) && forall j :: 0 <= j < i ==> os[j].Rows?;
      assert os[i] == DetailPageRows(web, county, order[i]);
      forall j | 0 <= j < i ensures !web.get(order[j]).Unreachable? {
        assert os[j] == DetailPageRows(web, county, order[j]);
      }
    }
  }

  /**
   * Every row of the Pulaski parser names the county and, as source, one of
   * the detail pages visited, and carries an address of at least 8 characters.
   */
  lemma DetailRowsSources(web: Web, county: string, order: seq<string>)
    ensures var o := DetailRows(web, county, order);
            o.Rows? ==> RowsFrom(o.rows, county, order)
  {
    var os := PageOutcomes(web, county, order);
    forall i | 0 <= i < |os| && os[i].Rows? ensures RowsFrom(os[i].rows, county, order) {
      var href := order[i];
      var rs := os[i].rows;
      if web.get(href).Response? && !IsErrorStatus(web.get(href).status) {
        PulaskiPageRows(web, county, href);
        PageAddressesLong(web, county, href, web.get(href).body);
        forall k | 0 <= k < |rs|
          ensures rs[k].county == county && rs[k].source in order && |rs[k].address| >= MinAddressLength
        {
        }
      }
    }
    SequenceRowsFrom(os, county, order);
  }
}
