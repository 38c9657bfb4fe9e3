/**
 * `scrape`: run the parser that matches each county site's host, collect
 * every row, then keep the first record of each (county, lower-cased
 * address) pair.
 */
module Scrape {
  import opened Strings
  import opened FirstOccurrence
  import opened Addresses
  import opened Parsers
  import opened Comprehensions

  /** The three parsers `scrape` can hand a site to. */
  datatype Strategy = PulaskiParser | PdfListingParser | GenericParser

  /** The host tests of `scrape`, tried in order: Pulaski first, then the two PDF-listing counties, else the generic page. */
  function ChooseStrategy(host: string): (s: Strategy)
    ensures s == PulaskiParser <==> Contains(host, "pulaskiclerkar.gov")
    ensures s == PdfListingParser <==>
              !Contains(host, "pulaskiclerkar.gov") &&
              (Contains(host, "sebastiancountyar.gov") || Contains(host, "crawfordcountyar.gov"))
  {
    if Contains(host, "pulaskiclerkar.gov") then PulaskiParser
    else if Contains(host, "sebastiancountyar.gov") || Contains(host, "crawfordcountyar.gov") then PdfListingParser
    else GenericParser
  }

  /** `COUNTY_SITES`, in its insertion order: county name and notice page. */
  const CountySites: seq<(string, string)> := [
    ("Pulaski County", "https://pulaskiclerkar.gov/auction-about/auction-notices/"),
    ("Sebastian County", "https://www.sebastiancountyar.gov/Departments/Circuit-Clerk/Commissioners-Sales"),
    ("Crawford County", "https://www.crawfordcountyar.gov/officials/circuit_clerk.cshtml"),
    ("Benton County", "https://bentoncountyar.gov/circuit-clerk/judicial-sales-and-foreclosures/"),
    ("Washington County", "https://www.washingtoncountyar.gov/how-do-i/view/foreclosure-information")
  ]

  /** The Pulaski host goes to the Pulaski parser. */
  lemma PulaskiHostDispatch()
    ensures ChooseStrategy("pulaskiclerkar.gov") == PulaskiParser
  {
    ContainsSuffix("", "pulaskiclerkar.gov");
    assert "" + "pulaskiclerkar.gov" == "pulaskiclerkar.gov";
  }

  /** The Sebastian host contains its county's domain. */
  lemma SebastianHostContains()
    ensures Contains("www.sebastiancountyar.gov", "sebastiancountyar.gov")
  {
    var s := "www.sebastiancountyar.gov";
    var t := "sebastiancountyar.gov";
    assert forall k :: 0 <= k < 21 ==> s[4 + k] == t[k];
    assert s[4..25] == t;
    assert OccursAt(s, t, 4);
  }

  /** The Crawford host contains its county's domain. */
  lemma CrawfordHostContains()
    ensures Contains("www.crawfordcountyar.gov", "crawfordcountyar.gov")
  {
    var s := "www.crawfordcountyar.gov";
    var t := "crawfordcountyar.gov";
    assert forall k :: 0 <= k < 20 ==> s[4 + k] == t[k];
    assert s[4..24] == t;
    assert OccursAt(s, t, 4);
  }

  /** The Sebastian host goes to the PDF-listing parser. */
  lemma SebastianHostDispatch()
    ensures ChooseStrategy("www.sebastiancountyar.gov") == PdfListingParser
  {
    NotContainsByFirst("www.sebastiancountyar.gov", "pulaskiclerkar.gov");
    SebastianHostContains();
  }

  /** The Crawford host goes to the PDF-listing parser. */
  lemma CrawfordHostDispatch()
    ensures ChooseStrategy("www.crawfordcountyar.gov") == PdfListingParser
  {
    NotContainsByFirst("www.crawfordcountyar.gov", "pulaskiclerkar.gov");
    CrawfordHostContains();
  }

  /** The Benton and Washington hosts match none of the tests and get the generic parser. */
  lemma GenericHostsDispatch()
    ensures ChooseStrategy("bentoncountyar.gov") == GenericParser
    ensures ChooseStrategy("www.washingtoncountyar.gov") == GenericParser
  {
    NotContainsByFirst("bentoncountyar.gov", "pulaskiclerkar.gov");
    NotContainsByFirst("bentoncountyar.gov", "sebastiancountyar.gov");
    NotContainsByFirst("bentoncountyar.gov", "crawfordcountyar.gov");
    NotContainsByFirst("www.washingtoncountyar.gov", "pulaskiclerkar.gov");
    NotContainsByFirst("www.washingtoncountyar.gov", "sebastiancountyar.gov");
    NotContainsByFirst("www.washingtoncountyar.gov", "crawfordcountyar.gov");
  }

  /** `urlparse(url).netloc` of each entry of `COUNTY_SITES`, in the same order. */
  const CountyHosts: seq<string> := [
    "pulaskiclerkar.gov",
    "www.sebastiancountyar.gov",
    "www.crawfordcountyar.gov",
    "bentoncountyar.gov",
    "www.washingtoncountyar.gov"
  ]

  /** The parser each configured county gets: Pulaski's own, the PDF listing for Sebastian and Crawford, the generic page for Benton and Washington. */
  const CountyStrategies: seq<Strategy> :=
    [PulaskiParser, PdfListingParser, PdfListingParser, GenericParser, GenericParser]

  /** When `netloc` gives the hosts of the configured sites, each county is dispatched to its intended parser. */
  lemma CountySitesDispatch(web: Web)
    requires forall i :: 0 <= i < |CountySites| ==> web.netloc(CountySites[i].1) == CountyHosts[i]
    ensures forall i :: 0 <= i < |CountySites| ==> ChooseStrategy(web.netloc(CountySites[i].1)) == CountyStrategies[i]
  {
    PulaskiHostDispatch();
    SebastianHostDispatch();
    CrawfordHostDispatch();
    GenericHostsDispatch();
  }

  /** What the parser chosen for the site `url` of `county` gives; `order` is used by the Pulaski parser only. */
  function SiteRows(web: Web, county: string, url: string, order: seq<string>): Outcome
  {
    match ChooseStrategy(web.netloc(url))
    case PulaskiParser => PulaskiRows(web, url, county, order)
    case PdfListingParser => PdfListingRows(web, url, county)
    case GenericParser => GenericPageRows(web, url, county)
  }

  /** The parsers' outcomes for the sites, in order. */
  function SiteOutcomes(web: Web, sites: seq<(string, string)>, orders: seq<seq<string>>): seq<Outcome>
    requires |orders| == |sites|
  {
    seq(|sites|, i requires 0 <= i < |sites| => SiteRows(web, sites[i].0, sites[i].1, orders[i]))
  }

  /** `results` after every site in order, or the exception that ended the run. */
  function AllSiteRows(web: Web, sites: seq<(string, string)>, orders: seq<seq<string>>): Outcome
    requires |orders| == |sites|
  {
    Sequence(SiteOutcomes(web, sites, orders))
  }

  /** The key of the final deduplication: county and lower-cased address. */
  function DedupKey(r: Row): (string, string)
  {
    (r.county, Lower(r.address))
  }

  /** The test `if r["address"]`. */
  predicate HasAddress(r: Row)
  {
    r.address != ""
  }

  /** The records `scrape` returns from `results`. */
  function Deduplicated(results: seq<Row>): (r: seq<Row>)
    ensures |r| <= |results|
    ensures forall i :: 0 <= i < |r| ==> r[i].address != ""
  {
    KeepFirstLength(results, DedupKey, HasAddress);
    KeepFirstAccepts(results, DedupKey, HasAddress);
    KeepFirst(results, DedupKey, HasAddress)
  }

  /** The deduplication loop of `scrape`, with its `seen` set of keys. */
  method DedupRecords(results: seq<Row>) returns (deduped: seq<Row>)
    ensures deduped == Deduplicated(results)
  {
    deduped := [];
    var seen: set<(string, string)> := {};
    for i := 0 to |results|
      invariant deduped == KeepFirst(results[..i], DedupKey, HasAddress)
      invariant seen == KeysOf(deduped, DedupKey)
    {
      var r := results[i];
      var key := (r.county, Lower(r.address));
      KeepFirstPrefixStep(results, DedupKey, HasAddress, i);
      if r.address != "" && key !in seen {
        KeysOfSnoc(deduped, r, DedupKey);
        deduped := deduped + [r];
        seen := seen + {key};
      }
    }
    assert results[..|results|] == results;
  }

  /** Each site dispatched to the Pulaski parser is given an iteration order of its set of detail links. */
  predicate OrdersFit(web: Web, sites: seq<(string, string)>, orders: seq<seq<string>>)
  {
    |orders| == |sites| &&
    forall i :: 0 <= i < |sites| && ChooseStrategy(web.netloc(sites[i].1)) == PulaskiParser ==>
      Enumerates(orders[i], DetailLinks(web, sites[i].1))
  }

  /** What `scrape` returns for the sites `sites`, or the exception that ends it. */
  function ScrapeResult(web: Web, sites: seq<(string, string)>, orders: seq<seq<string>>): Outcome
    requires |orders| == |sites|
  {
    match AllSiteRows(web, sites, orders)
    case Raised(url) => Raised(url)
    case Rows(rs) => Rows(Deduplicated(rs))
  }

  /** Every row has an address of at least 8 characters. */
  ghost predicate LongAddresses(rs: seq<Row>)
  {
    forall i :: 0 <= i < |rs| ==> |rs[i].address| >= MinAddressLength
  }

  /** When every outcome's rows have long addresses, so do the collected rows. */
  lemma {:induction false} SequenceLong(os: seq<Outcome>)
    requires forall i :: 0 <= i < |os| && os[i].Rows? ==> LongAddresses(os[i].rows)
    ensures Sequence(os).Rows? ==> LongAddresses(Sequence(os).rows)
  {
    if os != [] {
      var n := |os| - 1;
      assert forall i :: 0 <= i < n ==> os[..n][i] == os[i];
      SequenceLong(os[..n]);
      var a := Sequence(os[..n]);
      var o := Sequence(os);
      if o.Rows? {
        forall i | 0 <= i < |o.rows| ensures |o.rows[i].address| >= MinAddressLength {
          if i < |a.rows| {
            assert o.rows[i] == a.rows[i];
          } else {
            assert o.rows[i] == os[n].rows[i - |a.rows|];
          }
        }
      }
    }
  }

  /** One site of the loop in `scrape`: the parser its host selects, run on its page. */
  method RunSite(web: Web, county: string, url: string, order: seq<string>) returns (got: Outcome)
    requires ChooseStrategy(web.netloc(url)) == PulaskiParser ==> Enumerates(order, DetailLinks(web, url))
    ensures got == SiteRows(web, county, url, order)
  {
    match ChooseStrategy(web.netloc(url))
    case PulaskiParser =>
      got := ParsePulaski(web, url, county, order);
    case PdfListingParser =>
      got := ParsePdfListing(web, url, county);
    case GenericParser =>
      got := GenericPage(web, url, county);
  }

  /**
   * `scrape` over `sites`: dispatch each site by its host, extend the results,
   * then deduplicate. `orders[i]` is the order in which the Pulaski parser
   * walks its set of detail links for site `i`.
   */
  method Scrape(web: Web, sites: seq<(string, string)>, orders: seq<seq<string>>) returns (out: Outcome)
    requires OrdersFit(web, sites, orders)
    ensures out == ScrapeResult(web, sites, orders)
  {
    ghost var os := SiteOutcomes(web, sites, orders);
    var results := [];
    for i := 0 to |sites|
      invariant Sequence(os[..i]) == Rows(results)
    {
      var got := RunSite(web, sites[i].0, sites[i].1, orders[i]);
      SequenceStep(os, i);
      if got.Raised? {
        SequenceRaisedSticky(os, i + 1);
        return got;
      }
      results := results + got.rows;
    }
    assert os[..|sites|] == os;
    var deduped := DedupRecords(results);
    out := Rows(deduped);
  }

  /** No record with an empty address is returned. */
  lemma DedupHasAddresses(results: seq<Row>)
    ensures forall i :: 0 <= i < |Deduplicated(results)| ==> Deduplicated(results)[i].address != ""
  {
    KeepFirstAccepts(results, DedupKey, HasAddress);
  }

  /** No two returned records share a county and an address up to case. */
  lemma DedupUniqueKeys(results: seq<Row>)
    ensures var d := Deduplicated(results);
            forall i, j :: 0 <= i < j < |d| ==>
              d[i].county != d[j].county || Lower(d[i].address) != Lower(d[j].address)
  {
    var d := Deduplicated(results);
    forall i, j | 0 <= i < j < |d|
      ensures d[i].county != d[j].county || Lower(d[i].address) != Lower(d[j].address)
    {
      KeepFirstDistinctAt(results, DedupKey, HasAddress, i, j);
    }
  }

  /**
   * The records returned are, in their original order, the records at the
   * positions where a non-empty (county, lower-cased address) key appears for
   * the first time: first occurrence wins and the result is a subsequence.
   */
  lemma DedupKeepsFirstOccurrences(results: seq<Row>)
    ensures var p := FirstPositions(results, DedupKey, HasAddress, |results|);
            var d := Deduplicated(results);
            |d| == |p| && forall i :: 0 <= i < |p| ==> d[i] == results[p[i]]
  {
    KeepFirstSelectsFirstPositions(results, DedupKey, HasAddress);
  }

  /** Every record with an address is represented: some returned record of its county has its address up to case. */
  lemma DedupCovers(results: seq<Row>, j: nat)
    requires j < |results| && results[j].address != ""
    ensures exists i :: 0 <= i < |Deduplicated(results)| &&
                        Deduplicated(results)[i].county == results[j].county &&
                        Lower(Deduplicated(results)[i].address) == Lower(results[j].address)
  {
    KeepFirstCovers(results, DedupKey, HasAddress, j);
    var d := Deduplicated(results);
    var i :| 0 <= i < |d| && DedupKey(d[i]) == DedupKey(results[j]);
    assert d[i].county == results[j].county;
  }

  /** The records of one county. */
  function InCounty(county: string): Row -> bool
  {
    (r: Row) => r.county == county
  }

  /**
   * Deduplication is per county: the records a county keeps are those it
   * would keep if its rows were the only ones, so the same address in two
   * counties is kept twice.
   */
  lemma DedupPerCounty(results: seq<Row>, county: string)
    ensures Filter(Deduplicated(results), InCounty(county)) == Deduplicated(Filter(results, InCounty(county)))
  {
    var p := InCounty(county);
    forall a: Row, b: Row | DedupKey(a) == DedupKey(b) ensures p(a) == p(b) {
      assert a.county == DedupKey(a).0;
    }
    KeepFirstFilter(results, DedupKey, HasAddress, p);
  }

  /** The run ends in an exception exactly when one of the sites' parsers raises. */
  lemma AllSiteRowsRaised(web: Web, sites: seq<(string, string)>, orders: seq<seq<string>>)
    requires |orders| == |sites|
    ensures AllSiteRows(web, sites, orders).Raised? <==>
            exists i :: 0 <= i < |sites| && SiteRows(web, sites[i].0, sites[i].1, orders[i]).Raised?
  {
    var os := SiteOutcomes(web, sites, orders);
    SequenceRaised(os);
    if AllSiteRows(web, sites, orders).Raised? {
      var i :| 0 <= i < |os| && os[i].Raised?;
      assert SiteRows(web, sites[i].0, sites[i].1, orders[i]).Raised?;
    }
    if exists i :: 0 <= i < |sites| && SiteRows(web, sites[i].0, sites[i].1, orders[i]).Raised? {
      var i :| 0 <= i < |sites| && SiteRows(web, sites[i].0, sites[i].1, orders[i]).Raised?;
      assert os[i].Raised?;
    }
  }

  /** The exception that ends the run is that of the first site whose parser raises. */
  lemma AllSiteRowsRaisedFirst(web: Web, sites: seq<(string, string)>, orders: seq<seq<string>>)
    requires |orders| == |sites|
    ensures var o := AllSiteRows(web, sites, orders);
            o.Raised? ==> exists i :: 0 <= i < |sites| && o == SiteRows(web, sites[i].0, sites[i].1, orders[i]) &&
                                      forall j :: 0 <= j < i ==> SiteRows(web, sites[j].0, sites[j].1, orders[j]).Rows?
  {
    var os := SiteOutcomes(web, sites, orders);
    SequenceRaisedBy(os);
    if Sequence(os).Raised? {
      var i :| 0 <= i < |os| && os[i] == Sequence(os) && forall j :: 0 <= j < i ==> os[j].Rows?;
      assert os[i] == SiteRows(web, sites[i].0, sites[i].1, orders[i]);
      forall j | 0 <= j < i ensures SiteRows(web, sites[j].0, sites[j].1, orders[j]).Rows? {
        assert os[j] == SiteRows(web, sites[j].0, sites[j].1, orders[j]);
      }
    }
  }

  /** The Pulaski parser's rows belong to the county and have addresses of at least 8 characters. */
  lemma PulaskiRowsLong(web: Web, url: string, county: string, order: seq<string>)
    ensures var o := PulaskiRows(web, url, county, order);
            o.Rows? ==> forall i :: 0 <= i < |o.rows| ==>
              o.rows[i].county == county && |o.rows[i].address| >= MinAddressLength
  {
    DetailRowsSources(web, county, order);
  }

  /** The PDF-listing parser's rows belong to the county and have addresses of at least 8 characters. */
  lemma PdfListingRowsLong(web: Web, url: string, county: string)
    ensures var o := PdfListingRows(web, url, county);
            o.Rows? ==> forall i :: 0 <= i < |o.rows| ==>
              o.rows[i].county == county && |o.rows[i].address| >= MinAddressLength
  {
    var get := web.get(url);
    if get.Response? && !IsErrorStatus(get.status) {
      PdfLinkRowsSources(web, county, url, PdfHrefs(web.hrefs(get.body)));
    }
  }

  /** The generic parser's rows belong to the county and have addresses of at least 8 characters. */
  lemma GenericRowsLong(web: Web, url: string, county: string)
    ensures var o := GenericPageRows(web, url, county);
            o.Rows? ==> forall i :: 0 <= i < |o.rows| ==>
              o.rows[i].county == county && |o.rows[i].address| >= MinAddressLength
  {
    var o := GenericPageRows(web, url, county);
    var get := web.get(url);
    if get.Response? && !IsErrorStatus(get.status) {
      var html := AddressesIn(web.finditer, web.pageText(get.body));
      var links := PdfHrefs(web.hrefs(get.body));
      AddressesLong(web.finditer, web.pageText(get.body));
      RowsForFrom(county, html, url);
      PdfLinkRowsSources(web, county, url, links);
      RowsFromConcat(RowsFor(county, html, url), PdfLinkRows(web, county, url, links), county,
                     [url], JoinAll(web, url, links));
      assert o.rows == RowsFor(county, html, url) + PdfLinkRows(web, county, url, links);
    }
  }

  /** Every row a parser produces belongs to the site's county and has an address of at least 8 characters. */
  lemma SiteRowsLong(web: Web, county: string, url: string, order: seq<string>)
    ensures var o := SiteRows(web, county, url, order);
            o.Rows? ==> forall i :: 0 <= i < |o.rows| ==>
              o.rows[i].county == county && |o.rows[i].address| >= MinAddressLength
  {
    match ChooseStrategy(web.netloc(url))
    case PulaskiParser => PulaskiRowsLong(web, url, county, order);
    case PdfListingParser => PdfListingRowsLong(web, url, county);
    case GenericParser => GenericRowsLong(web, url, county);
  }

  /**
   * Every row collected before deduplication has an address, so the test
   * `if r["address"]` never drops a parser's row: `scrape` returns one row for
   * each distinct (county, lower-cased address) among all rows collected.
   */
  lemma AllSiteRowsHaveAddresses(web: Web, sites: seq<(string, string)>, orders: seq<seq<string>>)
    requires |orders| == |sites|
    ensures var o := AllSiteRows(web, sites, orders);
            o.Rows? ==> forall i :: 0 <= i < |o.rows| ==> |o.rows[i].address| >= MinAddressLength
  {
    var os := SiteOutcomes(web, sites, orders);
    forall i | 0 <= i < |os| && os[i].Rows? ensures LongAddresses(os[i].rows) {
      SiteRowsLong(web, sites[i].0, sites[i].1, orders[i]);
    }
    SequenceLong(os);
  }
}
