/**
 The detail-page loop (main.go lines 76-94). Visiting a listing's detail page
 is an outcome supplied from outside: an error, or the detail page's HTML.
 Whatever the outcome, the listing's id is then appended to the ledger.
 */
module Enrichment {
  import opened Attributes
  import opened Listings
  import opened Ledger

  const WebsiteMarker := "data-event=\"listing-publisher-website\" href=\""

  /** The outcome of navigating to a detail page and reading its body. */
  datatype Visit = Failed | Loaded(detailHtml: string)

  /** What the outside world does for one listing: the visit, and whether the ledger file could be opened. */
  datatype Attempt = Attempt(visit: Visit, ledgerOpens: bool)

  /** The report rows and the ledger file after the loop. */
  datatype Pass = Pass(report: seq<Company>, ledger: LedgerFile)

  /** The listing after its visit: the website is set from a loaded page, left alone on failure. */
  function Visited(c: Company, v: Visit): (r: Company)
    ensures r.name == c.name && r.listingId == c.listingId && r.listingUrl == c.listingUrl
    ensures v.Failed? ==> r.websiteUrl == c.websiteUrl
    ensures v.Loaded? ==> r.websiteUrl == ExtractAttr(v.detailHtml, WebsiteMarker)
  {
    match v
    case Failed => c
    case Loaded(html) => c.(websiteUrl := ExtractAttr(html, WebsiteMarker))
  }

  /** The ids appended, in order: those of the listings whose append could open the file. */
  function AppendedIds(companies: seq<Company>, attempts: seq<Attempt>): (ids: seq<string>)
    requires |attempts| == |companies|
    ensures |ids| <= |companies|
    ensures forall id :: id in ids <==>
              exists k :: 0 <= k < |companies| && attempts[k].ledgerOpens && companies[k].listingId == id
    ensures (forall k :: 0 <= k < |attempts| ==> attempts[k].ledgerOpens) ==>
              ids == seq(|companies|, k requires 0 <= k < |companies| => companies[k].listingId)
  {
    if |companies| == 0 then []
    else
      (if attempts[0].ledgerOpens then [companies[0].listingId] else [])
      + AppendedIds(companies[1..], attempts[1..])
  }

  /** The loop over the extracted listings, one attempt per listing, in order. */
  function Enrich(companies: seq<Company>, attempts: seq<Attempt>, ledger: LedgerFile): (r: Pass)
    requires |attempts| == |companies|
    ensures |r.report| == |companies|
    ensures forall k :: 0 <= k < |companies| ==>
              && r.report[k].name == companies[k].name
              && r.report[k].listingId == companies[k].listingId
              && r.report[k].listingUrl == companies[k].listingUrl
    ensures forall k :: 0 <= k < |companies| && attempts[k].visit.Failed? ==>
              r.report[k].websiteUrl == companies[k].websiteUrl
    ensures forall k :: 0 <= k < |companies| && attempts[k].visit.Loaded? ==>
              r.report[k].websiteUrl == ExtractAttr(attempts[k].visit.detailHtml, WebsiteMarker)
    ensures r.ledger == Appended(ledger, AppendedIds(companies, attempts))
    decreases |companies|
  {
    if |companies| == 0 then Pass([], ledger)
    else
      var c, a := companies[0], attempts[0];
      var next := AppendFetchedId(ledger, c.listingId, a.ledgerOpens);
      var rest := Enrich(companies[1..], attempts[1..], next);
      AppendThenRest(ledger, c.listingId, a.ledgerOpens, AppendedIds(companies[1..], attempts[1..]));
      Pass([Visited(c, a.visit)] + rest.report, rest.ledger)
  }

  /** One append followed by a run of appends is one longer run. */
  lemma AppendThenRest(ledger: LedgerFile, id: string, canOpen: bool, ids: seq<string>)
    ensures Appended(AppendFetchedId(ledger, id, canOpen), ids)
            == Appended(ledger, (if canOpen then [id] else []) + ids)
  {
    if canOpen && !ledger.Unreadable? {
      var base := Text(ledger);
      assert Serialize([id] + ids) == id + Newline + Serialize(ids) by {
        assert ([id] + ids)[1..] == ids;
      }
      if |ids| == 0 {
        assert base + (id + Newline + "") == base + id + Newline;
      } else {
        assert base + id + Newline + Serialize(ids) == base + (id + Newline + Serialize(ids));
      }
    } else if !canOpen {
      assert [] + ids == ids;
    }
  }

  /**
   With every append opening the file, the loop adds exactly one ledger line
   per listing, in listing order, whether or not its visit succeeded; reading
   the ledger back gives the old ids plus those of the listings. A ledger that
   cannot be read receives the lines but still reads back as nothing.
   */
  lemma EnrichRecordsEveryListing(companies: seq<Company>, attempts: seq<Attempt>, ledger: LedgerFile)
    requires |attempts| == |companies|
    requires forall k :: 0 <= k < |attempts| ==> attempts[k].ledgerOpens
    requires WellFormed(ledger)
    requires forall k :: 0 <= k < |companies| ==> Storable(companies[k].listingId)
    ensures Enrich(companies, attempts, ledger).ledger
            == Appended(ledger, seq(|companies|, k requires 0 <= k < |companies| => companies[k].listingId))
    ensures ParseLedger(Enrich(companies, attempts, ledger).ledger) ==
              if ledger.Unreadable? then {} else ParseLedger(ledger) + ListingIds(companies)
  {
    var ids := seq(|companies|, k requires 0 <= k < |companies| => companies[k].listingId);
    ParseAppended(ledger, ids);
    assert (set id | id in ids) == ListingIds(companies) by {
      forall id | id in ListingIds(companies) ensures id in ids {
        var c :| c in companies && c.listingId == id;
        var k :| 0 <= k < |companies| && companies[k] == c;
        assert ids[k] == id;
      }
    }
  }
}
