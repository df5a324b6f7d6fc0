/**
 One run of the program after the page is loaded (main.go lines 47-94): read
 the ledger, extract the new listings from the page body, visit each one and
 record its id. The page body is whatever the browser returned after the
 "load more" driver, which only logs its error, so it is an input here.
 */
module Scrape {
  import opened Listings
  import opened Ledger
  import opened Attributes
  import opened Enrichment

  /** The attempts of a run, one per listing, taken from an outside schedule. */
  function Schedule(n: nat, attempts: nat -> Attempt): (r: seq<Attempt>)
    ensures |r| == n
    ensures forall k :: 0 <= k < n ==> r[k] == attempts(k)
  {
    seq(n, k requires 0 <= k => attempts(k))
  }

  /**
   The report holds one row per new listing, in page order, each with an id
   the ledger did not hold and a website taken from its detail page, empty
   when the visit failed; the ledger gains exactly those ids whose append
   could open the file.
   */
  function Scrape(page: string, ledgerFile: LedgerFile, attempts: nat -> Attempt): (r: Pass)
    ensures var companies := ExtractListings(page, ParseLedger(ledgerFile));
            && |r.report| == |companies|
            && (forall k :: 0 <= k < |companies| ==>
                  && r.report[k].name == companies[k].name
                  && r.report[k].listingId == companies[k].listingId
                  && r.report[k].listingUrl == companies[k].listingUrl)
            && r.ledger == Appended(ledgerFile, AppendedIds(companies, Schedule(|companies|, attempts)))
    ensures forall k :: 0 <= k < |r.report| ==>
              && r.report[k].listingId != ""
              && r.report[k].listingId !in ParseLedger(ledgerFile)
              && r.report[k].name != ""
              && r.report[k].listingUrl != ""
    ensures forall k :: 0 <= k < |r.report| && attempts(k).visit.Failed? ==> r.report[k].websiteUrl == ""
    ensures forall k :: 0 <= k < |r.report| && attempts(k).visit.Loaded? ==>
              r.report[k].websiteUrl == ExtractAttr(attempts(k).visit.detailHtml, WebsiteMarker)
  {
    var companies := ExtractListings(page, ParseLedger(ledgerFile));
    var r := Enrich(companies, Schedule(|companies|, attempts), ledgerFile);
    assert forall k :: 0 <= k < |companies| ==> NewListing(companies[k], ParseLedger(ledgerFile)) by {
      forall k | 0 <= k < |companies| ensures NewListing(companies[k], ParseLedger(ledgerFile)) {
        assert companies[k] in companies;
      }
    }
    r
  }

  /**
   Running again on the same page after a run whose appends all opened the
   ledger finds nothing new: every listing of the first run was recorded,
   whether or not its detail page loaded. The ledger must be readable, and
   empty or ending in a newline; ids holding a newline are excluded, as such
   an id is written as several lines.
   */
  lemma SecondRunFindsNothing(page: string, ledgerFile: LedgerFile, first: nat -> Attempt, second: nat -> Attempt)
    requires !ledgerFile.Unreadable?
    requires WellFormed(ledgerFile)
    requires forall k: nat :: first(k).ledgerOpens
    requires forall c :: c in ExtractListings(page, ParseLedger(ledgerFile)) ==> '\n' !in c.listingId
    ensures Scrape(page, Scrape(page, ledgerFile, first).ledger, second).report == []
  {
    var known := ParseLedger(ledgerFile);
    var companies := ExtractListings(page, known);
    var attempts := Schedule(|companies|, first);
    forall k | 0 <= k < |companies| ensures Storable(companies[k].listingId) {
      assert companies[k] in companies;
    }
    EnrichRecordsEveryListing(companies, attempts, ledgerFile);
    var later := ParseLedger(Scrape(page, ledgerFile, first).ledger);
    assert later == known + ListingIds(companies);
    ReExtractionYieldsNothing(page, known, later);
  }

  /**
   A ledger that exists but cannot be read stays so after a run, whatever was
   appended to it, so the next run extracts every listing of the page again.
   */
  lemma UnreadableLedgerForgetsRuns(page: string, first: nat -> Attempt, second: nat -> Attempt)
    ensures Scrape(page, Unreadable, first).ledger == Unreadable
    ensures |Scrape(page, Scrape(page, Unreadable, first).ledger, second).report| == |ExtractListings(page, {})|
  {
  }

  /** When no append can open the ledger, a run leaves it as it was. */
  lemma UnopenableLedgerUnchanged(page: string, ledgerFile: LedgerFile, attempts: nat -> Attempt)
    requires forall k: nat :: !attempts(k).ledgerOpens
    ensures Scrape(page, ledgerFile, attempts).ledger == ledgerFile
  {
    var companies := ExtractListings(page, ParseLedger(ledgerFile));
    NothingAppended(companies, Schedule(|companies|, attempts));
  }

  lemma {:induction false} NothingAppended(companies: seq<Company>, attempts: seq<Attempt>)
    requires |attempts| == |companies|
    requires forall k :: 0 <= k < |attempts| ==> !attempts[k].ledgerOpens
    ensures AppendedIds(companies, attempts) == []
  {
    if |companies| > 0 {
      NothingAppended(companies[1..], attempts[1..]);
    }
  }
}
