/**
 Listing extraction (main.go lines 52-71): the page is split on the tile
 marker, the leading fragments are skipped, and every later fragment that
 names a new listing id, a name and a detail URL becomes a `Company`.
 */
module Listings {
  import opened Options
  import opened TextSearch
  import opened Attributes
  import opened Unescape

  /** One directory entry; `websiteUrl` is filled in later, from its detail page. */
  datatype Company = Company(name: string, listingId: string, listingUrl: string, websiteUrl: string)

  const TileMarker := "appx-tile appx-tile-consultant"
  /** Fragments with a smaller split index are skipped: the text before the first tile and 28 tiles. */
  const FirstListedFragment := 29
  const IdMarker := "data-listing-id=\""
  const NameMarker := "data-listing-name=\""
  const UrlMarker := "data-listing-url=\""

  /** What every extracted listing satisfies with respect to the ledger it was extracted against. */
  predicate NewListing(c: Company, ledger: set<string>) {
    && c.listingId != ""
    && c.listingId !in ledger
    && c.name != ""
    && c.listingUrl != ""
    && c.websiteUrl == ""
  }

  /** The listing ids of a sequence of companies. */
  function ListingIds(cs: seq<Company>): set<string> {
    set c | c in cs :: c.listingId
  }

  /**
   The listing one fragment yields, if any: exactly when its id attribute is
   non-empty and not in the ledger and its decoded name and URL attribute are
   non-empty, and then made of those three values.
   */
  function FromFragment(fragment: string, ledger: set<string>): (r: Option<Company>)
    ensures r.Some? ==> NewListing(r.value, ledger)
    ensures r.Some? <==>
              && ExtractAttr(fragment, IdMarker) != ""
              && ExtractAttr(fragment, IdMarker) !in ledger
              && HtmlUnescape(ExtractAttr(fragment, NameMarker)) != ""
              && ExtractAttr(fragment, UrlMarker) != ""
    ensures r.Some? ==>
              && r.value.listingId == ExtractAttr(fragment, IdMarker)
              && r.value.name == HtmlUnescape(ExtractAttr(fragment, NameMarker))
              && r.value.listingUrl == ExtractAttr(fragment, UrlMarker)
  {
    var id := ExtractAttr(fragment, IdMarker);
    if id == "" || id in ledger then None
    else
      var name := HtmlUnescape(ExtractAttr(fragment, NameMarker));
      var url := ExtractAttr(fragment, UrlMarker);
      if name != "" && url != "" then Some(Company(name, id, url, "")) else None
  }

  /** The listings one fragment contributes: none or one. */
  function Yield(fragment: string, ledger: set<string>): (r: seq<Company>)
    ensures forall c :: c in r ==> NewListing(c, ledger)
  {
    match FromFragment(fragment, ledger)
    case None => []
    case Some(c) => [c]
  }

  /**
   The extraction loop from split index `i` on, applying `rule` to every
   fragment it does not skip.
   */
  function CollectFrom(fragments: seq<string>, i: nat, rule: string -> seq<Company>): (r: seq<Company>)
    requires i <= |fragments|
    ensures forall c :: c in r ==>
              exists j :: FirstListedFragment <= j < |fragments| && i <= j && c in rule(fragments[j])
    decreases |fragments| - i
  {
    if i == |fragments| then []
    else
      var rest := CollectFrom(fragments, i + 1, rule);
      if i < FirstListedFragment then rest else rule(fragments[i]) + rest
  }

  /** The new listings of a rendered page, given the ids already in the ledger. */
  function ExtractListings(page: string, ledger: set<string>): (r: seq<Company>)
    ensures forall c :: c in r ==> NewListing(c, ledger)
  {
    CollectFrom(Split(page, TileMarker), 0, f => Yield(f, ledger))
  }

  /** Reference definition: `rule` applied to every fragment of a run, results in fragment order. */
  function Keep(fragments: seq<string>, rule: string -> seq<Company>): seq<Company>
  {
    if |fragments| == 0 then [] else rule(fragments[0]) + Keep(fragments[1..], rule)
  }

  /** Keeping is done fragment by fragment: the listings of two runs are those of each, in order. */
  lemma {:induction false} KeepConcat(a: seq<string>, b: seq<string>, rule: string -> seq<Company>)
    ensures Keep(a + b, rule) == Keep(a, rule) + Keep(b, rule)
    decreases |a|
  {
    if |a| > 0 {
      assert (a + b)[0] == a[0];
      assert (a + b)[1..] == a[1..] + b;
      KeepConcat(a[1..], b, rule);
    } else {
      assert a + b == b;
    }
  }

  /** A listing is kept exactly when some fragment yields it. */
  lemma {:induction false} KeepMembers(fragments: seq<string>, rule: string -> seq<Company>, c: Company)
    ensures c in Keep(fragments, rule) <==> exists j :: 0 <= j < |fragments| && c in rule(fragments[j])
    decreases |fragments|
  {
    if |fragments| > 0 {
      KeepMembers(fragments[1..], rule, c);
      if c in Keep(fragments[1..], rule) {
        var j :| 0 <= j < |fragments[1..]| && c in rule(fragments[1..][j]);
        assert c in rule(fragments[j + 1]);
      }
      if exists j :: 0 <= j < |fragments| && c in rule(fragments[j]) {
        var j :| 0 <= j < |fragments| && c in rule(fragments[j]);
        if j > 0 {
          assert c in rule(fragments[1..][j - 1]);
        }
      }
    }
  }

  /** From the skip boundary on, the extraction loop applies the rule to every fragment, in order. */
  lemma {:induction false} CollectIsKeep(fragments: seq<string>, i: nat, rule: string -> seq<Company>)
    requires FirstListedFragment <= i <= |fragments|
    ensures CollectFrom(fragments, i, rule) == Keep(fragments[i..], rule)
    decreases |fragments| - i
  {
    if i < |fragments| {
      CollectIsKeep(fragments, i + 1, rule);
      assert fragments[i..][1..] == fragments[i + 1..];
    }
  }

  /** Before the skip boundary, the extraction loop adds nothing. */
  lemma {:induction false} CollectSkips(fragments: seq<string>, i: nat, rule: string -> seq<Company>)
    requires i <= FirstListedFragment
    requires i <= |fragments|
    ensures CollectFrom(fragments, i, rule) ==
            if |fragments| <= FirstListedFragment then [] else CollectFrom(fragments, FirstListedFragment, rule)
    decreases FirstListedFragment - i
  {
    if i < FirstListedFragment && i < |fragments| {
      assert CollectFrom(fragments, i, rule) == CollectFrom(fragments, i + 1, rule);
      CollectSkips(fragments, i + 1, rule);
    } else if i < FirstListedFragment {
      assert CollectFrom(fragments, i, rule) == [];
    }
  }

  /**
   Fragments at split index 0 to 28 never contribute: the listings are those
   of the fragments from index 29 on, in fragment order.
   */
  lemma ExtractSkipsLeadingFragments(page: string, ledger: set<string>)
    ensures var fragments := Split(page, TileMarker);
            ExtractListings(page, ledger) ==
              if |fragments| <= FirstListedFragment then []
              else Keep(fragments[FirstListedFragment..], f => Yield(f, ledger))
  {
    var fragments := Split(page, TileMarker);
    var rule := f => Yield(f, ledger);
    CollectSkips(fragments, 0, rule);
    if |fragments| > FirstListedFragment {
      CollectIsKeep(fragments, FirstListedFragment, rule);
    }
  }

  /**
   Once the ledger holds every id extracted before, the same fragments yield
   nothing. Duplicate ids within one run are not removed: only the ledger is
   consulted.
   */
  lemma {:induction false} KeepExhausted(fragments: seq<string>, ledger: set<string>, later: set<string>)
    requires ledger <= later
    requires ListingIds(Keep(fragments, f => Yield(f, ledger))) <= later
    ensures Keep(fragments, f => Yield(f, later)) == []
    decreases |fragments|
  {
    if |fragments| > 0 {
      var before := Keep(fragments, f => Yield(f, ledger));
      var tail := Keep(fragments[1..], f => Yield(f, ledger));
      assert before == Yield(fragments[0], ledger) + tail;
      assert ListingIds(tail) <= ListingIds(before);
      KeepExhausted(fragments[1..], ledger, later);
      match FromFragment(fragments[0], ledger)
      case None =>
      case Some(c) =>
        assert c in before;
    }
  }

  /** Extracting the same page again, with every id emitted the first time now in the ledger, yields nothing. */
  lemma ReExtractionYieldsNothing(page: string, ledger: set<string>, later: set<string>)
    requires ledger <= later
    requires ListingIds(ExtractListings(page, ledger)) <= later
    ensures ExtractListings(page, later) == []
  {
    var fragments := Split(page, TileMarker);
    ExtractSkipsLeadingFragments(page, ledger);
    ExtractSkipsLeadingFragments(page, later);
    if |fragments| > FirstListedFragment {
      KeepExhausted(fragments[FirstListedFragment..], ledger, later);
    }
  }

  /** `x` followed by the tile marker has its first marker right after `x`. */
  ghost predicate CleanTile(x: string) {
    FirstOccurrence(x + TileMarker, TileMarker, |x|)
  }

  /** A page rendered as `first`, then each tile introduced by the tile marker. */
  function Render(first: string, tiles: seq<string>): string
    decreases |tiles|
  {
    if |tiles| == 0 then first else first + TileMarker + Render(tiles[0], tiles[1..])
  }

  /** Splitting a rendered page recovers the text before the first tile and the tiles. */
  lemma {:induction false} SplitRender(first: string, tiles: seq<string>)
    requires CleanTile(first)
    requires forall k :: 0 <= k < |tiles| ==> CleanTile(tiles[k])
    ensures Split(Render(first, tiles), TileMarker) == [first] + tiles
    decreases |tiles|
  {
    if |tiles| == 0 {
      forall j ensures !PrefixAt(first, TileMarker, j) {
        PrefixAtWithin(first + TileMarker, 0, |first|, TileMarker, j);
        assert (first + TileMarker)[0..|first|] == first;
      }
    } else {
      var rest := Render(tiles[0], tiles[1..]);
      var s := first + TileMarker + rest;
      FirstOccurrenceExtends(first + TileMarker, rest, TileMarker, |first|);
      assert (first + TileMarker) + rest == s;
      IndexOfFinds(s, TileMarker, |first|);
      SplitUnfold(s, TileMarker, |first|);
      assert s[..|first|] == first;
      assert s[|first| + |TileMarker|..] == rest;
      SplitRender(tiles[0], tiles[1..]);
      assert [tiles[0]] + tiles[1..] == tiles;
    }
  }

  /** On a rendered page the first 28 tiles never contribute; the rest are kept in order. */
  lemma RenderedPageSkips28Tiles(first: string, tiles: seq<string>, ledger: set<string>)
    requires CleanTile(first)
    requires forall k :: 0 <= k < |tiles| ==> CleanTile(tiles[k])
    ensures ExtractListings(Render(first, tiles), ledger) ==
            if |tiles| <= 28 then [] else Keep(tiles[28..], f => Yield(f, ledger))
  {
    SplitRender(first, tiles);
    ExtractSkipsLeadingFragments(Render(first, tiles), ledger);
    if |tiles| > 28 {
      assert ([first] + tiles)[FirstListedFragment..] == tiles[28..];
    }
  }

  /**
   When `p[k]` is absent from `x` and from `p` before index `k`, the first
   occurrence of `p` in `x + p` is the one placed after `x`.
   */
  lemma MarkedBy(x: string, p: string, k: nat)
    requires k < |p|
    requires p[k] !in x
    requires forall m :: 0 <= m < k ==> p[m] != p[k]
    ensures FirstOccurrence(x + p, p, |x|)
  {
    var s := x + p;
    assert s[|x|..|x| + |p|] == p;
    forall j | 0 <= j < |x| ensures !PrefixAt(s, p, j) {
      MatchedChar(s, p, j, k);
      if j + k < |x| {
        assert s[j + k] == x[j + k];
      } else {
        assert s[j + k] == p[j + k - |x|];
      }
    }
  }

  /** Where `p` occurs at `j`, the text holds `p[k]` at `j + k`. */
  lemma MatchedChar(s: string, p: string, j: int, k: nat)
    requires k < |p|
    ensures PrefixAt(s, p, j) ==> s[j + k] == p[k]
  {
    if PrefixAt(s, p, j) {
      assert s[j..j + |p|][k] == s[j + k];
    }
  }

  /**
   A tile as the directory writes it: some leading text, then the id, the
   escaped name and the URL as quoted attributes, then anything.
   */
  function Tile(before: string, id: string, name: string, url: string, after: string): string {
    before + IdMarker + id + Quote + (" " + NameMarker + HtmlEscape(name) + Quote + AfterName(url, after))
  }

  /** The text of a tile from the end of its name attribute on. */
  function AfterName(url: string, after: string): string {
    " " + UrlMarker + url + Quote + after
  }

  /** The text of a tile up to its name attribute. */
  function TileToName(before: string, id: string): string {
    before + IdMarker + id + Quote + " "
  }

  /** The text of a tile up to its URL attribute. */
  function TileToUrl(before: string, id: string, name: string): string {
    TileToName(before, id) + NameMarker + HtmlEscape(name) + Quote + " "
  }

  /** Regrouping nine pieces of text: after four pieces, five more read the same either way. */
  lemma Regroup(a: string, b: string, c: string, d: string, e: string, f: string, g: string, h: string, k: string)
    ensures (a + b + c + d + e) + f + g + h + k == a + b + c + d + (e + f + g + h + k)
  {
  }

  /**
   A rendered tile, with a quote-free id and URL and each attribute the first
   of its kind, yields the listing it was rendered from, with the name decoded
   back; it yields nothing when the id is empty or known or the name or URL is
   empty.
   */
  lemma RenderedTileYields(before: string, id: string, name: string, url: string, after: string, ledger: set<string>)
    requires '"' !in id && '"' !in url
    requires FirstOccurrence(before + IdMarker, IdMarker, |before|)
    requires FirstOccurrence(TileToName(before, id) + NameMarker, NameMarker, |TileToName(before, id)|)
    requires FirstOccurrence(TileToUrl(before, id, name) + UrlMarker, UrlMarker, |TileToUrl(before, id, name)|)
    ensures FromFragment(Tile(before, id, name, url, after), ledger)
            == if id == "" || id in ledger || name == "" || url == "" then None
               else Some(Company(name, id, url, ""))
  {
    TileIdAttr(before, id, name, url, after);
    TileNameAttr(before, id, name, url, after);
    TileUrlAttr(before, id, name, url, after);
    UnescapeEscape(name);
  }

  lemma TileIdAttr(before: string, id: string, name: string, url: string, after: string)
    requires '"' !in id
    requires FirstOccurrence(before + IdMarker, IdMarker, |before|)
    ensures ExtractAttr(Tile(before, id, name, url, after), IdMarker) == id
  {
    ExtractRendered(before, IdMarker, id, " " + NameMarker + HtmlEscape(name) + Quote + AfterName(url, after));
  }

  lemma TileNameAttr(before: string, id: string, name: string, url: string, after: string)
    requires FirstOccurrence(TileToName(before, id) + NameMarker, NameMarker, |TileToName(before, id)|)
    ensures ExtractAttr(Tile(before, id, name, url, after), NameMarker) == HtmlEscape(name)
  {
    EscapedQuoteFree(name);
    Regroup(before, IdMarker, id, Quote, " ", NameMarker, HtmlEscape(name), Quote, AfterName(url, after));
    ExtractRendered(TileToName(before, id), NameMarker, HtmlEscape(name), AfterName(url, after));
  }

  lemma TileUrlAttr(before: string, id: string, name: string, url: string, after: string)
    requires '"' !in url
    requires FirstOccurrence(TileToUrl(before, id, name) + UrlMarker, UrlMarker, |TileToUrl(before, id, name)|)
    ensures ExtractAttr(Tile(before, id, name, url, after), UrlMarker) == url
  {
    Regroup(before, IdMarker, id, Quote, " ", NameMarker, HtmlEscape(name), Quote, AfterName(url, after));
    Regroup(TileToName(before, id), NameMarker, HtmlEscape(name), Quote, " ", UrlMarker, url, Quote, after);
    ExtractRendered(TileToUrl(before, id, name), UrlMarker, url, after);
  }

  const IdBefore := "\" "
  const NameBefore := IdBefore + IdMarker + "42" + Quote + " "
  /** The name `A &amp; B` as the page writes it. */
  const ExampleRawName := "A " + Encoded(Amp) + " B"
  const UrlBefore := NameBefore + NameMarker + ExampleRawName + Quote + " "
  /** The tile `" data-listing-id="42" data-listing-name="A &amp; B" data-listing-url="http://x/42">`. */
  const ExampleTile := UrlBefore + UrlMarker + "http://x/42" + Quote + ">"

  lemma ExampleTileId()
    ensures ExtractAttr(ExampleTile, IdMarker) == "42"
  {
    var afterId := " " + NameMarker + ExampleRawName + Quote + " " + UrlMarker + "http://x/42" + Quote + ">";
    MarkedBy(IdBefore, IdMarker, 0);
    assert ExampleTile == IdBefore + IdMarker + "42" + Quote + afterId;
    ExtractRendered(IdBefore, IdMarker, "42", afterId);
  }

  lemma ExampleTileName()
    ensures ExtractAttr(ExampleTile, NameMarker) == ExampleRawName
  {
    var afterName := " " + UrlMarker + "http://x/42" + Quote + ">";
    MarkedBy(NameBefore, NameMarker, 15);
    assert ExampleTile == NameBefore + NameMarker + ExampleRawName + Quote + afterName;
    ExtractRendered(NameBefore, NameMarker, ExampleRawName, afterName);
  }

  lemma ExampleTileUrl()
    ensures ExtractAttr(ExampleTile, UrlMarker) == "http://x/42"
  {
    MarkedBy(UrlBefore, UrlMarker, 13);
    ExtractRendered(UrlBefore, UrlMarker, "http://x/42", ">");
  }

  /** The example tile yields the listing 42 with its name decoded. */
  lemma ExampleTileYieldsListing()
    ensures FromFragment(ExampleTile, {}) == Some(Company("A & B", "42", "http://x/42", ""))
  {
    ExampleTileId();
    ExampleTileName();
    ExampleTileUrl();
    AmpersandInName();
  }

  /** The example tile holds no tile marker of its own. */
  lemma ExampleTileClean()
    ensures CleanTile(ExampleTile)
  {
    assert TileMarker[20] == 'c';
    assert 'c' !in ExampleTile;
    MarkedBy(ExampleTile, TileMarker, 20);
  }

  /** The only tile past the skip boundary is kept. */
  lemma ExampleTileKept()
    ensures Keep([ExampleTile], f => Yield(f, {})) == [Company("A & B", "42", "http://x/42", "")]
  {
    ExampleTileYieldsListing();
  }

  /**
   Extraction does not remove duplicates: a fragment that gives a listing,
   repeated, gives that listing twice, as only the ledger is consulted.
   */
  lemma DuplicateFragmentsBothKept(f: string, ledger: set<string>)
    ensures FromFragment(f, ledger).Some? ==>
              Keep([f, f], g => Yield(g, ledger)) == [FromFragment(f, ledger).value, FromFragment(f, ledger).value]
  {
    var rule := g => Yield(g, ledger);
    KeepConcat([f], [f], rule);
    assert [f] + [f] == [f, f];
    assert Keep([f], rule) == rule(f) + Keep([], rule);
  }

  /** The example tile, repeated, gives listing 42 twice. */
  lemma DuplicateTilesBothKept()
    ensures Keep([ExampleTile, ExampleTile], f => Yield(f, {}))
            == [Company("A & B", "42", "http://x/42", ""), Company("A & B", "42", "http://x/42", "")]
  {
    ExampleTileYieldsListing();
    DuplicateFragmentsBothKept(ExampleTile, {});
  }

  /**
   A page of 29 copies of the example tile: the 28 before the skip boundary
   are dropped, the one after it is extracted.
   */
  lemma ExamplePageYieldsOneListing()
    ensures ExtractListings(Render("<body>", seq(29, _ => ExampleTile)), {})
            == [Company("A & B", "42", "http://x/42", "")]
  {
    var tiles := seq(29, _ => ExampleTile);
    ExampleTileClean();
    MarkedBy("<body>", TileMarker, 20);
    RenderedPageSkips28Tiles("<body>", tiles, {});
    assert tiles[28..] == [ExampleTile];
    ExampleTileKept();
  }
}
