/** The Steam parser: free and discounted rows of the store's search page, the
    search-suggestion endpoint and the application-details endpoint. */
module SteamParser {
  import opened Wrappers
  import opened Text
  import opened Deals

  const BaseUrl := "https://store.steampowered.com"

  /** The rouble sign the price texts carry. */
  const Ruble: char := '₽'

  /** `f"{base_url}/app/{store_id}"`. */
  function AppUrl(storeId: string): string {
    BaseUrl + "/app/" + storeId
  }

  // ---------------------------------------------------------------- get_game_details

  /** The `price_overview` object; a missing object reads as all members absent. */
  datatype PriceOverview = PriceOverview(final: Field<int>, initial: Field<int>, discountPercent: Option<int>)

  /** The `data` object of an application: the `description` of each entry of
      `genres` (`None` where it is missing, so that `genre['description']` raises). */
  datatype AppData = AppData(genres: seq<Option<string>>, isFree: Option<bool>, priceOverview: PriceOverview)

  /** The member of the details document for one application id. */
  datatype AppEntry = AppEntry(success: bool, data: Option<AppData>)

  /** An entry `get_game_details` cannot read: no `data`, a genre without a
      description, or a price that is not a number. */
  predicate Malformed(e: AppEntry) {
    e.data.None? || None in e.data.value.genres
    || e.data.value.priceOverview.final.Invalid? || e.data.value.priceOverview.initial.Invalid?
  }

  /** The details endpoint, by application id. */
  type Lookup = string -> Response<map<string, AppEntry>>

  /** `[genre['description'] for genre in genres]`. */
  function Descriptions(gs: seq<Option<string>>): (r: Option<seq<string>>)
    ensures r.Some? <==> None !in gs
    ensures r.Some? ==> |r.value| == |gs| && forall i :: 0 <= i < |gs| ==> gs[i] == Some(r.value[i])
  {
    if |gs| == 0 then Some([])
    else
      match gs[0]
      case None => None
      case Some(g) =>
        match Descriptions(gs[1..])
        case None => None
        case Some(rest) => Some([g] + rest)
  }

  /** Whether the details document has a successful entry for `storeId`. */
  predicate Listed(storeId: string, m: map<string, AppEntry>) {
    |m| > 0 && storeId in m && m[storeId].success
  }

  /** `get_game_details(store_id)`: `{}` (here `None`) on a non-200 status or when
      the document has no successful entry for the id; an exception when that
      entry lacks `data`, a genre lacks its description, or a price is not a number. */
  function GameDetails(storeId: string, resp: Response<map<string, AppEntry>>): (r: Outcome<Option<Details>>)
    ensures r == Returned(None) <==> resp.NonOk? || (resp.Ok? && !Listed(storeId, resp.body))
    ensures r.Raised? <==> (resp.Unreadable? || (resp.Ok? && Listed(storeId, resp.body) && Malformed(resp.body[storeId])))
    ensures r.Returned? && r.value.Some? ==>
      resp.Ok? && Listed(storeId, resp.body) && resp.body[storeId].data.Some? &&
      var a, x := resp.body[storeId].data.value, r.value.value;
      && x.genres == Descriptions(a.genres).value
      && x.isFree == a.isFree.GetOr(false)
      && x.price == FromMinor(Convert(a.priceOverview.final, 0).value)
      && x.originalPrice == FromMinor(Convert(a.priceOverview.initial, 0).value)
      && x.discountPercent == a.priceOverview.discountPercent.GetOr(0)
  {
    match resp
    case NonOk => Returned(None)
    case Unreadable => Raised
    case Ok(m) =>
      if !Listed(storeId, m) then Returned(None)
      else
        match m[storeId].data
        case None => Raised
        case Some(a) =>
          var genres := Descriptions(a.genres);
          var final := Convert(a.priceOverview.final, 0);
          var initial := Convert(a.priceOverview.initial, 0);
          if genres.None? || final.Raised? || initial.Raised? then Raised
          else
            Returned(Some(Details(genres.value, a.isFree.GetOr(false), FromMinor(final.value),
                                  FromMinor(initial.value), a.priceOverview.discountPercent.GetOr(0))))
  }

  /** The details step both listings end with: a lookup that raises drops the
      row, empty details keep the deal as it is, and non-empty details replace
      its genres and nothing else. */
  function Enrich(deal: GameDeal, details: Outcome<Option<Details>>): (r: Option<GameDeal>)
    ensures r.None? <==> details.Raised?
    ensures details == Returned(None) ==> r == Some(deal)
    ensures details.Returned? && details.value.Some? ==> r == Some(deal.(genres := details.value.value.genres))
  {
    match details
    case Raised => None
    case Returned(None) => Some(deal)
    case Returned(Some(x)) => Some(deal.(genres := x.genres))
  }

  // ---------------------------------------------------------------- search rows

  /** An `a.search_result_row` of the search page: the text of its `span.title`,
      its `data-ds-appid` and `href` attributes, the text of its
      `div.search_discount span` and of its `div.search_price`, each `None` when
      the element or attribute is missing. */
  datatype Row = Row(title: Option<string>, appId: Option<string>, href: Option<string>,
                     discountText: Option<string>, priceText: Option<string>)

  /** The body of `get_free_games`' loop for one row; `None` when the row is skipped. */
  function FreeRow(row: Row, lookup: Lookup): (r: Option<GameDeal>)
    ensures r.Some? ==>
      && FreeShaped(r.value) && r.value.platform == "steam" && r.value.originalPrice == 0.0
      && row.title.Some? && r.value.title == Strip(row.title.value, IsSpace)
      && row.appId == Some(r.value.storeId) && row.href == Some(r.value.url)
    ensures r.Some? ==> (row.appId.Some? &&
      var x := GameDetails(row.appId.value, lookup(row.appId.value));
      && !x.Raised?
      && r.value.genres == (if x.Returned? && x.value.Some? then x.value.value.genres else []))
  {
    if row.title.None? || row.appId.None? || row.href.None? then None
    else
      var deal := GameDeal(Strip(row.title.value, IsSpace), "steam", row.appId.value, 0.0, 0.0, 100,
                           true, row.href.value, []);
      Enrich(deal, GameDetails(row.appId.value, lookup(row.appId.value)))
  }

  function FreeKeeper(lookup: Lookup): Row -> Option<GameDeal> {
    row => FreeRow(row, lookup)
  }

  /** `get_free_games` on the free-games search page; `lookup` is the details endpoint. */
  function FreeGames(resp: Response<seq<Row>>, lookup: Lookup): Outcome<seq<GameDeal>> {
    match resp
    case NonOk => Returned([])
    case Unreadable => Raised
    case Ok(rows) => Returned(FilterMap(rows, FreeKeeper(lookup)))
  }

  method GetFreeGames(resp: Response<seq<Row>>, lookup: Lookup) returns (r: Outcome<seq<GameDeal>>)
    ensures r == FreeGames(resp, lookup)
  {
    match resp
    case NonOk => return Returned([]);
    case Unreadable => return Raised;
    case Ok(rows) =>
      var keep := FreeKeeper(lookup);
      var games: seq<GameDeal> := [];
      var i := 0;
      while i < |rows|
        invariant 0 <= i <= |rows|
        invariant games + FilterMap(rows[i..], keep) == FilterMap(rows, keep)
      {
        FilterMapStep(games, rows, i, keep);
        match keep(rows[i]) {
          case Some(game) => games := games + [game];
          case None =>
        }
        i := i + 1;
      }
      assert rows[i..] == [];
      assert FilterMap(rows[i..], keep) == [];
      assert games + [] == games;
      return Returned(games);
  }

  /** Every deal `get_free_games` returns is free, has no original price, and
      comes from a row with a title, an application id and a link. */
  lemma FreeGamesAreFree(rows: seq<Row>, lookup: Lookup)
    ensures forall d :: d in FreeGames(Ok(rows), lookup).value ==>
      && FreeShaped(d) && d.platform == "steam" && d.originalPrice == 0.0
      && exists row :: row in rows && FreeRow(row, lookup) == Some(d)
  {
    forall d | d in FreeGames(Ok(rows), lookup).value
      ensures FreeShaped(d) && d.platform == "steam" && d.originalPrice == 0.0
      ensures exists row :: row in rows && FreeRow(row, lookup) == Some(d)
    {
      FilterMapMember(rows, FreeKeeper(lookup), d);
      var i :| 0 <= i < |rows| && FreeKeeper(lookup)(rows[i]) == Some(d);
    }
  }

  /** A row with its title, id and link whose details lookup does not raise is kept. */
  lemma FreeRowKept(row: Row, lookup: Lookup)
    requires row.title.Some? && row.appId.Some? && row.href.Some?
    requires !GameDetails(row.appId.value, lookup(row.appId.value)).Raised?
    ensures FreeRow(row, lookup).Some?
  {
  }

  // ---------------------------------------------------------------- price texts

  /** `discount_span.text.strip('-%')`. */
  predicate DashOrPercent(c: char) { c == '-' || c == '%' }

  /** `float(p.strip().replace('₽', '').replace(',', ''))` for one token. */
  function PriceOf(token: string): (r: Option<real>)
    ensures Strip(token, IsSpace) == "" ==> r.None?
    ensures r.Some? ==> forall i :: 0 <= i < |token| && !IsSpace(token[i]) ==> PriceChar(token[i])
  {
    PriceChars(token);
    ParseFloat(Cleaned(token))
  }

  /** The characters a price token may hold besides whitespace. */
  predicate PriceChar(c: char) {
    IsDigit(c) || c == '.' || IsSign(c) || c == ',' || c == Ruble
  }

  /** `p.strip().replace('₽', '').replace(',', '')`. */
  function Cleaned(token: string): string {
    Without(Without(Strip(token, IsSpace), Ruble), ',')
  }

  /** A token `float()` accepts once cleaned holds only price characters and whitespace. */
  lemma PriceChars(token: string)
    ensures FloatText(Strip(Cleaned(token), IsSpace)) ==>
      forall i :: 0 <= i < |token| && !IsSpace(token[i]) ==> PriceChar(token[i])
  {
    if FloatText(Strip(Cleaned(token), IsSpace)) {
      StripKeepsInner(token);
      forall i | 0 <= i < |token| && !IsSpace(token[i]) ensures PriceChar(token[i]) {
        if token[i] != Ruble && token[i] != ',' {
          KeptByCleaning(token, token[i]);
        }
      }
    }
  }

  /** A character of the stripped token other than `₽` and `,` is still there
      after cleaning, and is one `float()` accepts. */
  lemma KeptByCleaning(token: string, c: char)
    requires FloatText(Strip(Cleaned(token), IsSpace))
    requires c in Strip(token, IsSpace) && !IsSpace(c) && c != Ruble && c != ','
    ensures IsDigit(c) || c == '.' || IsSign(c)
  {
    var a := Strip(token, IsSpace);
    assert c in multiset(a);
    assert c in multiset(Without(a, Ruble));
    assert c in multiset(Cleaned(token));
    StripKeepsInner(Cleaned(token));
    var t := Strip(Cleaned(token), IsSpace);
    var k :| 0 <= k < |Cleaned(token)| && Cleaned(token)[k] == c;
    var j :| 0 <= j < |t| && t[j] == c;
  }

  /** A price with kopecks, `1999.50₽`, reads as `float()` reads `1999.50`. */
  lemma RublePointPrice(n: nat, f: string)
    requires AllDigits(f)
    ensures PriceOf(Decimal(n) + "." + f + [Ruble]) == Some(Magnitude(Decimal(n), f))
  {
    var d := Decimal(n) + "." + f;
    var t := d + [Ruble];
    assert forall i :: 0 <= i < |d| ==> IsDigit(d[i]) || d[i] == '.';
    assert IsDigit(t[0]) && !IsSpace(t[|t| - 1]);
    StripUnpadded(t);
    assert Ruble !in d && ',' !in d;
    WithoutAppend(d, [Ruble], Ruble);
    assert Without([Ruble], Ruble) == [];
    assert Without(t, Ruble) == d;
    assert Cleaned(t) == d;
    ParseFloatFraction(n, f);
  }

  /** All tokens converted, or `None` when one of the conversions raises. */
  function PricesOf(tokens: seq<string>): (r: Option<seq<real>>)
    ensures r.Some? ==> |r.value| == |tokens|
  {
    if |tokens| == 0 then Some([])
    else
      match PriceOf(tokens[0])
      case None => None
      case Some(p) =>
        match PricesOf(tokens[1..])
        case None => None
        case Some(rest) => Some([p] + rest)
  }

  /** The list of prices read from a `div.search_price` text. Tokens of `split()`
      are never blank, so the parser's `if p.strip()` keeps every one. */
  function ParsePrices(text: string): Option<seq<real>> {
    PricesOf(Split(Strip(text, IsSpace)))
  }

  /** The price block reads as at least two prices, the first being `original`
      and the last `current`. */
  predicate PricesRead(text: string, original: real, current: real) {
    var ps := ParsePrices(text);
    ps.Some? && |ps.value| >= 2 && original == First(ps.value) && current == Last(ps.value)
  }

  /** `prices[0]`. */
  function First(ps: seq<real>): real
    requires |ps| > 0
  {
    ps[0]
  }

  /** `prices[-1]`. */
  function Last(ps: seq<real>): real
    requires |ps| > 0
  {
    ps[|ps| - 1]
  }

  /** A price as the search page prints a whole number of roubles: `1999₽`. */
  function RubleText(n: nat): string {
    Decimal(n) + [Ruble]
  }

  function RubleTexts(ns: seq<nat>): (r: seq<string>)
    ensures |r| == |ns| && forall i :: 0 <= i < |ns| ==> r[i] == RubleText(ns[i])
  {
    if |ns| == 0 then [] else [RubleText(ns[0])] + RubleTexts(ns[1..])
  }

  function Reals(ns: seq<nat>): (r: seq<real>)
    ensures |r| == |ns| && forall i :: 0 <= i < |ns| ==> r[i] == ns[i] as real
  {
    if |ns| == 0 then [] else [ns[0] as real] + Reals(ns[1..])
  }

  /** The digits of `str(n)` are neither whitespace nor a sign or separator the
      price reader removes. */
  lemma DecimalUnmarked(n: nat)
    ensures forall i :: 0 <= i < |Decimal(n)| ==>
      !IsSpace(Decimal(n)[i]) && Decimal(n)[i] != Ruble && Decimal(n)[i] != ','
  {
    var d := Decimal(n);
    forall i | 0 <= i < |d| ensures !IsSpace(d[i]) && d[i] != Ruble && d[i] != ',' {
      assert IsDigit(d[i]);
    }
  }

  lemma RubleTextPrice(n: nat)
    ensures IsWord(RubleText(n))
    ensures PriceOf(RubleText(n)) == Some(n as real)
  {
    var d := Decimal(n);
    var t := RubleText(n);
    DecimalUnmarked(n);
    assert IsWord(t) by {
      forall i | 0 <= i < |t| ensures !IsSpace(t[i]) {
        if i < |d| { assert t[i] == d[i]; }
      }
    }
    StripUnpadded(t);
    assert Ruble !in d && ',' !in d;
    WithoutAppend(d, [Ruble], Ruble);
    assert Without([Ruble], Ruble) == [];
    assert Without(t, Ruble) == d;
    ParseFloatDecimal(n);
  }

  lemma {:induction false} PricesOfRubleTexts(ns: seq<nat>)
    ensures PricesOf(RubleTexts(ns)) == Some(Reals(ns))
  {
    if |ns| > 0 {
      RubleTextPrice(ns[0]);
      assert RubleTexts(ns)[1..] == RubleTexts(ns[1..]);
      PricesOfRubleTexts(ns[1..]);
    }
  }

  /** A price block printing whole-rouble amounts separated by spaces (the old
      price, then the new one) reads back as those amounts, in order. */
  lemma ParsePricesOfRubleTexts(ns: seq<nat>)
    requires |ns| > 0
    ensures ParsePrices(JoinSpaced(RubleTexts(ns))) == Some(Reals(ns))
  {
    var ws := RubleTexts(ns);
    forall k | 0 <= k < |ws| ensures IsWord(ws[k]) {
      RubleTextPrice(ns[k]);
    }
    JoinSpacedUnpadded(ws);
    StripUnpadded(JoinSpaced(ws));
    SplitJoinSpaced(ws);
    PricesOfRubleTexts(ns);
  }

  lemma {:induction false} JoinSpacedUnpadded(ws: seq<string>)
    requires |ws| > 0 && forall k :: 0 <= k < |ws| ==> IsWord(ws[k])
    ensures var s := JoinSpaced(ws); |s| > 0 && !IsSpace(s[0]) && !IsSpace(s[|s| - 1])
  {
    assert IsWord(ws[0]);
    if |ws| > 1 {
      JoinSpacedUnpadded(ws[1..]);
      var t := JoinSpaced(ws[1..]);
      assert JoinSpaced(ws) == ws[0] + " " + t;
      assert (ws[0] + " " + t)[|ws[0]| + 1 + |t| - 1] == t[|t| - 1];
    }
  }

  /** A discount badge `-75%` reads as 75. */
  lemma DiscountBadge(n: nat)
    ensures ParseInt(Strip("-" + Decimal(n) + "%", DashOrPercent)) == Some(n)
  {
    var core := Decimal(n);
    assert !DashOrPercent(core[0]) && !DashOrPercent(core[|core| - 1]) by {
      assert IsDigit(core[0]) && IsDigit(core[|core| - 1]);
    }
    StripFrame("-", core, "%", DashOrPercent);
    ParseIntDecimal(n);
  }

  // ---------------------------------------------------------------- get_deals

  /** The part of `get_deals`' loop body before the details lookup, in the
      parser's order of checks: a discount badge, its number, the threshold,
      title, id and link, a price block, and at least two prices in it. */
  function PricedRow(row: Row, minDiscount: int): (r: Option<GameDeal>)
    ensures r.Some? ==>
      && row.discountText.Some? && row.priceText.Some? && row.appId == Some(r.value.storeId)
      && row.title.Some? && r.value.title == Strip(row.title.value, IsSpace)
      && row.href == Some(r.value.url) && r.value.platform == "steam" && !r.value.isFree
      && r.value.genres == []
      && ParseInt(Strip(row.discountText.value, DashOrPercent)) == Some(r.value.discountPercent)
      && r.value.discountPercent >= minDiscount
      && PricesRead(row.priceText.value, r.value.originalPrice, r.value.currentPrice)
  {
    if row.discountText.None? then None
    else
      var discount := ParseInt(Strip(row.discountText.value, DashOrPercent));
      if discount.None? || discount.value < minDiscount then None
      else if row.title.None? || row.appId.None? || row.href.None? || row.priceText.None? then None
      else
        var prices := ParsePrices(row.priceText.value);
        if prices.None? || |prices.value| < 2 then None
        else
          Some(GameDeal(Strip(row.title.value, IsSpace), "steam", row.appId.value,
                        Last(prices.value), First(prices.value), discount.value, false,
                        row.href.value, []))
  }

  /** The body of `get_deals`' loop for one row: the priced row, then its details. */
  function DealRow(row: Row, minDiscount: int, lookup: Lookup): (r: Option<GameDeal>)
    ensures r.Some? <==>
      PricedRow(row, minDiscount).Some? && !GameDetails(row.appId.value, lookup(row.appId.value)).Raised?
    ensures r.Some? ==> r.value == PricedRow(row, minDiscount).value.(genres := r.value.genres)
    ensures r.Some? ==> (row.appId.Some? &&
      var x := GameDetails(row.appId.value, lookup(row.appId.value));
      r.value.genres == (if x.Returned? && x.value.Some? then x.value.value.genres else []))
  {
    match PricedRow(row, minDiscount)
    case None => None
    case Some(deal) => Enrich(deal, GameDetails(deal.storeId, lookup(deal.storeId)))
  }

  function DealKeeper(minDiscount: int, lookup: Lookup): Row -> Option<GameDeal> {
    row => DealRow(row, minDiscount, lookup)
  }

  /** `get_deals(min_discount)` on the specials search page. */
  function DealsListing(resp: Response<seq<Row>>, minDiscount: int, lookup: Lookup): Outcome<seq<GameDeal>> {
    match resp
    case NonOk => Returned([])
    case Unreadable => Raised
    case Ok(rows) => Returned(FilterMap(rows, DealKeeper(minDiscount, lookup)))
  }

  method GetDeals(resp: Response<seq<Row>>, minDiscount: int, lookup: Lookup) returns (r: Outcome<seq<GameDeal>>)
    ensures r == DealsListing(resp, minDiscount, lookup)
  {
    match resp
    case NonOk => return Returned([]);
    case Unreadable => return Raised;
    case Ok(rows) =>
      var keep := DealKeeper(minDiscount, lookup);
      var games: seq<GameDeal> := [];
      var i := 0;
      while i < |rows|
        invariant 0 <= i <= |rows|
        invariant games + FilterMap(rows[i..], keep) == FilterMap(rows, keep)
      {
        FilterMapStep(games, rows, i, keep);
        match keep(rows[i]) {
          case Some(game) => games := games + [game];
          case None =>
        }
        i := i + 1;
      }
      assert rows[i..] == [];
      assert FilterMap(rows[i..], keep) == [];
      assert games + [] == games;
      return Returned(games);
  }

  /** What a kept row gives: the threshold is met, the deal is not free, its
      discount is the badge's number, and its original and current prices are the
      first and last of the price block. */
  lemma DealRowSound(row: Row, minDiscount: int, lookup: Lookup)
    requires DealRow(row, minDiscount, lookup).Some?
    ensures var d := DealRow(row, minDiscount, lookup).value;
      && d.discountPercent >= minDiscount && !d.isFree && d.platform == "steam"
      && row.discountText.Some? && row.priceText.Some? && row.appId == Some(d.storeId) && row.href == Some(d.url)
      && ParseInt(Strip(row.discountText.value, DashOrPercent)) == Some(d.discountPercent)
      && PricesRead(row.priceText.value, d.originalPrice, d.currentPrice)
  {
    var d := DealRow(row, minDiscount, lookup).value;
    var p := PricedRow(row, minDiscount).value;
    assert d == p.(genres := d.genres);
    assert d.originalPrice == p.originalPrice && d.currentPrice == p.currentPrice;
  }

  /** Every deal `get_deals` returns meets the threshold, is not free, and is
      what some listed row yields. */
  lemma DealsMeetThreshold(rows: seq<Row>, minDiscount: int, lookup: Lookup)
    ensures forall d :: d in DealsListing(Ok(rows), minDiscount, lookup).value ==>
      && d.discountPercent >= minDiscount && !d.isFree && d.platform == "steam"
      && exists row :: row in rows && DealRow(row, minDiscount, lookup) == Some(d)
  {
    var keep := DealKeeper(minDiscount, lookup);
    forall d | d in DealsListing(Ok(rows), minDiscount, lookup).value
      ensures d.discountPercent >= minDiscount && !d.isFree && d.platform == "steam"
      ensures exists row :: row in rows && DealRow(row, minDiscount, lookup) == Some(d)
    {
      FilterMapMember(rows, keep, d);
      var i :| 0 <= i < |rows| && keep(rows[i]) == Some(d);
      DealRowSound(rows[i], minDiscount, lookup);
    }
  }

  /** A complete row whose badge reads as `n` (at least the threshold), whose
      price block reads as at least two prices, and whose details lookup does not
      raise is kept, with discount `n` and the first and last price. */
  lemma DealRowKept(row: Row, n: int, ps: seq<real>, minDiscount: int, lookup: Lookup)
    requires n >= minDiscount && |ps| >= 2
    requires row.title.Some? && row.appId.Some? && row.href.Some?
    requires row.discountText.Some? && ParseInt(Strip(row.discountText.value, DashOrPercent)) == Some(n)
    requires row.priceText.Some? && ParsePrices(row.priceText.value) == Some(ps)
    requires !GameDetails(row.appId.value, lookup(row.appId.value)).Raised?
    ensures DealRow(row, minDiscount, lookup).Some?
    ensures DealRow(row, minDiscount, lookup).value.discountPercent == n
    ensures DealRow(row, minDiscount, lookup).value.originalPrice == First(ps)
    ensures DealRow(row, minDiscount, lookup).value.currentPrice == Last(ps)
  {
    assert PricedRow(row, minDiscount).Some?;
    DealRowSound(row, minDiscount, lookup);
  }

  /** A complete row with a badge `-n%` (n at least the threshold) and a price
      block of whole-rouble amounts `o₽ ... c₽` is kept, with discount n, original
      price o and current price c, and the genres of its details when they exist. */
  lemma DealRowOfWellFormedRow(row: Row, n: nat, ns: seq<nat>, minDiscount: int, lookup: Lookup)
    requires n >= minDiscount && |ns| >= 2
    requires row.title.Some? && row.appId.Some? && row.href.Some?
    requires row.discountText == Some("-" + Decimal(n) + "%")
    requires row.priceText == Some(JoinSpaced(RubleTexts(ns)))
    requires !GameDetails(row.appId.value, lookup(row.appId.value)).Raised?
    ensures DealRow(row, minDiscount, lookup).Some?
    ensures var d := DealRow(row, minDiscount, lookup).value;
      d.discountPercent == n && d.originalPrice == ns[0] as real && d.currentPrice == ns[|ns| - 1] as real
  {
    DiscountBadge(n);
    ParsePricesOfRubleTexts(ns);
    DealRowKept(row, n, Reals(ns), minDiscount, lookup);
    RealsEnds(ns);
  }

  lemma RealsEnds(ns: seq<nat>)
    requires |ns| > 0
    ensures First(Reals(ns)) == ns[0] as real && Last(Reals(ns)) == ns[|ns| - 1] as real
  {
  }

  // ---------------------------------------------------------------- search_game

  /** An entry of the suggestion document's `items`: its `type`, `str()` of its
      `id`, and its `name`; `BadItem` is not an object (`item.get` raises). */
  datatype Item = Item(kind: Option<string>, id: Option<string>, name: Option<string>) | BadItem

  /** `str(item.get('id'))`: a missing id becomes the text `None`. */
  function ItemId(id: Option<string>): string {
    id.GetOr("None")
  }

  /** One pass of the search loop: non-games and games without details are passed over. */
  function Probe(item: Item, lookup: Lookup): Outcome<Option<GameDeal>> {
    match item
    case BadItem => Raised
    case Item(kind, id, name) =>
      if kind != Some("game") then Returned(None)
      else
        var storeId := ItemId(id);
        match GameDetails(storeId, lookup(storeId))
        case Raised => Raised
        case Returned(None) => Returned(None)
        case Returned(Some(x)) =>
          Returned(Some(GameDeal(name.GetOr(""), "steam", storeId, x.price, x.originalPrice,
                                 x.discountPercent, x.isFree, AppUrl(storeId), x.genres)))
  }

  function Prober(lookup: Lookup): Item -> Outcome<Option<GameDeal>> {
    item => Probe(item, lookup)
  }

  /** `search_game`; `body` is `None` when the document is empty or has no `items`. */
  function Search(resp: Response<Option<seq<Item>>>, lookup: Lookup): Outcome<Option<GameDeal>> {
    match resp
    case NonOk => Returned(None)
    case Unreadable => Raised
    case Ok(None) => Returned(None)
    case Ok(Some(items)) => FirstFound(items, Prober(lookup))
  }

  method SearchGame(resp: Response<Option<seq<Item>>>, lookup: Lookup) returns (r: Outcome<Option<GameDeal>>)
    ensures r == Search(resp, lookup)
  {
    match resp
    case NonOk => return Returned(None);
    case Unreadable => return Raised;
    case Ok(None) => return Returned(None);
    case Ok(Some(items)) =>
      var probe := Prober(lookup);
      var i := 0;
      while i < |items|
        invariant 0 <= i <= |items|
        invariant FirstFound(items[i..], probe) == FirstFound(items, probe)
      {
        assert items[i..][1..] == items[i + 1..];
        match items[i] {
          case BadItem => return Raised;
          case Item(kind, id, name) =>
            if kind == Some("game") {
              var storeId := ItemId(id);
              var details := GameDetails(storeId, lookup(storeId));
              match details {
                case Raised => return Raised;
                case Returned(None) =>
                case Returned(Some(x)) =>
                  return Returned(Some(GameDeal(name.GetOr(""), "steam", storeId, x.price, x.originalPrice,
                                                x.discountPercent, x.isFree, AppUrl(storeId), x.genres)));
              }
            }
        }
        i := i + 1;
      }
      return Returned(None);
  }

  /** A deal found by `search_game` is a game's: its item has type `game`, and
      the deal's id and link are that item's id; every item before it was passed over. */
  lemma SearchFindsFirstGame(items: seq<Item>, lookup: Lookup, d: GameDeal)
    ensures Search(Ok(Some(items)), lookup) == Returned(Some(d)) <==> exists k :: FoundAt(items, Prober(lookup), d, k)
    ensures Search(Ok(Some(items)), lookup) == Returned(Some(d)) ==>
      exists k, x: Details :: 0 <= k < |items| && items[k].Item? && items[k].kind == Some("game")
        && GameDetails(d.storeId, lookup(d.storeId)) == Returned(Some(x))
        && d.title == items[k].name.GetOr("") && d.platform == "steam"
        && d.storeId == ItemId(items[k].id) && d.url == AppUrl(d.storeId)
        && d.currentPrice == x.price && d.originalPrice == x.originalPrice
        && d.discountPercent == x.discountPercent && d.isFree == x.isFree && d.genres == x.genres
  {
    FirstFoundSome(items, Prober(lookup), d);
    if Search(Ok(Some(items)), lookup) == Returned(Some(d)) {
      var k :| FoundAt(items, Prober(lookup), d, k);
      assert Probe(items[k], lookup) == Returned(Some(d));
      var id := ItemId(items[k].id);
      var x := GameDetails(id, lookup(id)).value.value;
      assert GameDetails(id, lookup(id)) == Returned(Some(x));
    }
  }
}
