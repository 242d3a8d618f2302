/** The Epic Games Store parser: free promotions, discounted catalogue entries,
    product search and product details, each read from already-decoded JSON. */
module EpicParser {
  import opened Wrappers
  import opened Deals
  import Text

  const BaseUrl := "https://store.epicgames.com"

  /** `f"{base_url}/store/p/{slug}"`. */
  function ProductUrl(slug: string): string {
    BaseUrl + "/store/p/" + slug
  }

  /** An entry of `tags`; `BadTag` is an entry that is not an object (`tag.get` raises). */
  datatype Tag = Tag(name: Option<string>) | BadTag

  /** An entry of an offer's nested `promotionalOffers`, with its
      `discountSetting.discountPercentage`; `BadPromo` is not an object. */
  datatype Promo = Promo(discountPercentage: Option<int>) | BadPromo

  /** An entry of `promotions.promotionalOffers`; a missing nested list is empty. */
  datatype Offer = Offer(promos: seq<Promo>) | BadOffer

  /** An entry of `data.Catalog.searchStore.elements`. `offers` is empty when
      `promotions` or its `promotionalOffers` is missing, null or empty.
      Prices are the `price.totalPrice` members, in minor units. */
  datatype Element =
    | Element(title: Option<string>, id: Option<string>, urlSlug: Option<string>,
              originalPrice: Field<int>, discountPrice: Field<int>,
              tags: seq<Tag>, offers: seq<Offer>)
    | BadElement

  /** `[tag.get('name', '') for tag in tags]`, which raises on an entry that is not an object. */
  function TagNames(tags: seq<Tag>): (r: Outcome<seq<string>>)
    ensures r.Raised? <==> BadTag in tags
    ensures r.Returned? ==>
      |r.value| == |tags| && forall i :: 0 <= i < |tags| ==> r.value[i] == tags[i].name.GetOr("")
  {
    if |tags| == 0 then Returned([])
    else
      match tags[0]
      case BadTag => Raised
      case Tag(name) =>
        match TagNames(tags[1..])
        case Raised => Raised
        case Returned(rest) => Returned([name.GetOr("")] + rest)
  }

  // ---------------------------------------------------------------- get_free_games

  /** The deal `get_free_games` builds for a game with a free promotion. */
  function FreeDeal(g: Element): (r: Outcome<GameDeal>)
    requires g.Element?
    ensures r.Raised? <==> g.originalPrice.Invalid? || BadTag in g.tags
    ensures r.Returned? ==>
      && FreeShaped(r.value) && r.value.platform == "epic"
      && r.value.originalPrice == FromMinor(Convert(g.originalPrice, 0).value)
      && r.value.genres == TagNames(g.tags).value
      && r.value.title == g.title.GetOr("") && r.value.storeId == g.id.GetOr("")
      && r.value.url == ProductUrl(g.urlSlug.GetOr(""))
  {
    var original := Convert(g.originalPrice, 0);
    var genres := TagNames(g.tags);
    if original.Raised? || genres.Raised? then Raised
    else
      Returned(GameDeal(g.title.GetOr(""), "epic", g.id.GetOr(""), 0.0, FromMinor(original.value),
                        100, true, ProductUrl(g.urlSlug.GetOr("")), genres.value))
  }

  /** Deals appended so far for one game, and whether an exception has left its loops. */
  datatype Scan = Scan(deals: seq<GameDeal>, raised: bool)

  /** One pass of the innermost loop: a promotion of 0 percent appends the game's deal. */
  function PromoStep(s: Scan, p: Promo, g: Element): Scan
    requires g.Element?
  {
    match p
    case BadPromo => Scan(s.deals, true)
    case Promo(pct) =>
      if pct == Some(0) then
        match FreeDeal(g)
        case Raised => Scan(s.deals, true)
        case Returned(d) => Scan(s.deals + [d], false)
      else s
  }

  /** The loop over one offer's promotions, from state `s`, stopping at an exception. */
  function ScanPromos(s: Scan, ps: seq<Promo>, g: Element): Scan
    requires g.Element?
    decreases |ps|
  {
    if s.raised || |ps| == 0 then s else ScanPromos(PromoStep(s, ps[0], g), ps[1..], g)
  }

  /** The loop over a game's offers, from state `s`, stopping at an exception. */
  function ScanOffers(s: Scan, os: seq<Offer>, g: Element): Scan
    requires g.Element?
    decreases |os|
  {
    if s.raised || |os| == 0 then s
    else
      match os[0]
      case BadOffer => Scan(s.deals, true)
      case Offer(ps) => ScanOffers(ScanPromos(s, ps, g), os[1..], g)
  }

  /** What one element of the listing contributes: nothing without promotions,
      otherwise every deal appended before its loops ended or raised. */
  function FreeDealsOf(g: Element): seq<GameDeal> {
    if g.BadElement? || |g.offers| == 0 then [] else ScanOffers(Scan([], false), g.offers, g).deals
  }

  function FreeDealsOfAll(es: seq<Element>): seq<GameDeal> {
    if |es| == 0 then [] else FreeDealsOf(es[0]) + FreeDealsOfAll(es[1..])
  }

  /** `get_free_games` on the response of the free-games promotions endpoint. */
  function FreeGames(resp: Response<seq<Element>>): Outcome<seq<GameDeal>> {
    match resp
    case NonOk => Returned([])
    case Unreadable => Raised
    case Ok(es) => Returned(FreeDealsOfAll(es))
  }

  method GetFreeGames(resp: Response<seq<Element>>) returns (r: Outcome<seq<GameDeal>>)
    ensures r == FreeGames(resp)
  {
    match resp
    case NonOk => return Returned([]);
    case Unreadable => return Raised;
    case Ok(elements) =>
      var games: seq<GameDeal> := [];
      var i := 0;
      while i < |elements|
        invariant 0 <= i <= |elements|
        invariant games + FreeDealsOfAll(elements[i..]) == FreeDealsOfAll(elements)
      {
        FreeDealsOfAllStep(games, elements, i);
        var found := ScanGame(elements[i]);
        games := games + found;
        i := i + 1;
      }
      assert elements[i..] == [];
      assert FreeDealsOfAll(elements[i..]) == [];
      assert games + [] == games;
      return Returned(games);
  }

  /** One pass of the listing loop keeps the games collected so far a prefix of the listing's. */
  lemma FreeDealsOfAllStep(games: seq<GameDeal>, es: seq<Element>, i: nat)
    requires i < |es| && games + FreeDealsOfAll(es[i..]) == FreeDealsOfAll(es)
    ensures games + FreeDealsOf(es[i]) + FreeDealsOfAll(es[i + 1..]) == FreeDealsOfAll(es)
  {
    SliceRest(es, i);
    assert FreeDealsOfAll(es[i..]) == FreeDealsOf(es[i]) + FreeDealsOfAll(es[i + 1..]);
    Text.AppendAssoc(games, FreeDealsOf(es[i]), FreeDealsOfAll(es[i + 1..]));
  }

  /** The body of the listing loop for one game: its offers, stopping at an exception. */
  method ScanGame(game: Element) returns (found: seq<GameDeal>)
    ensures found == FreeDealsOf(game)
  {
    if game.BadElement? || |game.offers| == 0 {
      return [];
    }
    var scan := Scan([], false);
    var j := 0;
    while j < |game.offers| && !scan.raised
      invariant 0 <= j <= |game.offers|
      invariant ScanOffers(scan, game.offers[j..], game) == ScanOffers(Scan([], false), game.offers, game)
    {
      assert game.offers[j..][1..] == game.offers[j + 1..];
      match game.offers[j] {
        case BadOffer =>
          scan := Scan(scan.deals, true);
        case Offer(promos) =>
          scan := ScanOffer(scan, promos, game);
      }
      j := j + 1;
    }
    return scan.deals;
  }

  /** The loop over one offer's promotions. */
  method ScanOffer(entry: Scan, promos: seq<Promo>, game: Element) returns (scan: Scan)
    requires game.Element?
    ensures scan == ScanPromos(entry, promos, game)
  {
    scan := entry;
    var k := 0;
    while k < |promos| && !scan.raised
      invariant 0 <= k <= |promos|
      invariant ScanPromos(scan, promos[k..], game) == ScanPromos(entry, promos, game)
    {
      assert promos[k..][1..] == promos[k + 1..];
      match promos[k] {
        case BadPromo =>
          scan := Scan(scan.deals, true);
        case Promo(pct) =>
          if pct == Some(0) {
            match FreeDeal(game) {
              case Raised => scan := Scan(scan.deals, true);
              case Returned(deal) => scan := Scan(scan.deals + [deal], false);
            }
          }
      }
      k := k + 1;
    }
  }

  // ---------------------------------------------------------------- properties of get_free_games

  /** `k` copies of `d`. */
  function Repeat(d: GameDeal, k: nat): (r: seq<GameDeal>)
    ensures |r| == k && forall i :: 0 <= i < k ==> r[i] == d
  {
    if k == 0 then [] else [d] + Repeat(d, k - 1)
  }

  predicate PromosWellFormed(ps: seq<Promo>) {
    forall i :: 0 <= i < |ps| ==> ps[i].Promo?
  }

  /** Promotions of 0 percent met before the first malformed promotion. */
  function ZerosReached(ps: seq<Promo>): nat {
    if |ps| == 0 then 0
    else
      match ps[0]
      case BadPromo => 0
      case Promo(pct) => (if pct == Some(0) then 1 else 0) + ZerosReached(ps[1..])
  }

  /** Promotions of 0 percent met, across offers, before the first malformed offer or promotion. */
  function ZerosReachedInOffers(os: seq<Offer>): nat {
    if |os| == 0 then 0
    else
      match os[0]
      case BadOffer => 0
      case Offer(ps) => ZerosReached(ps) + (if PromosWellFormed(ps) then ZerosReachedInOffers(os[1..]) else 0)
  }

  lemma {:induction false} ScanPromosCopies(acc: seq<GameDeal>, ps: seq<Promo>, g: Element, d: GameDeal)
    requires g.Element? && FreeDeal(g) == Returned(d)
    decreases |ps|
    ensures ScanPromos(Scan(acc, false), ps, g) == Scan(acc + Repeat(d, ZerosReached(ps)), !PromosWellFormed(ps))
  {
    if |ps| == 0 {
      assert acc + [] == acc;
    } else {
      match ps[0]
      case BadPromo =>
        assert acc + [] == acc;
      case Promo(pct) =>
        var acc' := if pct == Some(0) then acc + [d] else acc;
        ScanPromosCopies(acc', ps[1..], g, d);
        assert PromosWellFormed(ps) <==> PromosWellFormed(ps[1..]) by {
          assert forall i :: 1 <= i < |ps| ==> ps[i] == ps[1..][i - 1];
        }
        if pct == Some(0) {
          assert acc + [d] + Repeat(d, ZerosReached(ps[1..])) == acc + Repeat(d, ZerosReached(ps));
        }
    }
  }

  lemma {:induction false} ScanOffersCopies(acc: seq<GameDeal>, os: seq<Offer>, g: Element, d: GameDeal)
    requires g.Element? && FreeDeal(g) == Returned(d)
    decreases |os|
    ensures ScanOffers(Scan(acc, false), os, g).deals == acc + Repeat(d, ZerosReachedInOffers(os))
  {
    if |os| == 0 {
      assert acc + [] == acc;
    } else {
      match os[0]
      case BadOffer =>
        assert acc + [] == acc;
      case Offer(ps) =>
        ScanPromosCopies(acc, ps, g, d);
        var acc' := acc + Repeat(d, ZerosReached(ps));
        if PromosWellFormed(ps) {
          ScanOffersCopies(acc', os[1..], g, d);
          assert Repeat(d, ZerosReached(ps)) + Repeat(d, ZerosReachedInOffers(os[1..]))
              == Repeat(d, ZerosReached(ps) + ZerosReachedInOffers(os[1..]));
        } else {
          assert acc' == acc + Repeat(d, ZerosReachedInOffers(os));
        }
    }
  }

  /** A game yields one copy of its free deal per promotion of 0 percent, counting
      those met before a malformed offer or promotion ended its loops: the copies
      appended before the exception are kept. */
  lemma FreeDealsPerPromotion(g: Element)
    requires g.Element? && FreeDeal(g).Returned?
    ensures FreeDealsOf(g) == (if |g.offers| == 0 then [] else Repeat(FreeDeal(g).value, ZerosReachedInOffers(g.offers)))
  {
    if |g.offers| > 0 {
      ScanOffersCopies([], g.offers, g, FreeDeal(g).value);
    }
  }

  lemma {:induction false} ScanPromosNothing(acc: seq<GameDeal>, ps: seq<Promo>, g: Element)
    requires g.Element? && FreeDeal(g).Raised?
    decreases |ps|
    ensures ScanPromos(Scan(acc, false), ps, g).deals == acc
  {
    if |ps| > 0 && ps[0].Promo? && ps[0].discountPercentage != Some(0) {
      ScanPromosNothing(acc, ps[1..], g);
    }
  }

  lemma {:induction false} ScanOffersNothing(acc: seq<GameDeal>, os: seq<Offer>, g: Element)
    requires g.Element? && FreeDeal(g).Raised?
    decreases |os|
    ensures ScanOffers(Scan(acc, false), os, g).deals == acc
  {
    if |os| > 0 && os[0].Offer? {
      ScanPromosNothing(acc, os[0].promos, g);
      var s := ScanPromos(Scan(acc, false), os[0].promos, g);
      if !s.raised {
        ScanOffersNothing(acc, os[1..], g);
      }
    }
  }

  /** A game whose deal cannot be built (a bad price or tag) yields nothing: the
      exception comes at its first free promotion, before anything is appended. */
  lemma FreeDealsNoneWhenUnbuildable(g: Element)
    requires g.Element? && FreeDeal(g).Raised?
    ensures FreeDealsOf(g) == []
  {
    if |g.offers| > 0 {
      ScanOffersNothing([], g.offers, g);
    }
  }

  lemma {:induction false} FreeDealsOfAllMember(es: seq<Element>, d: GameDeal)
    requires d in FreeDealsOfAll(es)
    ensures exists i :: 0 <= i < |es| && es[i].Element? && FreeDeal(es[i]) == Returned(d)
  {
    var g := es[0];
    if d in FreeDealsOf(g) {
      if FreeDeal(g).Returned? {
        FreeDealsPerPromotion(g);
      } else {
        FreeDealsNoneWhenUnbuildable(g);
      }
    } else {
      FreeDealsOfAllMember(es[1..], d);
      var i :| 0 <= i < |es[1..]| && es[1..][i].Element? && FreeDeal(es[1..][i]) == Returned(d);
      assert es[i + 1] == es[1..][i];
    }
  }

  /** Every deal `get_free_games` returns is free (price 0, 100 percent off), is
      on Epic, and is the deal of some listed game: original price from that game's
      `originalPrice` divided by 100, one genre per tag. */
  lemma FreeGamesAreFree(es: seq<Element>)
    ensures forall d :: d in FreeGames(Ok(es)).value ==>
      && FreeShaped(d) && d.platform == "epic"
      && exists g :: g in es && g.Element? && FreeDeal(g) == Returned(d)
  {
    forall d | d in FreeGames(Ok(es)).value
      ensures FreeShaped(d) && d.platform == "epic"
      ensures exists g :: g in es && g.Element? && FreeDeal(g) == Returned(d)
    {
      FreeDealsOfAllMember(es, d);
    }
  }

  /** Games are handled independently and in listing order. */
  lemma {:induction false} FreeDealsOfAllAppend(a: seq<Element>, b: seq<Element>)
    ensures FreeDealsOfAll(a + b) == FreeDealsOfAll(a) + FreeDealsOfAll(b)
  {
    if |a| == 0 {
      assert a + b == b;
    } else {
      assert (a + b)[1..] == a[1..] + b;
      FreeDealsOfAllAppend(a[1..], b);
    }
  }

  // ---------------------------------------------------------------- get_deals

  /** What one catalogue element yields in `get_deals`: a deal, or `None` when the
      element is skipped (free or unpriced, below the threshold, or raising). */
  function DiscountDeal(g: Element, minDiscount: int): (r: Option<GameDeal>)
    ensures r.Some? ==> var d := r.value;
      && g.Element? && d.platform == "epic" && !d.isFree && d.genres == []
      && d.title == g.title.GetOr("") && d.url == ProductUrl(g.urlSlug.GetOr("")) && d.storeId == g.id.GetOr("")
      && d.originalPrice != 0.0 && d.currentPrice != d.originalPrice
      && g.originalPrice != Invalid && g.discountPrice != Invalid
      && d.originalPrice == FromMinor(Convert(g.originalPrice, 0).value)
      && d.currentPrice == FromMinor(Convert(g.discountPrice, 0).value)
      && d.discountPercent == PercentOff(d.originalPrice, d.currentPrice)
      && d.discountPercent >= minDiscount
  {
    if g.BadElement? then None
    else
      var o := Convert(g.originalPrice, 0);
      var c := Convert(g.discountPrice, 0);
      if o.Raised? || c.Raised? then None
      else
        var original, current := FromMinor(o.value), FromMinor(c.value);
        if original == 0.0 || current == original then None
        else
          var discount := PercentOff(original, current);
          if discount < minDiscount then None
          else
            Some(GameDeal(g.title.GetOr(""), "epic", g.id.GetOr(""), current, original, discount,
                          false, ProductUrl(g.urlSlug.GetOr("")), []))
  }

  /** An element is kept exactly when both prices convert (a missing one reads
      as 0), the original price is not 0, the two prices differ, and the
      truncated discount reaches the threshold. */
  lemma DiscountDealKept(g: Element, minDiscount: int)
    ensures DiscountDeal(g, minDiscount).Some? <==>
      && g.Element? && !g.originalPrice.Invalid? && !g.discountPrice.Invalid?
      && var o, c := Convert(g.originalPrice, 0).value, Convert(g.discountPrice, 0).value;
         && o != 0 && c != o
         && PercentOff(FromMinor(o), FromMinor(c)) >= minDiscount
  {
  }

  /** `get_deals(min_discount)` on the response of the catalogue query. */
  function DealsListing(resp: Response<seq<Element>>, minDiscount: int): Outcome<seq<GameDeal>> {
    match resp
    case NonOk => Returned([])
    case Unreadable => Raised
    case Ok(es) => Returned(FilterMap(es, Keeper(minDiscount)))
  }

  function Keeper(minDiscount: int): Element -> Option<GameDeal> {
    g => DiscountDeal(g, minDiscount)
  }

  method GetDeals(resp: Response<seq<Element>>, minDiscount: int) returns (r: Outcome<seq<GameDeal>>)
    ensures r == DealsListing(resp, minDiscount)
  {
    match resp
    case NonOk => return Returned([]);
    case Unreadable => return Raised;
    case Ok(elements) =>
      var keep := Keeper(minDiscount);
      var games: seq<GameDeal> := [];
      var i := 0;
      while i < |elements|
        invariant 0 <= i <= |elements|
        invariant games + FilterMap(elements[i..], keep) == FilterMap(elements, keep)
      {
        assert elements[i..][1..] == elements[i + 1..];
        match DiscountDeal(elements[i], minDiscount) {
          case Some(deal) => games := games + [deal];
          case None =>
        }
        i := i + 1;
      }
      assert elements[i..] == [];
      assert FilterMap(elements[i..], keep) == [];
      assert games + [] == games;
      return Returned(games);
  }

  /** Every deal `get_deals` returns meets the threshold, is not free, has no genres,
      comes from a listed element with distinct, non-zero prices, carries the
      truncated percentage of those prices, and lies in [0, 100] when its prices
      are ordered as a discount. */
  lemma DealsMeetThreshold(es: seq<Element>, minDiscount: int)
    ensures forall d :: d in DealsListing(Ok(es), minDiscount).value ==>
      && d.discountPercent >= minDiscount && !d.isFree && d.genres == [] && d.platform == "epic"
      && d.originalPrice != 0.0 && d.currentPrice != d.originalPrice
      && d.discountPercent == PercentOff(d.originalPrice, d.currentPrice)
      && (0.0 <= d.currentPrice < d.originalPrice ==> 0 <= d.discountPercent <= 100)
      && exists g :: g in es && DiscountDeal(g, minDiscount) == Some(d)
  {
    var keep := Keeper(minDiscount);
    forall d | d in DealsListing(Ok(es), minDiscount).value
      ensures d.discountPercent >= minDiscount && !d.isFree && d.genres == [] && d.platform == "epic"
      ensures d.originalPrice != 0.0 && d.currentPrice != d.originalPrice
      ensures d.discountPercent == PercentOff(d.originalPrice, d.currentPrice)
      ensures 0.0 <= d.currentPrice < d.originalPrice ==> 0 <= d.discountPercent <= 100
      ensures exists g :: g in es && DiscountDeal(g, minDiscount) == Some(d)
    {
      FilterMapMember(es, keep, d);
      var i :| 0 <= i < |es| && keep(es[i]) == Some(d);
      if 0.0 <= d.currentPrice < d.originalPrice {
        PercentOffInRange(d.originalPrice, d.currentPrice);
      }
    }
  }

  // ---------------------------------------------------------------- get_game_details

  /** The product document `get_game_details` reads. */
  datatype Product = Product(originalPrice: Field<int>, discountPrice: Field<int>, tags: seq<Tag>)

  /** `get_game_details`: `{}` (here `None`) on a non-200 status or an empty
      document; an exception on an unreadable body, a price that is not a number
      or a tag that is not an object. */
  function GameDetails(resp: Response<Option<Product>>): (r: Outcome<Option<Details>>)
    ensures resp.NonOk? || resp == Ok(None) <==> r == Returned(None)
    ensures r.Raised? <==> (resp.Unreadable? || (resp.Ok? && resp.body.Some? &&
      (resp.body.value.originalPrice.Invalid? || resp.body.value.discountPrice.Invalid?
       || BadTag in resp.body.value.tags)))
    ensures r.Returned? && r.value.Some? ==> (resp.Ok? && resp.body.Some? &&
      var p, x := resp.body.value, r.value.value;
      && x.price == FromMinor(Convert(p.discountPrice, 0).value)
      && x.originalPrice == FromMinor(Convert(p.originalPrice, 0).value)
      && (x.isFree <==> x.price == 0.0)
      && (x.originalPrice <= 0.0 ==> x.discountPercent == 0)
      && (x.originalPrice > 0.0 ==> x.discountPercent == PercentOff(x.originalPrice, x.price))
      && x.genres == TagNames(p.tags).value)
  {
    match resp
    case NonOk => Returned(None)
    case Unreadable => Raised
    case Ok(None) => Returned(None)
    case Ok(Some(p)) =>
      var o := Convert(p.originalPrice, 0);
      var c := Convert(p.discountPrice, 0);
      var genres := TagNames(p.tags);
      if o.Raised? || c.Raised? || genres.Raised? then Raised
      else
        var original, current := FromMinor(o.value), FromMinor(c.value);
        Returned(Some(Details(genres.value, current == 0.0, current, original,
                              if original > 0.0 then PercentOff(original, current) else 0)))
  }

  // ---------------------------------------------------------------- search_game

  /** An entry of the search response's `products`; `BadHit` is not an object. */
  datatype Hit = Hit(productId: Option<string>, title: Option<string>, urlSlug: Option<string>) | BadHit

  /** One pass of the search loop: the deal for a hit whose details are non-empty,
      `None` to go on, or the exception raised by the hit or its details. */
  function Probe(h: Hit, lookup: string -> Response<Option<Product>>): Outcome<Option<GameDeal>> {
    match h
    case BadHit => Raised
    case Hit(pid, title, slug) =>
      match GameDetails(lookup(pid.GetOr("")))
      case Raised => Raised
      case Returned(None) => Returned(None)
      case Returned(Some(x)) =>
        Returned(Some(GameDeal(title.GetOr(""), "epic", pid.GetOr(""), x.price, x.originalPrice,
                               x.discountPercent, x.isFree, ProductUrl(slug.GetOr("")), x.genres)))
  }

  /** `search_game`: `body` is `None` when the document is empty or has no `products`;
      `lookup` is the product-details endpoint by product id. */
  function Search(resp: Response<Option<seq<Hit>>>, lookup: string -> Response<Option<Product>>): Outcome<Option<GameDeal>> {
    match resp
    case NonOk => Returned(None)
    case Unreadable => Raised
    case Ok(None) => Returned(None)
    case Ok(Some(hits)) => FirstFound(hits, Prober(lookup))
  }

  function Prober(lookup: string -> Response<Option<Product>>): Hit -> Outcome<Option<GameDeal>> {
    h => Probe(h, lookup)
  }

  method SearchGame(resp: Response<Option<seq<Hit>>>, lookup: string -> Response<Option<Product>>)
    returns (r: Outcome<Option<GameDeal>>)
    ensures r == Search(resp, lookup)
  {
    match resp
    case NonOk => return Returned(None);
    case Unreadable => return Raised;
    case Ok(None) => return Returned(None);
    case Ok(Some(hits)) =>
      var probe := Prober(lookup);
      var i := 0;
      while i < |hits|
        invariant 0 <= i <= |hits|
        invariant FirstFound(hits[i..], probe) == FirstFound(hits, probe)
      {
        assert hits[i..][1..] == hits[i + 1..];
        match hits[i] {
          case BadHit => return Raised;
          case Hit(pid, title, slug) =>
            var details := GameDetails(lookup(pid.GetOr("")));
            match details {
              case Raised => return Raised;
              case Returned(None) =>
              case Returned(Some(x)) =>
                return Returned(Some(GameDeal(title.GetOr(""), "epic", pid.GetOr(""), x.price, x.originalPrice,
                                              x.discountPercent, x.isFree, ProductUrl(slug.GetOr("")), x.genres)));
            }
        }
        i := i + 1;
      }
      return Returned(None);
  }

  /** `search_game` returns the deal of the first product whose details are
      non-empty, with the product's title, id and slug and the details' prices,
      discount, free flag and genres. */
  lemma SearchFindsFirst(hits: seq<Hit>, lookup: string -> Response<Option<Product>>, d: GameDeal)
    ensures Search(Ok(Some(hits)), lookup) == Returned(Some(d)) <==>
      exists k :: FoundAt(hits, Prober(lookup), d, k)
    ensures Search(Ok(Some(hits)), lookup) == Returned(Some(d)) ==>
      exists k, x: Details :: 0 <= k < |hits| && hits[k].Hit?
        && GameDetails(lookup(hits[k].productId.GetOr(""))) == Returned(Some(x))
        && d.title == hits[k].title.GetOr("") && d.platform == "epic"
        && d.storeId == hits[k].productId.GetOr("") && d.url == ProductUrl(hits[k].urlSlug.GetOr(""))
        && d.currentPrice == x.price && d.originalPrice == x.originalPrice
        && d.discountPercent == x.discountPercent && d.isFree == x.isFree && d.genres == x.genres
  {
    FirstFoundSome(hits, Prober(lookup), d);
    if Search(Ok(Some(hits)), lookup) == Returned(Some(d)) {
      var k :| FoundAt(hits, Prober(lookup), d, k);
      assert Probe(hits[k], lookup) == Returned(Some(d));
      var x := GameDetails(lookup(hits[k].productId.GetOr(""))).value.value;
      assert GameDetails(lookup(hits[k].productId.GetOr(""))) == Returned(Some(x));
    }
  }
}
