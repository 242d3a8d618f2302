/** The GOG parser: the filtered-catalogue endpoint (free games, discounted
    games, search) and the product-details endpoint. */
module GogParser {
  import opened Wrappers
  import opened Deals

  const BaseUrl := "https://www.gog.com"

  /** A product's `price` object. `discount` goes through `int()` and the two
      amounts through `float()`; the flags are their truthiness. */
  datatype Price = Price(isFree: bool, isDiscounted: bool, discount: Field<int>,
                         baseAmount: Field<real>, finalAmount: Field<real>)

  /** The defaults `product.get('price', {})` reads when there is no price object. */
  const NoPrice := Price(false, false, Absent, Absent, Absent)

  /** An entry of the catalogue's `products`. `price` is `None` when the object
      is missing or empty; `id` is `str()` of the product's id; `BadProduct` is an
      entry that is not an object (`product.get` raises). */
  datatype Product =
    | Product(isGame: bool, price: Option<Price>, title: Option<string>, id: Option<string>,
              url: Option<string>, genres: seq<string>)
    | BadProduct

  /** `str(product.get('id', ''))`. */
  function StoreId(p: Product): string
    requires p.Product?
  {
    p.id.GetOr("")
  }

  /** `f"{base_url}{product.get('url', '')}"`. */
  function ProductUrl(p: Product): string
    requires p.Product?
  {
    BaseUrl + p.url.GetOr("")
  }

  // ---------------------------------------------------------------- get_free_games

  /** The body of `get_free_games`' loop for one product; `None` when it is skipped. */
  function FreeProduct(p: Product): (r: Option<GameDeal>)
    ensures r.Some? <==>
      p.Product? && p.isGame && p.price.Some? && p.price.value.isFree && !p.price.value.baseAmount.Invalid?
    ensures r.Some? ==> var d := r.value;
      && FreeShaped(d) && d.platform == "gog" && d.title == p.title.GetOr("")
      && d.storeId == StoreId(p) && d.url == ProductUrl(p)
      && d.originalPrice == Convert(p.price.value.baseAmount, 0.0).value && d.genres == p.genres
  {
    if p.BadProduct? || !p.isGame || p.price.None? || !p.price.value.isFree then None
    else
      match Convert(p.price.value.baseAmount, 0.0)
      case Raised => None
      case Returned(base) =>
        Some(GameDeal(p.title.GetOr(""), "gog", StoreId(p), 0.0, base, 100, true, ProductUrl(p), p.genres))
  }

  function FreeKeeper(): Product -> Option<GameDeal> {
    p => FreeProduct(p)
  }

  /** `get_free_games` on the response of the free-games query. */
  function FreeGames(resp: Response<seq<Product>>): Outcome<seq<GameDeal>> {
    match resp
    case NonOk => Returned([])
    case Unreadable => Raised
    case Ok(ps) => Returned(FilterMap(ps, FreeKeeper()))
  }

  method GetFreeGames(resp: Response<seq<Product>>) returns (r: Outcome<seq<GameDeal>>)
    ensures r == FreeGames(resp)
  {
    match resp
    case NonOk => return Returned([]);
    case Unreadable => return Raised;
    case Ok(products) =>
      var keep := FreeKeeper();
      var games: seq<GameDeal> := [];
      var i := 0;
      while i < |products|
        invariant 0 <= i <= |products|
        invariant games + FilterMap(products[i..], keep) == FilterMap(products, keep)
      {
        FilterMapStep(games, products, i, keep);
        match keep(products[i]) {
          case Some(game) => games := games + [game];
          case None =>
        }
        i := i + 1;
      }
      assert products[i..] == [];
      assert FilterMap(products[i..], keep) == [];
      assert games + [] == games;
      return Returned(games);
  }

  /** `get_free_games` returns exactly the free games among the products, one
      deal each, in catalogue order: a product is dropped only when it is not a
      game, not free, or its base amount is not a number. */
  lemma FreeGamesExactly(ps: seq<Product>, d: GameDeal)
    ensures d in FreeGames(Ok(ps)).value <==> exists i :: 0 <= i < |ps| && FreeProduct(ps[i]) == Some(d)
    ensures d in FreeGames(Ok(ps)).value ==> FreeShaped(d) && d.platform == "gog"
  {
    FilterMapMember(ps, FreeKeeper(), d);
    if d in FreeGames(Ok(ps)).value {
      var i :| 0 <= i < |ps| && FreeKeeper()(ps[i]) == Some(d);
    }
  }

  // ---------------------------------------------------------------- get_deals

  /** The body of `get_deals`' loop for one product; `None` when it is skipped. */
  function DealProduct(p: Product, minDiscount: int): (r: Option<GameDeal>)
    ensures r.Some? <==>
      && p.Product? && p.isGame && p.price.Some? && p.price.value.isDiscounted
      && Convert(p.price.value.discount, 0).Returned? && Convert(p.price.value.discount, 0).value >= minDiscount
      && !p.price.value.finalAmount.Invalid? && !p.price.value.baseAmount.Invalid?
    ensures r.Some? ==> var d, price := r.value, p.price.value;
      && d.platform == "gog" && d.title == p.title.GetOr("") && !d.isFree
      && d.discountPercent >= minDiscount && d.discountPercent == Convert(price.discount, 0).value
      && d.currentPrice == Convert(price.finalAmount, 0.0).value
      && d.originalPrice == Convert(price.baseAmount, 0.0).value
      && d.storeId == StoreId(p) && d.url == ProductUrl(p) && d.genres == p.genres
  {
    if p.BadProduct? || !p.isGame || p.price.None? || !p.price.value.isDiscounted then None
    else
      var price := p.price.value;
      match Convert(price.discount, 0)
      case Raised => None
      case Returned(discount) =>
        if discount < minDiscount then None
        else
          var final := Convert(price.finalAmount, 0.0);
          var base := Convert(price.baseAmount, 0.0);
          if final.Raised? || base.Raised? then None
          else
            Some(GameDeal(p.title.GetOr(""), "gog", StoreId(p), final.value, base.value, discount,
                          false, ProductUrl(p), p.genres))
  }

  function DealKeeper(minDiscount: int): Product -> Option<GameDeal> {
    p => DealProduct(p, minDiscount)
  }

  /** `get_deals(min_discount)` on the response of the discounted-games query. */
  function DealsListing(resp: Response<seq<Product>>, minDiscount: int): Outcome<seq<GameDeal>> {
    match resp
    case NonOk => Returned([])
    case Unreadable => Raised
    case Ok(ps) => Returned(FilterMap(ps, DealKeeper(minDiscount)))
  }

  method GetDeals(resp: Response<seq<Product>>, minDiscount: int) returns (r: Outcome<seq<GameDeal>>)
    ensures r == DealsListing(resp, minDiscount)
  {
    match resp
    case NonOk => return Returned([]);
    case Unreadable => return Raised;
    case Ok(products) =>
      var keep := DealKeeper(minDiscount);
      var games: seq<GameDeal> := [];
      var i := 0;
      while i < |products|
        invariant 0 <= i <= |products|
        invariant games + FilterMap(products[i..], keep) == FilterMap(products, keep)
      {
        FilterMapStep(games, products, i, keep);
        match keep(products[i]) {
          case Some(game) => games := games + [game];
          case None =>
        }
        i := i + 1;
      }
      assert products[i..] == [];
      assert FilterMap(products[i..], keep) == [];
      assert games + [] == games;
      return Returned(games);
  }

  /** Every deal `get_deals` returns meets the threshold and is not free, and a
      product is dropped exactly when the rules of `DealProduct` say so. */
  lemma DealsMeetThreshold(ps: seq<Product>, minDiscount: int, d: GameDeal)
    ensures d in DealsListing(Ok(ps), minDiscount).value <==>
      exists i :: 0 <= i < |ps| && DealProduct(ps[i], minDiscount) == Some(d)
    ensures d in DealsListing(Ok(ps), minDiscount).value ==>
      d.discountPercent >= minDiscount && !d.isFree && d.platform == "gog"
  {
    FilterMapMember(ps, DealKeeper(minDiscount), d);
    if d in DealsListing(Ok(ps), minDiscount).value {
      var i :| 0 <= i < |ps| && DealKeeper(minDiscount)(ps[i]) == Some(d);
    }
  }

  // ---------------------------------------------------------------- get_game_details

  /** An entry of the details document's `genres`; `BadGenre` is not an object. */
  datatype Genre = Genre(name: Option<string>) | BadGenre

  /** A non-empty details document. */
  datatype Doc = Doc(genres: seq<Genre>, price: Option<Price>)

  /** `[genre.get('name', '') for genre in genres]`, which raises on a non-object. */
  function GenreNames(gs: seq<Genre>): (r: Outcome<seq<string>>)
    ensures r.Raised? <==> BadGenre in gs
    ensures r.Returned? ==>
      |r.value| == |gs| && forall i :: 0 <= i < |gs| ==> r.value[i] == gs[i].name.GetOr("")
  {
    if |gs| == 0 then Returned([])
    else
      match gs[0]
      case BadGenre => Raised
      case Genre(name) =>
        match GenreNames(gs[1..])
        case Raised => Raised
        case Returned(rest) => Returned([name.GetOr("")] + rest)
  }

  /** `get_game_details`: `{}` (here `None`) on a non-200 status or an empty
      document (`Ok(None)`), otherwise the genre names and the price fields. */
  function GameDetails(resp: Response<Option<Doc>>): (r: Outcome<Option<Details>>)
    ensures resp.NonOk? || resp == Ok(None) <==> r == Returned(None)
    ensures r.Raised? <==> (resp.Unreadable? || (resp.Ok? && resp.body.Some? &&
      var doc := resp.body.value;
      var price := doc.price.GetOr(NoPrice);
      BadGenre in doc.genres || price.finalAmount.Invalid? || price.baseAmount.Invalid? || price.discount.Invalid?))
    ensures r.Returned? && r.value.Some? ==>
      && resp.Ok? && resp.body.Some?
      && var doc, x := resp.body.value, r.value.value;
         var price := doc.price.GetOr(NoPrice);
         && GenreNames(doc.genres).Returned? && x.genres == GenreNames(doc.genres).value
         && x.isFree == price.isFree
         && Convert(price.finalAmount, 0.0) == Returned(x.price)
         && Convert(price.baseAmount, 0.0) == Returned(x.originalPrice)
         && Convert(price.discount, 0) == Returned(x.discountPercent)
  {
    match resp
    case NonOk => Returned(None)
    case Unreadable => Raised
    case Ok(None) => Returned(None)
    case Ok(Some(doc)) =>
      var price := doc.price.GetOr(NoPrice);
      var genres := GenreNames(doc.genres);
      var final := Convert(price.finalAmount, 0.0);
      var base := Convert(price.baseAmount, 0.0);
      var discount := Convert(price.discount, 0);
      if genres.Raised? || final.Raised? || base.Raised? || discount.Raised? then Raised
      else Returned(Some(Details(genres.value, price.isFree, final.value, base.value, discount.value)))
  }

  // ---------------------------------------------------------------- search_game

  /** `details.get('genres', product.get('genres', []))`: the details' genres when
      the details are non-empty, else the product's own. */
  function SearchGenres(details: Option<Details>, p: Product): seq<string>
    requires p.Product?
  {
    match details
    case Some(x) => x.genres
    case None => p.genres
  }

  /** `search_game`: only the first product counts. `lookup` is the
      product-details endpoint by id; every exception propagates. */
  function Search(resp: Response<seq<Product>>, lookup: string -> Response<Option<Doc>>): (r: Outcome<Option<GameDeal>>)
    ensures resp.NonOk? || resp == Ok([]) ==> r == Returned(None)
    ensures resp.Ok? && |resp.body| > 0 && resp.body[0].Product? && !resp.body[0].isGame ==> r == Returned(None)
    ensures resp.Unreadable? ==> r.Raised?
    ensures resp.Ok? && |resp.body| > 0 && resp.body[0].BadProduct? ==> r.Raised?
    ensures resp.Ok? && |resp.body| > 0 && resp.body[0].Product? && resp.body[0].isGame ==>
      var p := resp.body[0];
      var price := p.price.GetOr(NoPrice);
      && (r.Raised? <==> (GameDetails(lookup(StoreId(p))).Raised? || price.finalAmount.Invalid?
                          || price.baseAmount.Invalid? || price.discount.Invalid?))
      && (r.Returned? ==> r.value.Some?)
    ensures r.Returned? && r.value.Some? ==>
      && resp.Ok? && |resp.body| > 0
      && var p, d := resp.body[0], r.value.value;
         && p.Product? && p.isGame && d.platform == "gog" && d.storeId == StoreId(p) && d.url == ProductUrl(p)
         && var price, details := p.price.GetOr(NoPrice), GameDetails(lookup(StoreId(p)));
            && d.title == p.title.GetOr("") && d.isFree == price.isFree
            && Returned(d.currentPrice) == Convert(price.finalAmount, 0.0)
            && Returned(d.originalPrice) == Convert(price.baseAmount, 0.0)
            && Returned(d.discountPercent) == Convert(price.discount, 0)
            && details.Returned? && d.genres == SearchGenres(details.value, p)
  {
    match resp
    case NonOk => Returned(None)
    case Unreadable => Raised
    case Ok(products) =>
      if |products| == 0 then Returned(None)
      else
        var p := products[0];
        if p.BadProduct? then Raised
        else if !p.isGame then Returned(None)
        else
          var price := p.price.GetOr(NoPrice);
          var details := GameDetails(lookup(StoreId(p)));
          var final := Convert(price.finalAmount, 0.0);
          var base := Convert(price.baseAmount, 0.0);
          var discount := Convert(price.discount, 0);
          if details.Raised? || final.Raised? || base.Raised? || discount.Raised? then Raised
          else
            Returned(Some(GameDeal(p.title.GetOr(""), "gog", StoreId(p), final.value, base.value,
                                   discount.value, price.isFree, ProductUrl(p),
                                   SearchGenres(details.value, p))))
  }

  /** The products after the first one never change the search's outcome. */
  lemma SearchReadsFirstOnly(ps: seq<Product>, qs: seq<Product>, lookup: string -> Response<Option<Doc>>)
    requires |ps| > 0 && |qs| > 0 && ps[0] == qs[0]
    ensures Search(Ok(ps), lookup) == Search(Ok(qs), lookup)
  {
  }
}
