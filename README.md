# StealDeals in Dafny

StealDeals is a Telegram bot. It collects free games and discounted games from three storefronts: Steam, the Epic Games Store and GOG. Each storefront has a parser that turns the store's raw listing into `GameDeal` records, the nine-field record of `parsers/base_parser.py`. The bot's `/deals` command merges the three stores' deals. It keeps the deals in the subscriber's chosen genres, orders them by discount and posts the best five, pausing between messages. `/free` posts every free game. Inline buttons let a subscriber choose genres and switch the sales and free-game notifications on or off. A small conversation state machine decides which button handler answers.

This project models that core and proves its properties.

- `wrappers.dfy`: `Option` and `Outcome`. An `Outcome` is either a returned value or a raised exception.
- `text.dfy`: the Python string operations the code relies on: `strip`, `split()`, `replace`, `lower`, `split(sep)[-1]`, `str(n)`, `int()` and `float()`.
- `deals.dfy`: the shared pieces.
  - the `GameDeal` record;
  - an HTTP exchange (non-200, a decoded body, or a failure that raises);
  - a JSON member read with a default and converted with `float()`/`int()`;
  - prices in minor units;
  - the truncating discount formula;
  - the listing loop every parser runs ("convert each item, skip it on any exception, keep going"), as `FilterMap`;
  - the first-match search loop, as `FirstFound`.
- `epic.dfy`, `steam.dfy`, `gog.dfy`: the three parsers.
  - Each has `get_free_games`, `get_deals`, `search_game` and `get_game_details`.
  - Every loop is an imperative method proved equal to a specification function.
  - The properties are lemmas about those functions.
  - The four operations of the abstract parser interface are mirrored module by module.
- `settings.dfy`: the subscriber's row as a class, with the genre and notification toggles.
- `commands.dfy`: `/deals` and `/free`: gather, merge, genre filter, stable sort, top five, paced posting and the store links.
- `dialog.dfy`: the conversation's routing table and state transitions. A `Chat` class runs the handlers against the subscriber's row.

The model takes these positions:

- Network and HTML access are parameters. A listing response is `Response<seq<Item>>`, with each Steam search row already extracted into optional fields. A details endpoint is a function from an id to a response.
- Prices are exact `real`s. Minor units become `units / 100`.
- In the listing loops of `get_free_games` and `get_deals`, an exception inside the loop body skips only that item. The `search_game` loops catch nothing, so an exception raised for one product makes the whole search raise. An exception outside the loops makes the whole call raise. `asyncio.gather` then raises too, and the command ends with its error message.

The model follows the code wherever code and intent differ:

- **Steam prices are split on whitespace.** The Steam parser splits the price block on whitespace before it deletes `₽` and `,`. So a price printed with a thousands separator, `1 999,00₽`, reads as the two numbers `1.0` and `99900.0`, not as `1999.00`. The model parses the tokens the way the code does.
- **Epic deals never carry genres.** `get_deals` of the Epic parser always leaves `genres` empty. As soon as a subscriber chooses any genre, no Epic deal can pass the `/deals` filter. `Commands.DealsPostsQualify` proves this.

## Model

| member | source | states |
|---|---|---|
| Text.TrimLeft | parsers/steam_parser.py:72 | removes exactly the leading run of characters to strip; what is left starts with a kept character |
| Text.TrimRight | parsers/steam_parser.py:72 | removes exactly the trailing run of characters to strip; what is left ends with a kept character |
| Text.StripFrame | parsers/steam_parser.py:72 | `strip(chars)` removes any padding made of those characters around a text whose ends are kept characters, and nothing more |
| Text.StripIdempotent | parsers/steam_parser.py:84-85 | stripping a stripped text changes nothing |
| Text.StripUnpadded | parsers/steam_parser.py:84-85 | `strip()` leaves alone a text whose first and last characters are not whitespace |
| Text.Split | parsers/steam_parser.py:85 | every token of `split()` is non-empty and holds no whitespace, so the `if p.strip()` guard never drops a token |
| Text.SplitJoinSpaced | parsers/steam_parser.py:85 | splitting words joined by single spaces gives the same words back, in order |
| Text.Without | parsers/steam_parser.py:84 | `replace(c, '')` removes every `c` and keeps every other character as many times as it occurred |
| Text.WithoutAppend | parsers/steam_parser.py:84 | removing a character from two joined texts is removing it from each |
| Text.LowerOfUpper | bot.py:329-335 | lower-casing a text written in capitals gives the same as lower-casing the text itself |
| Text.LastSegment | bot.py:147 | `split('_')[-1]` is the longest `_`-free end of the text, preceded by `_` whenever it is not the whole text |
| Text.LastSegmentAfter | bot.py:147 | the last segment of `prefix + '_' + w`, for `w` without `_`, is `w` |
| Text.Decimal | bot.py:97 | `str(n)` of a natural number is a non-empty run of decimal digits |
| Text.DigitsValueOfDecimal | bot.py:97 | the digits `str(n)` writes have the value `n` |
| Text.ParseIntDecimal | bot.py:147 | `int(str(n)) == n` and `int('-' + str(n)) == -n` |
| Text.ParseFloatDecimal | parsers/steam_parser.py:84 | `float(str(n)) == n` |
| Text.ParseInt | bot.py:147 | `int()` of a text succeeds exactly when the stripped text is an optional `+` or `-` followed by one or more decimal digits, so any other text fails; a negative number comes only from a leading `-`, and a run of digits reads as its value |
| Text.ParseFloat | parsers/steam_parser.py:84 | `float()` of a text succeeds exactly when the stripped text is plain decimal notation: an optional sign, digits and at most one `.`, with at least one digit; a negative number comes only from a leading `-` |
| Text.ParseFloatFraction | parsers/steam_parser.py:84 | `float()` of `w.f`, with a fraction `f` of digits, is `w` plus the fraction's digits over ten to the power of their count |
| Deals.Convert | parsers/epic_parser.py:141-142 | `float(obj.get(key, default))`: the default when the key is missing, the value when present, an exception exactly when the value is malformed |
| Deals.FromMinor | parsers/epic_parser.py:141-142 | a minor-unit price over 100: multiplying back by 100 gives the units; zero exactly when the units are zero; positive exactly when they are positive |
| Deals.TruncToInt | parsers/epic_parser.py:147 | `int(x)` truncates toward zero: within one below a non-negative `x`, within one above a negative `x` |
| Deals.PercentOffInRange | parsers/epic_parser.py:147 | a discount computed from prices with `0 <= current <= original` and `original > 0` lies between 0 and 100 |
| Deals.FilterMap | parsers/gog_parser.py:74-105 | a listing never has more deals than the input has items |
| Deals.FilterMapAppend | parsers/gog_parser.py:74-105 | items are handled independently and in order: the listing of two batches is the first batch's listing followed by the second's |
| Deals.FilterMapStep | parsers/gog_parser.py:103 | one pass of a listing loop appends exactly what the current item yields, so the invariant "deals so far + listing of the rest = listing of all" is kept |
| Deals.FilterMapMember | parsers/gog_parser.py:74-105 | a deal is in a listing exactly when some item yields it |
| Deals.FilterMapNoneSkipped | parsers/steam_parser.py:25-50 | when no item is skipped there is one deal per item, the `i`-th deal being the `i`-th item's |
| Deals.FirstFoundSome | parsers/epic_parser.py:194-211 | a search returns deal `d` exactly when some item yields `d` and every item before it was passed over without raising |
| Deals.FirstFoundNone | parsers/epic_parser.py:194-211 | a search returns nothing exactly when every item is passed over without raising |
| EpicParser.TagNames | parsers/epic_parser.py:52 | `[tag.get('name', '') ...]`: raises exactly when a tag is not an object; otherwise the `i`-th name is the `i`-th tag's name or `''` |
| EpicParser.FreeDeal | parsers/epic_parser.py:39-53 | the free deal of a game raises exactly when its original price or a tag is malformed. Otherwise it is free (price 0, 100% off) and on platform `epic`. Its title and id are the game's (default `''`), its link is the store page of its slug, its original price is `originalPrice / 100` (default 0), and its genres are the tag names |
| EpicParser.GetFreeGames | parsers/epic_parser.py:13-59 | the loop over elements returns the free-games listing of the response: `[]` on a non-200 status, an exception on an unreadable body |
| EpicParser.ScanGame | parsers/epic_parser.py:31-57 | the nested offer/promotion loops for one game append exactly the game's free deals, stopping at the first exception |
| EpicParser.ScanOffer | parsers/epic_parser.py:37-55 | the loop over one offer's promotions appends the game's deal once per 0% promotion, stopping at the first exception |
| EpicParser.ScanPromosCopies | parsers/epic_parser.py:37-55 | the promotions of one offer add one copy of the deal per 0% promotion met before the first malformed promotion |
| EpicParser.ScanOffersCopies | parsers/epic_parser.py:36-57 | across offers, the deals appended are one copy per 0% promotion met before the first malformed offer or promotion |
| EpicParser.FreeDealsPerPromotion | parsers/epic_parser.py:32-57 | a game yields nothing without promotional offers, else one copy of its free deal per 0% promotion; deals appended before an exception are kept |
| EpicParser.ScanPromosNothing | parsers/epic_parser.py:43-57 | when the deal cannot be built, an offer's promotions add nothing |
| EpicParser.ScanOffersNothing | parsers/epic_parser.py:43-57 | when the deal cannot be built, a game's offers add nothing |
| EpicParser.FreeDealsNoneWhenUnbuildable | parsers/epic_parser.py:43-57 | a game whose deal raises (bad price or tag) contributes no deal |
| EpicParser.FreeDealsOfAllMember | parsers/epic_parser.py:30-57 | every listed free deal is the free deal of some listed game |
| EpicParser.FreeGamesAreFree | parsers/epic_parser.py:30-59 | every deal `get_free_games` returns is free, on platform `epic`, and built from one of the response's games |
| EpicParser.FreeDealsOfAllAppend | parsers/epic_parser.py:30-57 | games are handled independently and their deals keep the listing order |
| EpicParser.DiscountDeal | parsers/epic_parser.py:139-169 | a kept element has valid prices and a non-zero original price different from the current one. Its deal carries the element's title (empty when missing), both prices as minor units over 100, and the truncated percentage as discount, at least the threshold. It is not free, has no genres, and its link is the slug's store page |
| EpicParser.DiscountDealKept | parsers/epic_parser.py:140-167 | an element is kept exactly when both prices convert (a missing one reads as 0), the original price is not 0, the two prices differ and the truncated discount reaches the threshold |
| EpicParser.GetDeals | parsers/epic_parser.py:61-171 | the loop returns the discount listing of the response: `[]` on a non-200 status, an exception on an unreadable body |
| EpicParser.DealsMeetThreshold | parsers/epic_parser.py:138-171 | every deal `get_deals` returns has at least the minimum discount, is not free, has no genres, is on platform `epic`, has a truncated discount that lies in [0, 100] when the price fell, and comes from a listed element |
| EpicParser.GameDetails | parsers/epic_parser.py:213-240 | `{}` exactly on a non-200 status or an empty document. It raises exactly on an unreadable body, a price that is not a number or a tag that is not an object. Otherwise the price is `discountPrice / 100` and the original price `originalPrice / 100` (default 0 each). The game is free exactly when its price is 0. The discount is 0 when the original price is not positive and the truncated percentage otherwise. The genres are the tag names |
| EpicParser.SearchGame | parsers/epic_parser.py:173-211 | the search loop returns the result of the first-match search over the products |
| EpicParser.SearchFindsFirst | parsers/epic_parser.py:194-211 | the search returns the deal of the first product whose details are non-empty, every product before it passed over. The deal's title, id and store-page link are that product's; its prices, discount, free flag and genres are its details' |
| SteamParser.Descriptions | parsers/steam_parser.py:166 | `[genre['description'] ...]` raises exactly when a genre lacks its description; otherwise the descriptions in order |
| SteamParser.GameDetails | parsers/steam_parser.py:152-171 | `{}` exactly on a non-200 status or when the id has no successful entry; raises exactly on an unreadable body or a malformed entry. Otherwise the prices are `final / 100` and `initial / 100`, the discount is passed through (default 0), the free flag defaults to false, and the genres are the descriptions, in order |
| SteamParser.Enrich | parsers/steam_parser.py:44-48 | a details lookup that raises drops the row; empty details keep the deal unchanged; non-empty details replace its genres and nothing else |
| SteamParser.FreeRow | parsers/steam_parser.py:27-48 | a kept row has a title, app id and link, and its details lookup did not raise. Its deal is free (both prices 0, 100% off) on platform `steam`, titled with the stripped title text. Its genres are the details' genres when the details are non-empty, and `[]` otherwise |
| SteamParser.GetFreeGames | parsers/steam_parser.py:13-52 | the loop over rows returns the free-games listing of the page: `[]` on a non-200 status |
| SteamParser.FreeGamesAreFree | parsers/steam_parser.py:25-50 | every free game listed is free, on platform `steam`, with original price 0, and comes from one of the rows |
| SteamParser.FreeRowKept | parsers/steam_parser.py:25-50 | a row with a title, an app id and a link whose details lookup does not raise is kept |
| SteamParser.PricesOf | parsers/steam_parser.py:84-85 | when no token raises, there is one price per token |
| SteamParser.PriceOf | parsers/steam_parser.py:84 | a token that is blank after `strip()` raises, and an accepted token holds nothing but whitespace, digits, `.`, a sign, `,` and `₽` |
| SteamParser.RubleTextPrice | parsers/steam_parser.py:84 | a whole-rouble price `1999₽` is one token and reads as 1999 |
| SteamParser.RublePointPrice | parsers/steam_parser.py:84 | a price `n.f₽` with a decimal fraction reads as `n` plus that fraction |
| SteamParser.PricesOfRubleTexts | parsers/steam_parser.py:84-85 | a list of whole-rouble tokens reads as their amounts, in order |
| SteamParser.ParsePricesOfRubleTexts | parsers/steam_parser.py:84-85 | a price block of space-separated whole-rouble prices reads as their amounts, in order |
| SteamParser.DiscountBadge | parsers/steam_parser.py:72 | a discount badge `-n%` reads as `n` |
| SteamParser.PricedRow | parsers/steam_parser.py:68-103 | a row passing the parser's checks in their order has a title, whose stripped text is the deal's title, a badge reading as its discount, at least the threshold, and a price block whose first number is the original price and whose last is the current one. The deal is not free, has no genres yet, and its id and link are the row's |
| SteamParser.DealRow | parsers/steam_parser.py:66-110 | a row is kept exactly when it passes the price checks and its details lookup does not raise. The deal differs from the priced row at most in its genres, which are the details' genres when the details are non-empty and `[]` otherwise |
| SteamParser.GetDeals | parsers/steam_parser.py:54-114 | the loop over rows returns the discount listing of the page: `[]` on a non-200 status |
| SteamParser.DealRowSound | parsers/steam_parser.py:68-110 | a kept row's deal meets the threshold, is not free, takes its discount from the badge and its prices from the first and last numbers of the price block |
| SteamParser.DealsMeetThreshold | parsers/steam_parser.py:66-114 | every deal `get_deals` returns meets the threshold, is not free, is on platform `steam` and comes from one of the rows |
| SteamParser.DealRowKept | parsers/steam_parser.py:68-110 | a complete row whose badge reads as `n >= threshold`, with at least two prices and a details lookup that does not raise, is kept with discount `n`, original price the first number and current price the last |
| SteamParser.DealRowOfWellFormedRow | parsers/steam_parser.py:68-110 | a complete row with badge `-n%` and a block of space-separated whole-rouble prices yields discount `n`, the first amount as original price and the last as current price |
| SteamParser.SearchGame | parsers/steam_parser.py:116-150 | the search loop returns the result of the first-match search over the suggestions |
| SteamParser.SearchFindsFirstGame | parsers/steam_parser.py:128-150 | the search returns the first item of type `game` whose details are non-empty. The deal carries that item's name, `str(id)` and the app page, and takes its prices, discount, free flag and genres from those details |
| GogParser.FreeProduct | parsers/gog_parser.py:31-51 | a product is kept exactly when it is a game whose price object says free and whose base amount converts. Its deal carries the product's title (empty when missing), is free, on platform `gog`, with `str(id)`, the product's link and genres, and the base amount as original price |
| GogParser.GetFreeGames | parsers/gog_parser.py:13-55 | the loop over products returns the free-games listing of the response |
| GogParser.FreeGamesExactly | parsers/gog_parser.py:30-55 | `get_free_games` lists exactly the deals of the free games among the products, each free and on platform `gog` |
| GogParser.DealProduct | parsers/gog_parser.py:75-103 | a product is kept exactly when it is a game with a discounted price object, a discount converting to at least the threshold, and convertible amounts. Its deal carries the product's title (empty when missing), the discount, the final and base amounts, `str(id)`, the link and the genres, and is not free |
| GogParser.GetDeals | parsers/gog_parser.py:57-107 | the loop over products returns the discount listing of the response |
| GogParser.DealsMeetThreshold | parsers/gog_parser.py:74-107 | a deal is listed exactly when some product yields it, and every listed deal meets the threshold, is not free and is on platform `gog` |
| GogParser.GenreNames | parsers/gog_parser.py:165 | `[genre.get('name', '') ...]` raises exactly when a genre is not an object; otherwise the `i`-th name is the `i`-th genre's name or `''` |
| GogParser.GameDetails | parsers/gog_parser.py:148-170 | `{}` exactly on a non-200 status or an empty document. It raises exactly on an unreadable body, a genre entry that is not an object, or a final amount, base amount or discount that does not convert. Otherwise the free flag, final amount, base amount and discount come from the price object (with defaults), and the genres are the entries' names (`''` when missing) |
| GogParser.Search | parsers/gog_parser.py:109-146 | nothing on a non-200 status, no products, or a first product that is not a game; an exception on an unreadable body or a malformed first product. For a first product that is a game, the search raises exactly when its details raise or one of its price fields does not convert, and otherwise finds a deal. That deal has the product's title, `str(id)` and link, the converted final amount, base amount and discount (defaults 0), the price object's free flag, and the details' genres when the details are non-empty (else the product's) |
| GogParser.SearchReadsFirstOnly | parsers/gog_parser.py:128 | the products after the first never change the search's outcome |
| Settings.RemoveFirst | bot.py:150 | `list.remove(g)` drops the first occurrence of `g` and keeps the rest in order: the list before that index followed by the list after it |
| Settings.FirstIndex | bot.py:150 | the first position of `g` in a list holding it: it holds `g` and no earlier position does |
| Settings.Toggled | bot.py:149-152 | toggling a chosen genre removes one occurrence of it; toggling an unchosen one appends it at the end; every other genre's count is unchanged |
| Settings.GenreIdOf | bot.py:147 | `int(data.split('_')[-1])` succeeds exactly when the last `_`-separated segment is integer text; a run of digits reads as its value, and data ending in a character that is neither a digit nor whitespace (`_` included) fails |
| Settings.ToggledMembership | bot.py:149-152 | toggling a genre flips whether that genre is chosen, leaves every other genre as it was, and keeps the list free of duplicates |
| Settings.ToggleTwice | bot.py:149-152 | toggling the same genre twice restores every genre's membership, and restores the list exactly when the genre was not chosen |
| Settings.GenreCallbackRoundTrip | bot.py:147 | the id read from the button `toggle_genre_<id>` is `id` |
| Settings.User.constructor | database.py:32-34 | a new subscriber has no genres, both notifications on and minimum discount 50 |
| Settings.User.ToggleGenre | bot.py:142-161 | a known genre id toggles that genre and nothing else. An id `int()` cannot read, or one naming no genre, stores nothing. No duplicates arise |
| Settings.User.ToggleNotification | bot.py:195-211 | `toggle_sales` flips only the sales flag, `toggle_free` only the free-games flag, any other data changes nothing |
| Commands.Gathered | bot.py:284-289 | `gather` raises exactly when one of the calls raised; otherwise it gives each call's result in call order |
| Commands.Merge | bot.py:291-293 | the `extend` loop lays the lists end to end |
| Commands.ConcatMember | bot.py:291-293 | a merged deal comes from one of the lists, and every listed deal is merged |
| Commands.ConcatThree | bot.py:284-293 | the merged list is Steam's deals, then Epic's, then GOG's |
| Commands.Names | bot.py:297 | the names of the chosen genres, in order |
| Commands.ByGenresMember | bot.py:296-301 | with no genre chosen nothing is filtered. Otherwise a deal survives exactly when one of its genres is a chosen genre's name, so a deal without genres is dropped |
| Commands.ByGenres | bot.py:296-301 | with no genre chosen the list is unchanged; the filter never adds a deal |
| Commands.Insert | bot.py:304 | inserting a deal into a list adds exactly that deal |
| Commands.SortByDiscount | bot.py:304 | the sorted list is a permutation of its input |
| Commands.InsertSorted | bot.py:304 | inserting into a list ordered by descending discount keeps it ordered |
| Commands.InsertWithDiscount | bot.py:304 | insertion puts a deal before every deal with its own discount, so equal discounts keep their order |
| Commands.SortOrders | bot.py:304 | the sort orders by non-increasing discount |
| Commands.SortStable | bot.py:304 | the sort is stable: for every discount value, the deals with that discount appear in their original order |
| Commands.StoreUrl | bot.py:329-335 | whatever the platform's case, a Steam deal links to `https://store.steampowered.com/app/<id>`, an Epic deal to `https://store.epicgames.com/p/<id>` and a GOG deal to `https://www.gog.com/game/<id>`; a deal of any other platform keeps its own link |
| Commands.ClientUrl | bot.py:342-344 | the client link is `https://store.steampowered.com/about/` exactly for Steam, `https://store.epicgames.com/download` exactly for Epic, and the GOG Galaxy page exactly when the platform is neither |
| Commands.StoreUrlOfPlatform | bot.py:329-344 | a Steam deal links to the same app page the Steam parser builds; a deal of another platform keeps its own link; anything but Steam or Epic offers the GOG Galaxy client |
| Commands.EpicStoreUrlIsNotProductUrl | bot.py:332-333 | the store button of an Epic deal (`/p/<id>`) never opens the `/store/p/<slug>` page the Epic parser puts in the deal (parsers/epic_parser.py:153) |
| Commands.LinksIgnoreCase | bot.py:329-344 | the store and client links do not depend on the case the platform is written in |
| Commands.Deliver | bot.py:316-318 | the posting loop emits the paced trace of its deals |
| Commands.Paced | bot.py:316-318 | the paced trace is empty exactly when there are no deals, and ends with the last deal's message |
| Commands.PacedLayout | bot.py:316-318 | messages and pauses alternate: `2n - 1` emissions for `n` deals, the `i`-th deal posted with its links at position `2i`, a pause at every odd position |
| Commands.PacedCounts | bot.py:316-318 | `n` deals are posted in their given order with `n - 1` pauses |
| Commands.PostedFrom | bot.py:316-318 | every posted deal is one of the deals given |
| Commands.ShownAreTheBest | bot.py:296-316 | `/deals` shows five candidates, or all of them when fewer pass the genre filter. They are ordered by descending discount, merged deals that pass the filter, and no unshown candidate has a larger discount than a shown one |
| Commands.DealsReplyOutcome | bot.py:289-361 | a command fails exactly when a store call raised; `/deals` finds nothing exactly when no merged deal passes the genre filter |
| Commands.DealsReply | bot.py:289-361 | `/deals` fails exactly when a store call raised; a delivered reply holds between 1 and 9 emissions, that is at most five deals with the pauses between them |
| Commands.FreeReply | bot.py:363-434 | `/free` fails exactly when a store call raised; a delivered reply holds `2n - 1` emissions for the `n` merged free games |
| Commands.PostDeals | bot.py:284-361 | the command's body, run on the three stores' results, gives the `/deals` reply |
| Commands.PostFree | bot.py:371-434 | the command's body, run on the three stores' results, gives the `/free` reply |
| Commands.DealsCommand | bot.py:272-361 | no subscriber row means the error message. Otherwise all three stores are asked for deals at the subscriber's own minimum discount, and the reply is the merged, filtered, sorted top five, paced |
| Commands.FreeCommand | bot.py:363-434 | the reply posts every store's free games, merged in store order, unfiltered, unsorted and uncapped, paced |
| Commands.StoreListingsQualify | bot.py:284-289 | whatever each store's `get_deals` returns meets the threshold and is not free, and an Epic deal has no genres |
| Commands.DealsPostsQualify | bot.py:284-318 | every deal `/deals` posts has at least the subscriber's minimum discount and is not free. Once a genre is chosen it names one of them and is never an Epic deal |
| Commands.DealsRepliesQualify | bot.py:289-318 | when every store's deals meet the threshold and are not free, so does every posted deal, and with a genre chosen each one names a chosen genre and is not an Epic deal |
| Commands.StoreFreeListingsFree | bot.py:371-377 | whatever each store's `get_free_games` returns is free, at price 0 and 100% off |
| Commands.FreePostsAreFree | bot.py:371-395 | every game `/free` posts is free, and it posts Steam's free games, then Epic's, then GOG's, in order |
| Commands.FreeRepliesPostFree | bot.py:379-395 | when every store lists only free games, `/free` posts only free games |
| Commands.FreeReplyInStoreOrder | bot.py:371-395 | a delivered `/free` reply is the paced trace of Steam's, then Epic's, then GOG's games |
| Dialog.FirstMatch | bot.py:450-462 | no handler answers exactly when no pattern of the state matches |
| Dialog.FirstMatchEarliest | bot.py:450-462 | the handler that answers is that of the earliest matching pattern |
| Dialog.Route | bot.py:447-466 | `/start` is answered by `start` from anywhere and no other command is routed; a button outside a conversation is not answered; a button inside one is answered exactly when some handler of the current state matches it, and then by a handler whose pattern matches it |
| Dialog.Returns | bot.py:28-270 | `toggle_genre`, `toggle_notification` and `help_command` return nothing; `notification_settings` and only it leads to the notification screen; the other handlers lead to the genre menu |
| Dialog.Step | bot.py:447-466 | an open conversation stays open; the state changes only when a handler answers, and when the handler returns a state the conversation moves to it; `/start` always leads to the genre menu |
| Dialog.StartOpens | bot.py:448-465 | `/start` leads to the genre menu from anywhere. Nothing else opens a conversation, and an open conversation never closes |
| Dialog.NotificationScreen | bot.py:459-462 | the notification screen answers only `toggle_…` buttons and the back button; a `toggle_…` button runs the notification toggle and stays on the screen, and `back_to_main` goes back to the genre menu |
| Dialog.GenreScreen | bot.py:450-457 | the genre screen never runs the notification toggle; a `toggle_genre_…` button runs the genre toggle and stays on the screen, `notification_settings` opens the notification screen, and `back_to_main` restarts on the genre menu |
| Dialog.GenreMenuButtons | bot.py:450-457 | on the genre screen `notification_settings` is answered by the notification-settings handler and `back_to_main` by `start` |
| Dialog.GenreButtonRoundTrip | bot.py:93-99 | the button built for genre `id` is answered by the genre toggle, which reads back `id` |
| Dialog.Chat.constructor | bot.py:447-466 | a chat starts outside any conversation |
| Dialog.Chat.Handle | bot.py:447-466 | the state moves as the routing table says. `/start` creates a missing subscriber row with the defaults. The toggles change the row as their handlers do, and every other handler leaves it unchanged. A conversation only runs with a row present |

## Left out

- HTTP, HTML and JSON decoding are not modelled. A response is non-200, a decoded value, or a failure that raises. A Steam search row is its already-extracted title, id, link, badge text and price text.
- Concurrency is not modelled. `asyncio.gather` keeps only result order and "any exception fails the command", and `asyncio.sleep` keeps only the number and position of the pauses.
- The Telegram API is not modelled: message texts, Markdown, keyboards, the status message and its deletion, answering callback queries, and logging.
- The SQLAlchemy layer is not modelled: sessions, commits and table creation. The subscriber's row is a `Settings.User` object, and the genres table is the `catalog` map handed to the toggle.
- `select_genres` creating missing genre rows is not modelled (it is database side effects and keyboard text).
- `config.py` is not modelled: tokens, URLs and the unused `MAX_GAMES_PER_NOTIFICATION`.
- `Deals.PercentOff`: computed exactly on reals. Python's float `int((o - c) / o * 100)` can round to one less at an exact boundary, which the model does not capture.
- `Text.ParseFloat` accepts plain decimal notation only. Python's `float()` also accepts `inf`, `nan`, exponents like `1e5` and underscores. `Text.ParseInt` does not accept underscores either.
- `Text.IsSpace` covers the ASCII and common Unicode whitespace characters. `Text.Lower` and `Text.Upper` change ASCII letters only.
- `SteamParser.PricesOf`: states only that there is one price per token. The value of each token is stated for whole-rouble prices by `SteamParser.RubleTextPrice` and `SteamParser.PricesOfRubleTexts`, not for every text.
- `SteamParser.PriceOf`: the value of a token is stated only for `n₽` (`SteamParser.RubleTextPrice`) and `n.f₽` (`SteamParser.RublePointPrice`). A token with `,` separators or a sign is characterised only by the characters it may hold and by `Text.ParseFloat`'s acceptance condition.
- `Commands.SortByDiscount`: `list.sort` is the language's own algorithm. It is modelled as a stable sort function on the list's value, not as the in-place update.
- A JSON member whose value is `null` reads as a missing one. In the source, `.get(key, '')` then returns `None`, so an Epic or GOG title or id becomes `None` and a link ends in `None`. The model gives the default instead. Only Steam's `str(item.get('id'))` models the text `None`.
- The Steam listings build a `GameDeal` and then assign `game.genres`. The model builds the record and replaces its genres in `SteamParser.Enrich`, so aliasing of the record is not modelled.
- `Settings.User.ToggleGenre`: when no genre has the id read from the button, the handler appends `None` and the commit fails. The model stores nothing in that case and does not model the failed database write itself.
- The `/help`, `/deals` and `/free` command handlers registered outside the conversation are not routed by `Dialog.Route`. A `/help` or `/deals` command leaves the conversation state unchanged, as the model states.
- The default `min_discount=50` of `get_deals` (parsers/base_parser.py:29) is not modelled: every call in the bot passes the subscriber's own minimum discount, so each `GetDeals` takes it as a parameter.
- Conversation timeouts and per-chat keys are not modelled. One `Dialog.Chat` is one subscriber's conversation.
