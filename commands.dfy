/** The `/deals` and `/free` commands: gather the three stores' listings, merge
    them, filter by the subscriber's genres, order by discount and post them one
    message at a time with a pause between messages. */
module Commands {
  import opened Wrappers
  import opened Text
  import opened Deals
  import Settings
  import SteamParser
  import EpicParser
  import GogParser

  /** `all_deals[:5]`: at most this many deals are posted by `/deals`. */
  const MaxShown := 5

  // ---------------------------------------------------------------- gather and merge

  /** `asyncio.gather`: the stores' results in order, or `Raised` when any call raised. */
  function Gathered(results: seq<Outcome<seq<GameDeal>>>): (r: Outcome<seq<seq<GameDeal>>>)
    ensures r.Raised? <==> exists i :: 0 <= i < |results| && results[i].Raised?
    ensures r.Returned? ==>
      |r.value| == |results| && forall i :: 0 <= i < |results| ==> results[i] == Returned(r.value[i])
  {
    if |results| == 0 then Returned([])
    else
      var last := results[|results| - 1];
      match Gathered(results[..|results| - 1])
      case Raised => Raised
      case Returned(init) =>
        match last
        case Raised => Raised
        case Returned(v) => Returned(init + [v])
  }

  /** The lists laid end to end. */
  function Concat(lists: seq<seq<GameDeal>>): seq<GameDeal> {
    if |lists| == 0 then [] else Concat(lists[..|lists| - 1]) + lists[|lists| - 1]
  }

  /** The loop `for deals in results: all_deals.extend(deals)`. */
  method Merge(lists: seq<seq<GameDeal>>) returns (all: seq<GameDeal>)
    ensures all == Concat(lists)
  {
    all := [];
    for i := 0 to |lists|
      invariant all == Concat(lists[..i])
    {
      assert lists[..i + 1][..i] == lists[..i];
      all := all + lists[i];
    }
    assert lists[..|lists|] == lists;
  }

  /** A merged deal comes from one of the lists, and every listed deal is merged. */
  lemma {:induction false} ConcatMember(lists: seq<seq<GameDeal>>, d: GameDeal)
    ensures d in Concat(lists) <==> exists i :: 0 <= i < |lists| && d in lists[i]
  {
    if |lists| > 0 {
      var init := lists[..|lists| - 1];
      ConcatMember(init, d);
      if exists i :: 0 <= i < |init| && d in init[i] {
        var i :| 0 <= i < |init| && d in init[i];
        assert d in lists[i];
      }
      if exists i :: 0 <= i < |lists| && d in lists[i] {
        var i :| 0 <= i < |lists| && d in lists[i];
        if i < |init| { assert d in init[i]; }
      }
    }
  }

  /** Steam's deals come first, then Epic's, then GOG's. */
  lemma ConcatThree(steam: seq<GameDeal>, epic: seq<GameDeal>, gog: seq<GameDeal>)
    ensures Concat([steam, epic, gog]) == steam + epic + gog
  {
    assert [steam, epic, gog][..2] == [steam, epic];
    assert [steam, epic][..1] == [steam];
    assert [steam][..0] == [];
    assert Concat([steam]) == steam;
    assert Concat([steam, epic]) == steam + epic;
  }

  // ---------------------------------------------------------------- genre filter

  /** `[genre.name for genre in user.preferred_genres]`. */
  function Names(gs: seq<Settings.Genre>): (r: seq<string>)
    ensures |r| == |gs| && forall i :: 0 <= i < |gs| ==> r[i] == gs[i].name
  {
    if |gs| == 0 then [] else [gs[0].name] + Names(gs[1..])
  }

  /** `any(genre in preferred_genre_names for genre in deal.genres)`. */
  predicate Overlaps(genres: seq<string>, names: seq<string>) {
    exists i :: 0 <= i < |genres| && genres[i] in names
  }

  function GenreKeeper(names: seq<string>): GameDeal -> Option<GameDeal> {
    (d: GameDeal) => if Overlaps(d.genres, names) then Some(d) else None
  }

  /** The genre filter, applied only when the subscriber chose some genre. */
  function ByGenres(ds: seq<GameDeal>, prefs: seq<Settings.Genre>): (r: seq<GameDeal>)
    ensures |prefs| == 0 ==> r == ds
    ensures |r| <= |ds|
  {
    if |prefs| == 0 then ds else FilterMap(ds, GenreKeeper(Names(prefs)))
  }

  /** The deal names one of the subscriber's genres. */
  predicate SharesGenre(d: GameDeal, prefs: seq<Settings.Genre>) {
    exists i, j :: 0 <= i < |d.genres| && 0 <= j < |prefs| && d.genres[i] == prefs[j].name
  }

  /** A deal survives the filter exactly when the subscriber chose no genre, or
      chose one the deal names; in particular a deal without genres is dropped
      as soon as any genre is chosen. */
  lemma ByGenresMember(ds: seq<GameDeal>, prefs: seq<Settings.Genre>, d: GameDeal)
    ensures d in ByGenres(ds, prefs) <==> d in ds && (|prefs| == 0 || SharesGenre(d, prefs))
  {
    if |prefs| > 0 {
      var names := Names(prefs);
      var keep := GenreKeeper(names);
      FilterMapMember(ds, keep, d);
      if d in ByGenres(ds, prefs) {
        var k :| 0 <= k < |ds| && keep(ds[k]) == Some(d);
        var i :| 0 <= i < |d.genres| && d.genres[i] in names;
        var j :| 0 <= j < |names| && names[j] == d.genres[i];
      }
      if d in ds && SharesGenre(d, prefs) {
        var i, j :| 0 <= i < |d.genres| && 0 <= j < |prefs| && d.genres[i] == prefs[j].name;
        assert names[j] == d.genres[i];
        assert Overlaps(d.genres, names);
        var k :| 0 <= k < |ds| && ds[k] == d;
        assert keep(ds[k]) == Some(d);
      }
    }
  }

  // ---------------------------------------------------------------- sort by discount

  /** Highest discount first. */
  predicate ByDiscountDesc(ds: seq<GameDeal>) {
    forall i, j :: 0 <= i < j < |ds| ==> ds[i].discountPercent >= ds[j].discountPercent
  }

  /** Places `x` before the first deal whose discount does not exceed its own. */
  function Insert(x: GameDeal, s: seq<GameDeal>): (r: seq<GameDeal>)
    ensures multiset(r) == multiset(s) + multiset{x}
  {
    if |s| == 0 then [x]
    else
      assert s == [s[0]] + s[1..];
      if s[0].discountPercent <= x.discountPercent then [x] + s
      else [s[0]] + Insert(x, s[1..])
  }

  /** `all_deals.sort(key=lambda x: x.discount_percent, reverse=True)`: a stable
      sort by descending discount (deals with equal discount keep their order). */
  function SortByDiscount(ds: seq<GameDeal>): (r: seq<GameDeal>)
    ensures multiset(r) == multiset(ds)
  {
    if |ds| == 0 then []
    else
      assert ds == [ds[0]] + ds[1..];
      Insert(ds[0], SortByDiscount(ds[1..]))
  }

  /** The deals with discount `k`, in order. */
  function WithDiscount(ds: seq<GameDeal>, k: int): seq<GameDeal> {
    if |ds| == 0 then []
    else (if ds[0].discountPercent == k then [ds[0]] else []) + WithDiscount(ds[1..], k)
  }

  lemma {:induction false} InsertSorted(x: GameDeal, s: seq<GameDeal>)
    requires ByDiscountDesc(s)
    ensures ByDiscountDesc(Insert(x, s))
  {
    if |s| > 0 && s[0].discountPercent > x.discountPercent {
      InsertSorted(x, s[1..]);
      var t := Insert(x, s[1..]);
      forall j | 0 <= j < |t| ensures s[0].discountPercent >= t[j].discountPercent {
        assert t[j] in multiset(t);
        assert t[j] == x || t[j] in multiset(s[1..]);
      }
    }
  }

  lemma {:induction false} InsertWithDiscount(x: GameDeal, s: seq<GameDeal>, k: int)
    ensures WithDiscount(Insert(x, s), k)
         == (if x.discountPercent == k then [x] else []) + WithDiscount(s, k)
  {
    if |s| == 0 {
    } else if s[0].discountPercent <= x.discountPercent {
      ConsRest(x, s);
    } else {
      ConsRest(s[0], Insert(x, s[1..]));
      InsertWithDiscount(x, s[1..], k);
      EmptySwap(if s[0].discountPercent == k then [s[0]] else [], if x.discountPercent == k then [x] else [],
                WithDiscount(s[1..], k));
    }
  }

  /** Stated for any element type, so that the solver does not look inside the deals. */
  lemma ConsRest<T>(x: T, s: seq<T>)
    ensures ([x] + s)[0] == x && ([x] + s)[1..] == s
  {
  }

  /** Two pieces of which one is empty can be put in either order. */
  lemma EmptySwap<T>(a: seq<T>, b: seq<T>, w: seq<T>)
    requires a == [] || b == []
    ensures a + (b + w) == b + (a + w)
  {
  }

  /** The sort orders by descending discount. */
  lemma {:induction false} SortOrders(ds: seq<GameDeal>)
    ensures ByDiscountDesc(SortByDiscount(ds))
  {
    if |ds| > 0 {
      SortOrders(ds[1..]);
      InsertSorted(ds[0], SortByDiscount(ds[1..]));
    }
  }

  /** The sort is stable: the deals sharing a discount appear in their original order. */
  lemma {:induction false} SortStable(ds: seq<GameDeal>, k: int)
    ensures WithDiscount(SortByDiscount(ds), k) == WithDiscount(ds, k)
  {
    if |ds| > 0 {
      SortStable(ds[1..], k);
      InsertWithDiscount(ds[0], SortByDiscount(ds[1..]), k);
    }
  }

  // ---------------------------------------------------------------- posting

  /** The "buy" / "open in store" button of a message: for a known platform, a
      store page ending in the deal's id; otherwise the deal's own link. */
  function StoreUrl(d: GameDeal): (r: string)
    ensures Lower(d.platform) in {"steam", "epic", "gog"} ==>
      && "https://" <= r && |d.storeId| < |r| && r[|r| - |d.storeId|..] == d.storeId
    ensures Lower(d.platform) == "steam" ==> r == "https://store.steampowered.com/app/" + d.storeId
    ensures Lower(d.platform) == "epic" ==> r == "https://store.epicgames.com/p/" + d.storeId
    ensures Lower(d.platform) == "gog" ==> r == "https://www.gog.com/game/" + d.storeId
    ensures Lower(d.platform) !in {"steam", "epic", "gog"} ==> r == d.url
  {
    var p := Lower(d.platform);
    if p == "steam" then "https://store.steampowered.com/app/" + d.storeId
    else if p == "epic" then "https://store.epicgames.com/p/" + d.storeId
    else if p == "gog" then "https://www.gog.com/game/" + d.storeId
    else d.url
  }

  /** The "download the client" button of a message: one of the three stores'
      client pages, GOG Galaxy for anything but Steam and Epic. */
  function ClientUrl(d: GameDeal): (r: string)
    ensures r in {"https://store.steampowered.com/about/", "https://store.epicgames.com/download",
                  "https://www.gog.com/galaxy"}
    ensures r == "https://www.gog.com/galaxy" <==> Lower(d.platform) !in {"steam", "epic"}
    ensures r == "https://store.steampowered.com/about/" <==> Lower(d.platform) == "steam"
    ensures r == "https://store.epicgames.com/download" <==> Lower(d.platform) == "epic"
  {
    var p := Lower(d.platform);
    if p == "steam" then "https://store.steampowered.com/about/"
    else if p == "epic" then "https://store.epicgames.com/download"
    else "https://www.gog.com/galaxy"
  }

  /** The store link of a Steam deal is the page the Steam parser links an app to;
      a deal of an unknown platform keeps its own link. */
  lemma StoreUrlOfPlatform(d: GameDeal)
    ensures Lower(d.platform) == "steam" ==> StoreUrl(d) == SteamParser.AppUrl(d.storeId)
    ensures Lower(d.platform) !in {"steam", "epic", "gog"} ==> StoreUrl(d) == d.url
    ensures Lower(d.platform) !in {"steam", "epic"} ==> ClientUrl(d) == "https://www.gog.com/galaxy"
  {
  }

  /** The store button of an Epic deal opens `/p/<id>`, which is never the
      `/store/p/<slug>` page the Epic parser put in the deal's own link. */
  lemma EpicStoreUrlIsNotProductUrl(d: GameDeal, slug: string)
    requires Lower(d.platform) == "epic"
    ensures StoreUrl(d) != EpicParser.ProductUrl(slug)
  {
    var u, v := StoreUrl(d), EpicParser.ProductUrl(slug);
    assert u[28] == 'p';
    assert v[28] == 's';
  }

  /** The platform is compared case-insensitively: writing it in capitals picks
      the same links. */
  lemma {:induction false} LinksIgnoreCase(d: GameDeal)
    ensures StoreUrl(d.(platform := Upper(d.platform))) == StoreUrl(d)
    ensures ClientUrl(d.(platform := Upper(d.platform))) == ClientUrl(d)
  {
    LowerOfUpper(d.platform);
  }

  /** One message of a reply, or the half-second pause between two messages. */
  datatype Emission = Post(deal: GameDeal, storeUrl: string, clientUrl: string) | Pause

  function Announce(d: GameDeal): Emission {
    Post(d, StoreUrl(d), ClientUrl(d))
  }

  /** The messages for `ds`, with a pause before every message but the first. */
  function Paced(ds: seq<GameDeal>): (r: seq<Emission>)
    ensures |r| == 0 <==> |ds| == 0
    ensures |ds| > 0 ==> r[|r| - 1] == Announce(ds[|ds| - 1])
  {
    if |ds| == 0 then []
    else if |ds| == 1 then [Announce(ds[0])]
    else Paced(ds[..|ds| - 1]) + [Pause, Announce(ds[|ds| - 1])]
  }

  /** `for i, deal in enumerate(ds): if i > 0: sleep(0.5); send(deal)`. */
  method Deliver(ds: seq<GameDeal>) returns (trace: seq<Emission>)
    ensures trace == Paced(ds)
  {
    trace := [];
    for i := 0 to |ds|
      invariant trace == Paced(ds[..i])
    {
      PacedStep(ds, i);
      if i > 0 {
        trace := trace + [Pause];
      }
      trace := trace + [Announce(ds[i])];
    }
    assert ds[..|ds|] == ds;
  }

  /** One pass of the posting loop: a pause unless it is the first deal, then the deal. */
  lemma PacedStep(ds: seq<GameDeal>, i: nat)
    requires i < |ds|
    ensures Paced(ds[..i + 1]) == Paced(ds[..i]) + (if i > 0 then [Pause] else []) + [Announce(ds[i])]
  {
    assert ds[..i + 1][..i] == ds[..i];
  }

  /** Messages and pauses alternate: the `i`-th deal is posted at position `2i`
      with its links, and a pause sits at every odd position. */
  lemma {:induction false} PacedLayout(ds: seq<GameDeal>)
    ensures |Paced(ds)| == if |ds| == 0 then 0 else 2 * |ds| - 1
    ensures forall k :: 0 <= k < |Paced(ds)| ==> (Paced(ds)[k].Pause? <==> k % 2 == 1)
    ensures forall k :: 0 <= k < |Paced(ds)| && k % 2 == 0 ==> Paced(ds)[k] == Announce(ds[k / 2])
  {
    if |ds| > 1 {
      var init := ds[..|ds| - 1];
      PacedLayout(init);
      var p, t := Paced(init), Paced(ds);
      assert t == p + [Pause, Announce(ds[|ds| - 1])];
      assert |p| == 2 * |ds| - 3;
      forall k | 0 <= k < |t|
        ensures t[k].Pause? <==> k % 2 == 1
        ensures k % 2 == 0 ==> t[k] == Announce(ds[k / 2])
      {
        if k < |p| {
          assert t[k] == p[k];
          assert p[k].Pause? <==> k % 2 == 1;
          if k % 2 == 0 {
            assert p[k] == Announce(init[k / 2]);
            assert init[k / 2] == ds[k / 2];
          }
        } else if k == |p| {
          assert k == 2 * (|ds| - 2) + 1;
          Halves(|ds| - 2);
          assert t[k] == Pause && k % 2 == 1;
        } else {
          assert k == 2 * (|ds| - 1);
          Halves(|ds| - 1);
          assert t[k] == Announce(ds[|ds| - 1]) && k % 2 == 0 && k / 2 == |ds| - 1;
        }
      }
    }
  }

  lemma Halves(n: nat)
    ensures (2 * n) % 2 == 0 && (2 * n) / 2 == n
    ensures (2 * n + 1) % 2 == 1 && (2 * n + 1) / 2 == n
  {
  }

  /** The pauses of a trace. */
  function Pauses(t: seq<Emission>): nat {
    if |t| == 0 then 0 else Pauses(t[..|t| - 1]) + (if t[|t| - 1].Pause? then 1 else 0)
  }

  /** The deals a trace posts, in order. */
  function Posts(t: seq<Emission>): seq<GameDeal> {
    if |t| == 0 then [] else Posts(t[..|t| - 1]) + (if t[|t| - 1].Post? then [t[|t| - 1].deal] else [])
  }

  /** `n` deals are posted in their given order with `n - 1` pauses. */
  lemma {:induction false} PacedCounts(ds: seq<GameDeal>)
    ensures Posts(Paced(ds)) == ds
    ensures Pauses(Paced(ds)) == if |ds| == 0 then 0 else |ds| - 1
  {
    if |ds| == 1 {
      assert Paced(ds)[..0] == [];
    } else if |ds| > 1 {
      var init := ds[..|ds| - 1];
      var p, a := Paced(init), Announce(ds[|ds| - 1]);
      PacedCounts(init);
      SnocTwo(p, Pause, a);
      TraceSnoc(p, Pause);
      TraceSnoc(p + [Pause], a);
      InitLast(ds);
    }
  }

  /** Stated for any element type, so that the solver does not look inside the deals. */
  lemma InitLast<T>(s: seq<T>)
    requires |s| > 0
    ensures s[..|s| - 1] + [s[|s| - 1]] == s
  {
  }

  lemma SnocTwo<T>(t: seq<T>, x: T, y: T)
    ensures t + [x, y] == (t + [x]) + [y]
  {
  }

  lemma SnocPrefix<T>(t: seq<T>, e: T)
    ensures (t + [e])[..|t|] == t
  {
  }

  /** Appending one emission adds its deal, or its pause, at the end. */
  lemma TraceSnoc(t: seq<Emission>, e: Emission)
    ensures e.Post? ==> Posts(t + [e]) == Posts(t) + [e.deal] && Pauses(t + [e]) == Pauses(t)
    ensures e.Pause? ==> Posts(t + [e]) == Posts(t) && Pauses(t + [e]) == Pauses(t) + 1
  {
    SnocPrefix(t, e);
  }

  /** Every posted deal is one of `ds`. */
  lemma PostedFrom(ds: seq<GameDeal>)
    ensures forall k :: 0 <= k < |Paced(ds)| && Paced(ds)[k].Post? ==> Paced(ds)[k].deal in ds
  {
    PacedLayout(ds);
  }

  // ---------------------------------------------------------------- replies

  /** What a command ends with: the error message, the "nothing found" message,
      or the posted messages. */
  datatype Reply = Failed | NothingFound | Delivered(trace: seq<Emission>)

  /** `all_deals[:n]`. */
  function Take(ds: seq<GameDeal>, n: nat): seq<GameDeal> {
    if |ds| <= n then ds else ds[..n]
  }

  /** The deals `/deals` considers, best discount first. */
  function Selection(merged: seq<GameDeal>, prefs: seq<Settings.Genre>): seq<GameDeal> {
    SortByDiscount(ByGenres(merged, prefs))
  }

  /** The deals `/deals` posts. */
  function Shown(merged: seq<GameDeal>, prefs: seq<Settings.Genre>): seq<GameDeal> {
    Take(Selection(merged, prefs), MaxShown)
  }

  /** The body of `deals_command` once the subscriber's row is found. */
  function DealsReply(results: seq<Outcome<seq<GameDeal>>>, prefs: seq<Settings.Genre>): (r: Reply)
    ensures r == Failed <==> Gathered(results).Raised?
    ensures r.Delivered? ==> 1 <= |r.trace| <= 2 * MaxShown - 1
  {
    match Gathered(results)
    case Raised => Failed
    case Returned(lists) =>
      var shown := Shown(Concat(lists), prefs);
      PacedLayout(shown);
      if |shown| == 0 then NothingFound else Delivered(Paced(shown))
  }

  /** The body of `free_command`: every free game, in store order, unfiltered and uncapped. */
  function FreeReply(results: seq<Outcome<seq<GameDeal>>>): (r: Reply)
    ensures r == Failed <==> Gathered(results).Raised?
    ensures r.Delivered? ==> |r.trace| == 2 * |Concat(Gathered(results).value)| - 1
  {
    match Gathered(results)
    case Raised => Failed
    case Returned(lists) =>
      var all := Concat(lists);
      PacedLayout(all);
      if |all| == 0 then NothingFound else Delivered(Paced(all))
  }

  /** The shown deals are at most five, chosen among the merged deals that pass
      the genre filter, ordered by descending discount, and no unshown candidate
      has a larger discount than a shown one. */
  lemma ShownAreTheBest(merged: seq<GameDeal>, prefs: seq<Settings.Genre>)
    ensures |Shown(merged, prefs)| == if |ByGenres(merged, prefs)| <= MaxShown then |ByGenres(merged, prefs)| else MaxShown
    ensures ByDiscountDesc(Shown(merged, prefs))
    ensures forall d :: d in Shown(merged, prefs) ==> d in merged && (|prefs| == 0 || SharesGenre(d, prefs))
    ensures forall i, j :: 0 <= i < |Shown(merged, prefs)| <= j < |Selection(merged, prefs)| ==>
      Selection(merged, prefs)[i].discountPercent >= Selection(merged, prefs)[j].discountPercent
  {
    var sel := Selection(merged, prefs);
    SortOrders(ByGenres(merged, prefs));
    assert |sel| == |ByGenres(merged, prefs)| by {
      assert |multiset(sel)| == |multiset(ByGenres(merged, prefs))|;
    }
    forall d | d in Shown(merged, prefs)
      ensures d in merged && (|prefs| == 0 || SharesGenre(d, prefs))
    {
      assert d in sel;
      assert d in multiset(sel);
      assert d in ByGenres(merged, prefs);
      ByGenresMember(merged, prefs, d);
    }
  }

  /** A command fails exactly when some store call raised; `/deals` finds
      nothing exactly when no merged deal passes the genre filter. */
  lemma DealsReplyOutcome(results: seq<Outcome<seq<GameDeal>>>, prefs: seq<Settings.Genre>)
    ensures DealsReply(results, prefs) == Failed <==> exists i :: 0 <= i < |results| && results[i].Raised?
    ensures DealsReply(results, prefs) == NothingFound <==>
      Gathered(results).Returned? && |ByGenres(Concat(Gathered(results).value), prefs)| == 0
    ensures FreeReply(results) == Failed <==> exists i :: 0 <= i < |results| && results[i].Raised?
  {
    if Gathered(results).Returned? {
      ShownAreTheBest(Concat(Gathered(results).value), prefs);
    }
  }

  // ---------------------------------------------------------------- commands

  /** `deals_command`. `user` is the subscriber's row, `null` when there is none
      (then reading `user.min_discount` raises and the error message is sent).
      Every store is asked for deals at the subscriber's own minimum discount. */
  method DealsCommand(
    user: Settings.User?,
    steam: Response<seq<SteamParser.Row>>, steamLookup: SteamParser.Lookup,
    epic: Response<seq<EpicParser.Element>>, gog: Response<seq<GogParser.Product>>)
    returns (reply: Reply)
    ensures user == null ==> reply == Failed
    ensures user != null ==> reply == DealsReply(
      [ SteamParser.DealsListing(steam, user.minDiscount, steamLookup),
        EpicParser.DealsListing(epic, user.minDiscount),
        GogParser.DealsListing(gog, user.minDiscount) ],
      user.preferredGenres)
  {
    if user == null {
      return Failed;
    }
    var s := SteamParser.GetDeals(steam, user.minDiscount, steamLookup);
    var e := EpicParser.GetDeals(epic, user.minDiscount);
    var g := GogParser.GetDeals(gog, user.minDiscount);
    reply := PostDeals(s, e, g, user.preferredGenres);
  }

  /** The part of `deals_command` after the three store calls: merge, filter,
      sort, and post the best five. */
  method PostDeals(s: Outcome<seq<GameDeal>>, e: Outcome<seq<GameDeal>>, g: Outcome<seq<GameDeal>>,
                   prefs: seq<Settings.Genre>)
    returns (reply: Reply)
    ensures reply == DealsReply([s, e, g], prefs)
  {
    var results := [s, e, g];
    if s.Raised? || e.Raised? || g.Raised? {
      assert results[0] == s && results[1] == e && results[2] == g;
      return Failed;
    }
    var lists := [s.value, e.value, g.value];
    assert results == [Returned(lists[0]), Returned(lists[1]), Returned(lists[2])];
    assert Gathered(results).Returned?;
    assert Gathered(results).value == lists;
    var all := Merge(lists);
    all := ByGenres(all, prefs);
    all := SortByDiscount(all);
    if |all| == 0 {
      return NothingFound;
    }
    var trace := Deliver(Take(all, MaxShown));
    return Delivered(trace);
  }

  /** `free_command`: every store's free games, posted in store order. */
  method FreeCommand(
    steam: Response<seq<SteamParser.Row>>, steamLookup: SteamParser.Lookup,
    epic: Response<seq<EpicParser.Element>>, gog: Response<seq<GogParser.Product>>)
    returns (reply: Reply)
    ensures reply == FreeReply(
      [ SteamParser.FreeGames(steam, steamLookup), EpicParser.FreeGames(epic), GogParser.FreeGames(gog) ])
  {
    var s := SteamParser.GetFreeGames(steam, steamLookup);
    var e := EpicParser.GetFreeGames(epic);
    var g := GogParser.GetFreeGames(gog);
    reply := PostFree(s, e, g);
  }

  /** The part of `free_command` after the three store calls: merge and post everything. */
  method PostFree(s: Outcome<seq<GameDeal>>, e: Outcome<seq<GameDeal>>, g: Outcome<seq<GameDeal>>)
    returns (reply: Reply)
    ensures reply == FreeReply([s, e, g])
  {
    var results := [s, e, g];
    if s.Raised? || e.Raised? || g.Raised? {
      assert results[0] == s && results[1] == e && results[2] == g;
      return Failed;
    }
    var lists := [s.value, e.value, g.value];
    assert results == [Returned(lists[0]), Returned(lists[1]), Returned(lists[2])];
    assert Gathered(results).Returned?;
    assert Gathered(results).value == lists;
    var all := Merge(lists);
    if |all| == 0 {
      return NothingFound;
    }
    var trace := Deliver(all);
    return Delivered(trace);
  }

  // ---------------------------------------------------------------- end to end

  /** The deals a reply posts. */
  function PostedDeals(reply: Reply): set<GameDeal> {
    if reply.Delivered? then
      set k | 0 <= k < |reply.trace| && reply.trace[k].Post? :: reply.trace[k].deal
    else {}
  }

  /** What every store's `get_deals` promises about a deal it lists. */
  predicate Qualifies(d: GameDeal, minDiscount: int) {
    d.discountPercent >= minDiscount && !d.isFree && (d.platform == "epic" ==> d.genres == [])
  }

  lemma StoreListingsQualify(
    steam: Response<seq<SteamParser.Row>>, steamLookup: SteamParser.Lookup,
    epic: Response<seq<EpicParser.Element>>, gog: Response<seq<GogParser.Product>>, minDiscount: int)
    ensures SteamParser.DealsListing(steam, minDiscount, steamLookup).Returned? ==>
      forall d :: d in SteamParser.DealsListing(steam, minDiscount, steamLookup).value ==> Qualifies(d, minDiscount)
    ensures EpicParser.DealsListing(epic, minDiscount).Returned? ==>
      forall d :: d in EpicParser.DealsListing(epic, minDiscount).value ==> Qualifies(d, minDiscount)
    ensures GogParser.DealsListing(gog, minDiscount).Returned? ==>
      forall d :: d in GogParser.DealsListing(gog, minDiscount).value ==> Qualifies(d, minDiscount)
  {
    if steam.Ok? {
      SteamParser.DealsMeetThreshold(steam.body, minDiscount, steamLookup);
    }
    if epic.Ok? {
      EpicParser.DealsMeetThreshold(epic.body, minDiscount);
    }
    if gog.Ok? {
      forall d | d in GogParser.DealsListing(gog, minDiscount).value ensures Qualifies(d, minDiscount) {
        GogParser.DealsMeetThreshold(gog.body, minDiscount, d);
      }
    }
  }

  /** Every deal `/deals` posts has at least the subscriber's minimum discount and
      is not free; once the subscriber has chosen any genre, no Epic deal is ever
      posted, because Epic's listing carries no genres. */
  lemma DealsPostsQualify(
    steam: Response<seq<SteamParser.Row>>, steamLookup: SteamParser.Lookup,
    epic: Response<seq<EpicParser.Element>>, gog: Response<seq<GogParser.Product>>,
    minDiscount: int, prefs: seq<Settings.Genre>)
    ensures forall d :: d in PostedDeals(DealsReply(
      [ SteamParser.DealsListing(steam, minDiscount, steamLookup),
        EpicParser.DealsListing(epic, minDiscount),
        GogParser.DealsListing(gog, minDiscount) ], prefs)) ==>
      && d.discountPercent >= minDiscount && !d.isFree
      && (|prefs| > 0 ==> SharesGenre(d, prefs) && d.platform != "epic")
  {
    var results := [
      SteamParser.DealsListing(steam, minDiscount, steamLookup),
      EpicParser.DealsListing(epic, minDiscount),
      GogParser.DealsListing(gog, minDiscount) ];
    StoreListingsQualify(steam, steamLookup, epic, gog, minDiscount);
    forall i, d | 0 <= i < |results| && results[i].Returned? && d in results[i].value
      ensures Qualifies(d, minDiscount)
    {
      if i == 0 {
        assert d in SteamParser.DealsListing(steam, minDiscount, steamLookup).value;
      } else if i == 1 {
        assert d in EpicParser.DealsListing(epic, minDiscount).value;
      } else {
        assert d in GogParser.DealsListing(gog, minDiscount).value;
      }
    }
    DealsRepliesQualify(results, minDiscount, prefs);
  }

  /** `/deals` posts only deals its stores listed that pass the genre filter, so
      only qualifying ones when every listing qualifies. */
  lemma DealsRepliesQualify(results: seq<Outcome<seq<GameDeal>>>, minDiscount: int, prefs: seq<Settings.Genre>)
    requires forall i, d :: 0 <= i < |results| && results[i].Returned? && d in results[i].value ==>
      Qualifies(d, minDiscount)
    ensures forall d :: d in PostedDeals(DealsReply(results, prefs)) ==>
      && d.discountPercent >= minDiscount && !d.isFree
      && (|prefs| > 0 ==> SharesGenre(d, prefs) && d.platform != "epic")
  {
    var reply := DealsReply(results, prefs);
    if reply.Delivered? {
      var lists := Gathered(results).value;
      var merged := Concat(lists);
      var shown := Shown(merged, prefs);
      ShownAreTheBest(merged, prefs);
      PostedFrom(shown);
      forall d | d in PostedDeals(reply)
        ensures d.discountPercent >= minDiscount && !d.isFree
        ensures |prefs| > 0 ==> SharesGenre(d, prefs) && d.platform != "epic"
      {
        assert d in shown;
        ConcatMember(lists, d);
        var i :| 0 <= i < |lists| && d in lists[i];
        assert results[i] == Returned(lists[i]);
        assert Qualifies(d, minDiscount);
      }
    }
  }

  /** What every store's `get_free_games` promises about a game it lists. */
  lemma StoreFreeListingsFree(
    steam: Response<seq<SteamParser.Row>>, steamLookup: SteamParser.Lookup,
    epic: Response<seq<EpicParser.Element>>, gog: Response<seq<GogParser.Product>>)
    ensures SteamParser.FreeGames(steam, steamLookup).Returned? ==>
      forall d :: d in SteamParser.FreeGames(steam, steamLookup).value ==> FreeShaped(d)
    ensures EpicParser.FreeGames(epic).Returned? ==>
      forall d :: d in EpicParser.FreeGames(epic).value ==> FreeShaped(d)
    ensures GogParser.FreeGames(gog).Returned? ==>
      forall d :: d in GogParser.FreeGames(gog).value ==> FreeShaped(d)
  {
    if steam.Ok? {
      SteamParser.FreeGamesAreFree(steam.body, steamLookup);
    }
    if epic.Ok? {
      EpicParser.FreeGamesAreFree(epic.body);
    }
    if gog.Ok? {
      forall d | d in GogParser.FreeGames(gog).value ensures FreeShaped(d) {
        GogParser.FreeGamesExactly(gog.body, d);
      }
    }
  }

  /** Every game `/free` posts is free, at price zero and a 100% discount, and
      it posts Steam's games, then Epic's, then GOG's, each exactly once in turn. */
  lemma FreePostsAreFree(
    steam: Response<seq<SteamParser.Row>>, steamLookup: SteamParser.Lookup,
    epic: Response<seq<EpicParser.Element>>, gog: Response<seq<GogParser.Product>>)
    ensures forall d :: d in PostedDeals(FreeReply(
      [ SteamParser.FreeGames(steam, steamLookup), EpicParser.FreeGames(epic), GogParser.FreeGames(gog) ])) ==>
      FreeShaped(d)
    ensures FreeReply(
      [ SteamParser.FreeGames(steam, steamLookup), EpicParser.FreeGames(epic), GogParser.FreeGames(gog) ]).Delivered? ==>
      && SteamParser.FreeGames(steam, steamLookup).Returned? && EpicParser.FreeGames(epic).Returned?
      && GogParser.FreeGames(gog).Returned?
      && FreeReply(
        [ SteamParser.FreeGames(steam, steamLookup), EpicParser.FreeGames(epic), GogParser.FreeGames(gog) ]).trace
      == Paced(SteamParser.FreeGames(steam, steamLookup).value + EpicParser.FreeGames(epic).value
               + GogParser.FreeGames(gog).value)
  {
    StoreFreeListingsFree(steam, steamLookup, epic, gog);
    var results := [ SteamParser.FreeGames(steam, steamLookup), EpicParser.FreeGames(epic), GogParser.FreeGames(gog) ];
    FreeRepliesPostFree(results);
    FreeReplyInStoreOrder(results[0], results[1], results[2]);
  }

  /** `/free` posts only deals its stores listed, so only free ones when every listing is free. */
  lemma FreeRepliesPostFree(results: seq<Outcome<seq<GameDeal>>>)
    requires forall i :: 0 <= i < |results| && results[i].Returned? ==>
      forall d :: d in results[i].value ==> FreeShaped(d)
    ensures forall d :: d in PostedDeals(FreeReply(results)) ==> FreeShaped(d)
  {
    var reply := FreeReply(results);
    if reply.Delivered? {
      var lists := Gathered(results).value;
      PostedFrom(Concat(lists));
      forall d | d in PostedDeals(reply) ensures FreeShaped(d) {
        ConcatMember(lists, d);
        var i :| 0 <= i < |lists| && d in lists[i];
        assert results[i] == Returned(lists[i]);
      }
    }
  }

  /** A delivered `/free` reply posts the first store's games, then the second's, then the third's. */
  lemma FreeReplyInStoreOrder(a: Outcome<seq<GameDeal>>, b: Outcome<seq<GameDeal>>, c: Outcome<seq<GameDeal>>)
    ensures FreeReply([a, b, c]).Delivered? ==>
      a.Returned? && b.Returned? && c.Returned? && FreeReply([a, b, c]).trace == Paced(a.value + b.value + c.value)
  {
    if FreeReply([a, b, c]).Delivered? {
      var lists := Gathered([a, b, c]).value;
      assert lists == [lists[0], lists[1], lists[2]];
      ConcatThree(lists[0], lists[1], lists[2]);
    }
  }
}
