/** The normalised offer record shared by the three storefront parsers, and the
    pieces every parser uses to build one: HTTP responses, JSON number fields,
    minor-unit prices, Python's `int()` on a float, and the two loop shapes the
    parsers share (keep-or-skip per item, and first match). */
module Deals {
  import opened Wrappers

  /** One offer, exactly the nine fields of the parsers' `GameDeal` record.
      Prices are exact rationals standing for Python's floats. */
  datatype GameDeal = GameDeal(
    title: string,
    platform: string,
    storeId: string,
    currentPrice: real,
    originalPrice: real,
    discountPercent: int,
    isFree: bool,
    url: string,
    genres: seq<string>)

  /** A non-empty result of a parser's `get_game_details`: the mapping with the
      keys 'genres', 'is_free', 'price', 'original_price' (Steam: 'initial_price')
      and 'discount_percent'. An empty mapping is `None` where it is used. */
  datatype Details = Details(
    genres: seq<string>,
    isFree: bool,
    price: real,
    originalPrice: real,
    discountPercent: int)

  /** An HTTP exchange: a status other than 200, a 200 whose body decoded to
      `body`, or a transport failure or undecodable body (the awaited call raises). */
  datatype Response<T> = NonOk | Ok(body: T) | Unreadable

  /** A JSON member that a parser passes to `float()` or `int()`: missing
      (the parser's default is used), present with a convertible value, or
      present with a value the conversion rejects (it raises). */
  datatype Field<T> = Absent | Present(v: T) | Invalid

  /** `float(field.get(key, default))`, or an exception. */
  function Convert<T>(f: Field<T>, default: T): (r: Outcome<T>)
    ensures r.Raised? <==> f.Invalid?
    ensures f.Absent? ==> r == Returned(default)
    ensures f.Present? ==> r == Returned(f.v)
  {
    match f
    case Absent => Returned(default)
    case Present(v) => Returned(v)
    case Invalid => Raised
  }

  /** `float(units) / 100`: a price in minor units (kopecks) as an amount in roubles. */
  function FromMinor(units: int): (r: real)
    ensures r * 100.0 == units as real
    ensures (units == 0) <==> (r == 0.0)
    ensures units > 0 <==> r > 0.0
  {
    units as real / 100.0
  }

  /** Python's `int(x)` on a float: truncation toward zero. */
  function TruncToInt(x: real): (r: int)
    ensures x >= 0.0 ==> r as real <= x < r as real + 1.0
    ensures x < 0.0 ==> r as real - 1.0 < x <= r as real
  {
    if x >= 0.0 then x.Floor else -((-x).Floor)
  }

  /** The discount the Epic parser derives from two prices: `int((o - c) / o * 100)`. */
  function PercentOff(original: real, current: real): int
    requires original != 0.0
  {
    TruncToInt((original - current) / original * 100.0)
  }

  /** A discount derived from prices with `0 <= current <= original` lies in [0, 100]. */
  lemma PercentOffInRange(original: real, current: real)
    requires 0.0 < original && 0.0 <= current <= original
    ensures 0 <= PercentOff(original, current) <= 100
  {
    var q := (original - current) / original;
    assert q * original == original - current;
    assert 0.0 <= q * 100.0 <= 100.0;
  }

  /** A fixed free offer: nothing to pay, one hundred percent off. */
  predicate FreeShaped(d: GameDeal) {
    d.isFree && d.currentPrice == 0.0 && d.discountPercent == 100
  }

  // ---------------------------------------------------------------- keep or skip

  /** The listing loop every parser runs: `for item in items: try: ... games.append(deal)
      except: continue`, where `keep` says which deal an item yields, or `None` when the
      item is skipped (by a `continue` or because something in it raised). */
  function FilterMap<T>(items: seq<T>, keep: T -> Option<GameDeal>): (r: seq<GameDeal>)
    ensures |r| <= |items|
  {
    if |items| == 0 then []
    else
      match keep(items[0])
      case Some(d) => [d] + FilterMap(items[1..], keep)
      case None => FilterMap(items[1..], keep)
  }

  /** Items are handled one by one: the deals of a batch are those of its first
      part followed by those of the rest, so a skipped item costs only itself. */
  lemma {:induction false} FilterMapAppend<T>(a: seq<T>, b: seq<T>, keep: T -> Option<GameDeal>)
    ensures FilterMap(a + b, keep) == FilterMap(a, keep) + FilterMap(b, keep)
  {
    if |a| > 0 {
      assert (a + b)[0] == a[0];
      assert (a + b)[1..] == a[1..] + b;
      FilterMapAppend(a[1..], b, keep);
    } else {
      assert a + b == b;
    }
  }

  /** The deals of one listing item followed by those of the rest. */
  function Yield(found: Option<GameDeal>): seq<GameDeal> {
    if found.Some? then [found.value] else []
  }

  /** One pass of a listing loop: appending what item `i` yields keeps the
      collected deals a prefix of the whole listing's. */
  lemma FilterMapStep<T>(games: seq<GameDeal>, items: seq<T>, i: nat, keep: T -> Option<GameDeal>)
    requires i < |items| && games + FilterMap(items[i..], keep) == FilterMap(items, keep)
    ensures games + Yield(keep(items[i])) + FilterMap(items[i + 1..], keep) == FilterMap(items, keep)
  {
    var rest := items[i..];
    assert rest[0] == items[i] && rest[1..] == items[i + 1..];
    FilterMapFirst(rest, keep);
  }

  /** Stated for any element type, so that the solver does not look inside the elements. */
  lemma SliceRest<T>(s: seq<T>, i: nat)
    requires i < |s|
    ensures s[i..][0] == s[i] && s[i..][1..] == s[i + 1..]
  {
  }

  lemma FilterMapFirst<T>(items: seq<T>, keep: T -> Option<GameDeal>)
    requires |items| > 0
    ensures FilterMap(items, keep) == Yield(keep(items[0])) + FilterMap(items[1..], keep)
  {
    if keep(items[0]).None? {
      assert [] + FilterMap(items[1..], keep) == FilterMap(items[1..], keep);
    }
  }

  /** A deal is in the result exactly when some item yields it. */
  lemma {:induction false} FilterMapMember<T>(items: seq<T>, keep: T -> Option<GameDeal>, d: GameDeal)
    ensures d in FilterMap(items, keep) <==> exists i :: 0 <= i < |items| && keep(items[i]) == Some(d)
  {
    if |items| > 0 {
      FilterMapMember(items[1..], keep, d);
      if exists i :: 0 <= i < |items| && keep(items[i]) == Some(d) {
        var i :| 0 <= i < |items| && keep(items[i]) == Some(d);
        if i > 0 {
          assert keep(items[1..][i - 1]) == Some(d);
        }
      }
      if exists i :: 0 <= i < |items[1..]| && keep(items[1..][i]) == Some(d) {
        var i :| 0 <= i < |items[1..]| && keep(items[1..][i]) == Some(d);
        assert keep(items[i + 1]) == Some(d);
      }
    }
  }

  /** With no item skipped, there is one deal per item, in item order. */
  lemma {:induction false} FilterMapNoneSkipped<T>(items: seq<T>, keep: T -> Option<GameDeal>)
    requires forall i :: 0 <= i < |items| ==> keep(items[i]).Some?
    ensures |FilterMap(items, keep)| == |items|
    ensures forall i :: 0 <= i < |items| ==> Some(FilterMap(items, keep)[i]) == keep(items[i])
  {
    if |items| > 0 {
      assert forall i :: 0 <= i < |items[1..]| ==> keep(items[1..][i]) == keep(items[i + 1]);
      FilterMapNoneSkipped(items[1..], keep);
    }
  }

  // ---------------------------------------------------------------- first match

  /** The search loop: `for item in items: ... if not details: continue; return deal`;
      `probe` yields the deal for an item, `None` to go on, or raises. */
  function FirstFound<T>(items: seq<T>, probe: T -> Outcome<Option<GameDeal>>): Outcome<Option<GameDeal>> {
    if |items| == 0 then Returned(None)
    else
      match probe(items[0])
      case Raised => Raised
      case Returned(Some(d)) => Returned(Some(d))
      case Returned(None) => FirstFound(items[1..], probe)
  }

  /** Item `k` yields `d` and every item before it was passed over without raising. */
  ghost predicate FoundAt<T>(items: seq<T>, probe: T -> Outcome<Option<GameDeal>>, d: GameDeal, k: int) {
    0 <= k < |items| && probe(items[k]) == Returned(Some(d))
    && forall j :: 0 <= j < k ==> probe(items[j]) == Returned(None)
  }

  /** The search finds `d` exactly when some item yields `d` and every item before
      it was passed over without raising. */
  lemma {:induction false} FirstFoundSome<T>(items: seq<T>, probe: T -> Outcome<Option<GameDeal>>, d: GameDeal)
    ensures FirstFound(items, probe) == Returned(Some(d)) <==> exists k :: FoundAt(items, probe, d, k)
  {
    if |items| > 0 {
      var tail := items[1..];
      FirstFoundSome(tail, probe, d);
      if FirstFound(items, probe) == Returned(Some(d)) {
        if probe(items[0]) == Returned(Some(d)) {
          assert FoundAt(items, probe, d, 0);
        } else {
          var k :| FoundAt(tail, probe, d, k);
          forall j | 0 <= j < k + 1 ensures probe(items[j]) == Returned(None) {
            if j > 0 { assert items[j] == tail[j - 1]; }
          }
          assert FoundAt(items, probe, d, k + 1);
        }
      }
      if exists k :: FoundAt(items, probe, d, k) {
        var k :| FoundAt(items, probe, d, k);
        if k > 0 {
          forall j | 0 <= j < k - 1 ensures probe(tail[j]) == Returned(None) {
            assert tail[j] == items[j + 1];
          }
          assert FoundAt(tail, probe, d, k - 1);
        }
      }
    }
  }

  /** The search finds nothing exactly when every item is passed over. */
  lemma {:induction false} FirstFoundNone<T>(items: seq<T>, probe: T -> Outcome<Option<GameDeal>>)
    ensures FirstFound(items, probe) == Returned(None) <==>
      forall j :: 0 <= j < |items| ==> probe(items[j]) == Returned(None)
  {
    if |items| > 0 {
      FirstFoundNone(items[1..], probe);
      assert forall j :: 1 <= j < |items| ==> items[j] == items[1..][j - 1];
    }
  }
}
