/** A subscriber's stored preferences and the two toggles that change them:
    the genre toggle behind `toggle_genre_<id>` buttons and the notification
    toggles behind `toggle_sales` / `toggle_free`. */
module Settings {
  import opened Wrappers
  import opened Text

  /** A row of the genres table. */
  datatype Genre = Genre(id: int, name: string)

  /** The stored minimum discount of a new subscriber. */
  const DefaultMinDiscount := 50

  /** No genre occurs twice: the association table is keyed by (user, genre). */
  predicate NoDuplicates(gs: seq<Genre>) {
    forall i, j :: 0 <= i < j < |gs| ==> gs[i] != gs[j]
  }

  /** The position of the first occurrence of `g`. */
  function FirstIndex(gs: seq<Genre>, g: Genre): (k: nat)
    requires g in gs
    ensures k < |gs| && gs[k] == g && g !in gs[..k]
  {
    if gs[0] == g then 0 else 1 + FirstIndex(gs[1..], g)
  }

  /** `list.remove(g)`: drops the first occurrence of `g`. */
  function RemoveFirst(gs: seq<Genre>, g: Genre): (r: seq<Genre>)
    requires g in gs
    ensures |r| == |gs| - 1
    ensures multiset(r) == multiset(gs) - multiset{g}
    ensures r == gs[..FirstIndex(gs, g)] + gs[FirstIndex(gs, g) + 1..]
  {
    assert gs == [gs[0]] + gs[1..];
    if gs[0] == g then SpliceHead(gs); gs[1..]
    else SpliceCons(gs, FirstIndex(gs[1..], g)); [gs[0]] + RemoveFirst(gs[1..], g)
  }

  /** Stated for any element type, so that the solver does not look inside the elements. */
  lemma SpliceHead<T>(s: seq<T>)
    requires |s| > 0
    ensures s[..0] + s[1..] == s[1..]
  {
  }

  lemma SpliceCons<T>(s: seq<T>, k: nat)
    requires k + 1 < |s|
    ensures [s[0]] + (s[1..][..k] + s[1..][k + 1..]) == s[..k + 1] + s[k + 2..]
  {
    assert s[..k + 1] == [s[0]] + s[1..][..k];
    assert s[k + 2..] == s[1..][k + 1..];
  }

  /** The preference list after toggling `g`: removed when present, else appended. */
  function Toggled(gs: seq<Genre>, g: Genre): (r: seq<Genre>)
    ensures g in gs ==> |r| == |gs| - 1 && multiset(r) == multiset(gs) - multiset{g}
    ensures g !in gs ==> |r| == |gs| + 1 && multiset(r) == multiset(gs) + multiset{g} && r[..|gs|] == gs
  {
    if g in gs then RemoveFirst(gs, g) else gs + [g]
  }

  /** Toggling changes the membership of `g` and of nothing else, and keeps the
      list free of duplicates. */
  lemma ToggledMembership(gs: seq<Genre>, g: Genre)
    requires NoDuplicates(gs)
    ensures NoDuplicates(Toggled(gs, g))
    ensures g in Toggled(gs, g) <==> g !in gs
    ensures forall h :: h != g ==> (h in Toggled(gs, g) <==> h in gs)
  {
    var r := Toggled(gs, g);
    if g in gs {
      var m := multiset(gs);
      assert m[g] == 1 by { CountOne(gs, g); }
      assert multiset(r)[g] == 0;
      forall h | h != g ensures h in r <==> h in gs {
        assert multiset(r)[h] == m[h];
      }
      forall i, j | 0 <= i < j < |r| ensures r[i] != r[j] {
        if r[i] == r[j] {
          MultisetTwo(r, i, j);
          assert multiset(r)[r[i]] <= m[r[i]];
          CountOne(gs, r[i]);
          assert false;
        }
      }
    } else {
      forall i, j | 0 <= i < j < |r| ensures r[i] != r[j] {
        if j == |gs| { assert r[i] in gs; }
      }
    }
  }

  lemma CountOne(gs: seq<Genre>, g: Genre)
    requires NoDuplicates(gs) && g in gs
    ensures multiset(gs)[g] == 1
  {
    var k :| 0 <= k < |gs| && gs[k] == g;
    assert gs == gs[..k] + [g] + gs[k + 1..];
    assert g !in gs[..k] && g !in gs[k + 1..] by {
      forall i | 0 <= i < |gs| && i != k ensures gs[i] != g {
        if i < k { assert gs[i] != gs[k]; } else { assert gs[k] != gs[i]; }
      }
    }
  }

  lemma MultisetTwo(s: seq<Genre>, i: int, j: int)
    requires 0 <= i < j < |s| && s[i] == s[j]
    ensures multiset(s)[s[i]] >= 2
  {
    assert s == s[..i] + [s[i]] + s[i + 1..j] + [s[j]] + s[j + 1..];
  }

  /** Toggling the same genre twice restores its membership and every other
      genre's; when the genre was absent, it restores the list exactly. */
  lemma {:induction false} ToggleTwice(gs: seq<Genre>, g: Genre)
    requires NoDuplicates(gs)
    ensures forall h :: h in Toggled(Toggled(gs, g), g) <==> h in gs
    ensures g !in gs ==> Toggled(Toggled(gs, g), g) == gs
  {
    ToggledMembership(gs, g);
    ToggledMembership(Toggled(gs, g), g);
    if g !in gs {
      RemoveLast(gs, g);
    }
  }

  lemma {:induction false} RemoveLast(gs: seq<Genre>, g: Genre)
    requires g !in gs
    ensures RemoveFirst(gs + [g], g) == gs
  {
    if |gs| > 0 {
      assert (gs + [g])[0] == gs[0];
      assert (gs + [g])[1..] == gs[1..] + [g];
      RemoveLast(gs[1..], g);
    }
  }

  /** `callback_data=f'toggle_genre_{genre.id}'` for a genre row. */
  function GenreCallback(id: nat): string {
    "toggle_genre_" + Decimal(id)
  }

  /** `int(query.data.split('_')[-1])`, or `None` when `int()` raises. */
  function GenreIdOf(data: string): (r: Option<int>)
    ensures r.Some? <==> IntText(Strip(LastSegment(data, '_'), IsSpace))
    ensures |data| > 0 && AllDigits(data) ==> r == Some(DigitsValue(data))
    ensures |data| > 0 && !IsDigit(data[|data| - 1]) && !IsSpace(data[|data| - 1]) ==> r.None?
  {
    LastSegmentRejected(data);
    ParseInt(LastSegment(data, '_'))
  }

  /** Data ending in a character that is neither a digit nor whitespace (`_`
      included) has a last segment `int()` rejects. */
  lemma LastSegmentRejected(data: string)
    ensures |data| > 0 && !IsDigit(data[|data| - 1]) && !IsSpace(data[|data| - 1]) ==>
      !IntText(Strip(LastSegment(data, '_'), IsSpace))
  {
    if |data| > 0 && !IsDigit(data[|data| - 1]) && !IsSpace(data[|data| - 1]) {
      var c, seg := data[|data| - 1], LastSegment(data, '_');
      if c == '_' {
        assert seg == "";
        assert |Strip(seg, IsSpace)| == 0;
        assert !IntText(Strip(seg, IsSpace));
      } else {
        assert |seg| > 0 && seg[|seg| - 1] == c;
        StripKeepsLast(seg);
        var t := Strip(seg, IsSpace);
        assert !IsDigit(t[|t| - 1]);
        assert !IntText(t);
      }
    }
  }

  /** The genre id read back from a genre button is the id it was built from. */
  lemma GenreCallbackRoundTrip(id: nat)
    ensures GenreIdOf(GenreCallback(id)) == Some(id)
  {
    assert !IsDigit('_');
    assert '_' !in Decimal(id);
    assert GenreCallback(id) == "toggle_genre" + ['_'] + Decimal(id);
    LastSegmentAfter("toggle_genre", '_', Decimal(id));
    ParseIntDecimal(id);
  }

  /** A subscriber's stored row. */
  class User {
    var preferredGenres: seq<Genre>
    var notifySales: bool
    var notifyFree: bool
    var minDiscount: int

    ghost predicate Valid()
      reads this
    {
      NoDuplicates(preferredGenres)
    }

    /** A new row: no genres, both notifications on, minimum discount 50. */
    constructor ()
      ensures Valid()
      ensures preferredGenres == [] && notifySales && notifyFree && minDiscount == DefaultMinDiscount
    {
      preferredGenres := [];
      notifySales := true;
      notifyFree := true;
      minDiscount := DefaultMinDiscount;
    }

    /** `toggle_genre`: reads the id from the button, looks it up in `catalog`
        (the genres table) and toggles it. When `int()` fails or no genre has that
        id the handler raises and nothing is stored; `ok` says whether it ran through. */
    method ToggleGenre(data: string, catalog: map<int, Genre>) returns (ok: bool)
      requires Valid()
      modifies this
      ensures Valid()
      ensures ok <==> GenreIdOf(data).Some? && GenreIdOf(data).value in catalog
      ensures ok ==> preferredGenres == Toggled(old(preferredGenres), catalog[GenreIdOf(data).value])
      ensures !ok ==> preferredGenres == old(preferredGenres)
      ensures notifySales == old(notifySales) && notifyFree == old(notifyFree) && minDiscount == old(minDiscount)
    {
      var id := GenreIdOf(data);
      if id.None? || id.value !in catalog {
        return false;
      }
      var genre, gs := catalog[id.value], preferredGenres;
      ToggledMembership(gs, genre);
      if genre in gs {
        preferredGenres := RemoveFirst(gs, genre);
      } else {
        preferredGenres := gs + [genre];
      }
      assert preferredGenres == Toggled(gs, genre);
      return true;
    }

    /** `toggle_notification`: `toggle_sales` flips the sales flag, `toggle_free`
        the free-games flag, and any other data changes nothing. */
    method ToggleNotification(data: string)
      modifies this
      ensures notifySales == (if data == "toggle_sales" then !old(notifySales) else old(notifySales))
      ensures notifyFree == (if data == "toggle_free" then !old(notifyFree) else old(notifyFree))
      ensures preferredGenres == old(preferredGenres) && minDiscount == old(minDiscount)
    {
      if data == "toggle_sales" {
        notifySales := !notifySales;
      } else if data == "toggle_free" {
        notifyFree := !notifyFree;
      }
    }
  }
}
