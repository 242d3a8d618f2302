/** The bot's conversation: which handler answers an update in each state, the
    state a handler leaves the conversation in, and a chat that runs the
    handlers against the subscriber's row. */
module Dialog {
  import opened Wrappers
  import Settings

  /** `SELECTING_GENRES, SELECTING_NOTIFICATIONS = range(2)`. */
  datatype State = SelectingGenres | SelectingNotifications

  /** An incoming update: a `/name` command or a button press carrying `data`. */
  datatype Update = Command(name: string) | Callback(data: string)

  /** The conversation's handler functions. */
  datatype Handler =
    | Start | SelectGenres | ToggleGenre | GenresDone
    | NotificationSettings | Help | SupportDev | ToggleNotification

  /** A callback pattern: `^word$`, or `^prefix` with no end anchor. */
  datatype Pattern = Exactly(word: string) | Prefix(prefix: string)

  /** `re.match(pattern, data)`; `$` also matches just before a final newline. */
  predicate Matches(data: string, p: Pattern) {
    match p
    case Exactly(w) => data == w || data == w + "\n"
    case Prefix(q) => q <= data
  }

  /** The first handler of `table` whose pattern matches. */
  function FirstMatch(data: string, table: seq<(Pattern, Handler)>): (r: Option<Handler>)
    ensures r.None? <==> forall i :: 0 <= i < |table| ==> !Matches(data, table[i].0)
    ensures r.Some? ==> exists i :: 0 <= i < |table| && Matches(data, table[i].0) && table[i].1 == r.value
  {
    if |table| == 0 then None
    else if Matches(data, table[0].0) then Some(table[0].1)
    else
      assert forall i :: 1 <= i < |table| ==> table[i] == table[1..][i - 1];
      FirstMatch(data, table[1..])
  }

  /** The handler found is that of the earliest matching pattern. */
  lemma {:induction false} FirstMatchEarliest(data: string, table: seq<(Pattern, Handler)>)
    requires FirstMatch(data, table).Some?
    ensures exists i :: (0 <= i < |table| && Matches(data, table[i].0)
      && table[i].1 == FirstMatch(data, table).value
      && forall j :: 0 <= j < i ==> !Matches(data, table[j].0))
  {
    if !Matches(data, table[0].0) {
      var rest := table[1..];
      FirstMatchEarliest(data, rest);
      var i :| 0 <= i < |rest| && Matches(data, rest[i].0)
        && rest[i].1 == FirstMatch(data, rest).value
        && forall j :: 0 <= j < i ==> !Matches(data, rest[j].0);
      assert FirstMatch(data, table) == FirstMatch(data, rest);
      assert table[i + 1] == rest[i];
      assert forall j :: 1 <= j < i + 1 ==> table[j] == rest[j - 1];
      assert forall j :: 0 <= j < i + 1 ==> !Matches(data, table[j].0);
    } else {
      assert Matches(data, table[0].0);
    }
  }

  /** The callback handlers of each state, in registration order. */
  function Table(s: State): seq<(Pattern, Handler)> {
    match s
    case SelectingGenres => [
      (Exactly("select_genres"), SelectGenres),
      (Prefix("toggle_genre_"), ToggleGenre),
      (Exactly("genres_done"), GenresDone),
      (Exactly("notification_settings"), NotificationSettings),
      (Exactly("help"), Help),
      (Exactly("support_dev"), SupportDev),
      (Exactly("back_to_main"), Start)]
    case SelectingNotifications => [
      (Prefix("toggle_"), ToggleNotification),
      (Exactly("back_to_main"), Start)]
  }

  /** The handler the conversation runs for `u`, or `None` when it ignores `u`.
      Outside a conversation only the `/start` entry point answers; inside one the
      current state's buttons answer, and `/start` is the fallback. */
  function Route(state: Option<State>, u: Update): (r: Option<Handler>)
    ensures u.Command? ==> (r.Some? <==> u.name == "start") && (r.Some? ==> r.value == Start)
    ensures u.Callback? && state.None? ==> r.None?
    ensures u.Callback? && state.Some? ==>
      (r.Some? <==> exists i :: 0 <= i < |Table(state.value)| && Matches(u.data, Table(state.value)[i].0))
    ensures u.Callback? && r.Some? ==>
      state.Some? && exists i :: (0 <= i < |Table(state.value)| && Matches(u.data, Table(state.value)[i].0)
                                  && Table(state.value)[i].1 == r.value)
  {
    match u
    case Command(name) => if name == "start" then Some(Start) else None
    case Callback(data) => if state.None? then None else FirstMatch(data, Table(state.value))
  }

  /** The state a handler returns; `None` for the handlers that return nothing,
      which leave the conversation where it was. */
  function Returns(h: Handler): (r: Option<State>)
    ensures r.None? <==> h in {ToggleGenre, Help, ToggleNotification}
    ensures r == Some(SelectingNotifications) <==> h == NotificationSettings
  {
    match h
    case Start => Some(SelectingGenres)
    case SelectGenres => Some(SelectingGenres)
    case GenresDone => Some(SelectingGenres)
    case SupportDev => Some(SelectingGenres)
    case NotificationSettings => Some(SelectingNotifications)
    case ToggleGenre => None
    case Help => None
    case ToggleNotification => None
  }

  /** The conversation state after `u`. */
  function Step(state: Option<State>, u: Update): (r: Option<State>)
    ensures state.Some? ==> r.Some?
    ensures r != state ==> Route(state, u).Some? && r == Returns(Route(state, u).value)
    ensures Route(state, u).Some? && Returns(Route(state, u).value).Some? ==> r == Returns(Route(state, u).value)
    ensures u == Command("start") ==> r == Some(SelectingGenres)
  {
    match Route(state, u)
    case None => state
    case Some(h) => if Returns(h).Some? then Returns(h) else state
  }

  /** `/start` opens the genre menu from anywhere; nothing else opens a
      conversation, and once open a conversation never closes. */
  lemma StartOpens(state: Option<State>, u: Update)
    ensures Step(state, Command("start")) == Some(SelectingGenres)
    ensures state.None? ==> (Step(state, u).Some? <==> u == Command("start"))
    ensures state.Some? ==> Step(state, u).Some?
  {
  }

  /** The notification screen answers only `toggle_…` buttons (which keep it
      open) and the back button (which returns to the genre menu). */
  lemma NotificationScreen(data: string)
    ensures Route(Some(SelectingNotifications), Callback(data)).Some?
        <==> "toggle_" <= data || data == "back_to_main" || data == "back_to_main\n"
    ensures "toggle_" <= data ==>
      Route(Some(SelectingNotifications), Callback(data)) == Some(ToggleNotification)
      && Step(Some(SelectingNotifications), Callback(data)) == Some(SelectingNotifications)
    ensures data == "back_to_main" ==> Step(Some(SelectingNotifications), Callback(data)) == Some(SelectingGenres)
  {
    var t := Table(SelectingNotifications);
    if data == "back_to_main" {
      assert !("toggle_" <= data) by { assert data[0] == 'b'; }
    }
    assert Matches(data, t[0].0) <==> "toggle_" <= data;
    assert Matches(data, t[1].0) <==> data == "back_to_main" || data == "back_to_main\n";
    assert t[1..] == [(Exactly("back_to_main"), Start)];
    assert t[1..][1..] == [];
  }

  /** The notification toggles are not answered on the genre screen, and a
      genre button is answered there by the genre toggle, which keeps the screen.
      The settings button opens the notification screen and the back button
      stays on the genre menu. */
  lemma GenreScreen(data: string)
    ensures Route(Some(SelectingGenres), Callback(data)) != Some(ToggleNotification)
    ensures "toggle_genre_" <= data ==>
      Route(Some(SelectingGenres), Callback(data)) == Some(ToggleGenre)
      && Step(Some(SelectingGenres), Callback(data)) == Some(SelectingGenres)
    ensures data == "notification_settings" ==>
      Step(Some(SelectingGenres), Callback(data)) == Some(SelectingNotifications)
    ensures data == "back_to_main" ==> Step(Some(SelectingGenres), Callback(data)) == Some(SelectingGenres)
  {
    GenreMenuButtons(data);
    var t := Table(SelectingGenres);
    if "toggle_genre_" <= data {
      assert !Matches(data, t[0].0) by {
        assert data[0] == 't';
        assert "select_genres"[0] == 's';
      }
      assert t[1..][0] == t[1];
      assert Matches(data, t[1..][0].0);
    }
  }

  /** On the genre screen the settings button is answered by the settings
      handler and the back button by `start`: each matches one pattern only. */
  lemma GenreMenuButtons(data: string)
    ensures data == "notification_settings" ==> Route(Some(SelectingGenres), Callback(data)) == Some(NotificationSettings)
    ensures data == "back_to_main" ==> Route(Some(SelectingGenres), Callback(data)) == Some(Start)
  {
    var t := Table(SelectingGenres);
    if data == "notification_settings" {
      assert Matches(data, t[3].0);
      assert !("toggle_genre_" <= data) by { assert data[0] == 'n'; }
      assert forall i :: 0 <= i < |t| && i != 3 ==> !Matches(data, t[i].0);
    }
    if data == "back_to_main" {
      assert Matches(data, t[6].0);
      assert !("toggle_genre_" <= data) by { assert data[0] == 'b'; }
      assert forall i :: 0 <= i < |t| && i != 6 ==> !Matches(data, t[i].0);
    }
  }

  /** Pressing the button built for genre `id` on the genre screen runs the genre
      toggle on that very id. */
  lemma GenreButtonRoundTrip(id: nat)
    ensures Route(Some(SelectingGenres), Callback(Settings.GenreCallback(id))) == Some(ToggleGenre)
    ensures Settings.GenreIdOf(Settings.GenreCallback(id)) == Some(id)
  {
    assert "toggle_genre_" <= Settings.GenreCallback(id);
    GenreScreen(Settings.GenreCallback(id));
    Settings.GenreCallbackRoundTrip(id);
  }

  /** One subscriber's chat with the bot. */
  class Chat {
    /** The conversation state; `None` before the first `/start`. */
    var state: Option<State>
    /** The subscriber's row; `null` when there is none yet. */
    var user: Settings.User?

    /** A conversation only runs once `/start` has created the subscriber's row,
        so every handler that reads the row finds it. */
    ghost predicate Valid()
      reads this, user
    {
      && (state.Some? ==> user != null)
      && (user != null ==> user.Valid())
    }

    constructor (existing: Settings.User?)
      requires existing != null ==> existing.Valid()
      ensures Valid()
      ensures state == None && user == existing
    {
      state := None;
      user := existing;
    }

    /** Runs the handler `u` is routed to. `/start` creates the subscriber's row
        when there is none; the toggles change the row; every other handler only
        shows a screen. `catalog` is the genres table. */
    method Handle(u: Update, catalog: map<int, Settings.Genre>)
      requires Valid()
      modifies this, user
      ensures Valid()
      ensures state == Step(old(state), u)
      ensures old(user) != null ==> user == old(user)
      ensures old(user) == null && Route(old(state), u) == Some(Start) ==>
        && fresh(user) && user.preferredGenres == [] && user.notifySales && user.notifyFree
        && user.minDiscount == Settings.DefaultMinDiscount
      ensures old(user) == null && Route(old(state), u) != Some(Start) ==> user == null
      ensures u.Callback? && Route(old(state), u) == Some(ToggleGenre) ==>
        var id := Settings.GenreIdOf(u.data);
        && user.preferredGenres == (if id.Some? && id.value in catalog
            then Settings.Toggled(old(user.preferredGenres), catalog[id.value])
            else old(user.preferredGenres))
        && user.notifySales == old(user.notifySales) && user.notifyFree == old(user.notifyFree)
        && user.minDiscount == old(user.minDiscount)
      ensures u.Callback? && Route(old(state), u) == Some(ToggleNotification) ==>
        && user.notifySales == (if u.data == "toggle_sales" then !old(user.notifySales) else old(user.notifySales))
        && user.notifyFree == (if u.data == "toggle_free" then !old(user.notifyFree) else old(user.notifyFree))
        && user.preferredGenres == old(user.preferredGenres) && user.minDiscount == old(user.minDiscount)
      ensures (old(user) != null && Route(old(state), u) != Some(ToggleGenre)
        && Route(old(state), u) != Some(ToggleNotification)) ==> unchanged(user)
    {
      var h := Route(state, u);
      match h {
        case None =>
        case Some(handler) =>
          if handler == Start && user == null {
            user := new Settings.User();
          } else if handler == ToggleGenre {
            var ok := user.ToggleGenre(u.data, catalog);
          } else if handler == ToggleNotification {
            user.ToggleNotification(u.data);
          }
          if Returns(handler).Some? {
            state := Returns(handler);
          }
      }
    }
  }
}
