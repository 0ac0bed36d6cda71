/**
 * The game loop of `init` in script.js: for every scheduled game, look its
 * venue up in the stadium directory, fetch the game's weather, compute the
 * wind badge, decide whether the roof is closed and, if it is, replace the
 * badge and zero the wind speed. The page shows one weather panel per game.
 */
module Slate {
  import opened Wrappers
  import opened JsNumber
  import opened Dates
  import opened Wind
  import opened Weather

  /** An entry of `stadiums.json`; a missing `dome` or `roof` flag reads as false. */
  datatype Stadium = Stadium(id: int, lat: real, lon: real, bearing: real, dome: bool, roof: bool)

  /** What the loop reads of a scheduled game: `game.venue.id` and `game.gameDate`. */
  datatype Game = Game(venueId: int, gameDate: string)

  /**
   * The weather part of a game card: the "Weather data unavailable" note with
   * the venue id, or the temperature, rain, wind-speed and wind-badge row.
   */
  datatype Panel =
    | NoWeather(venueId: int)
    | Conditions(temp: Number, precip: Number, windSpeed: Reading, wind: WindInfo)

  /** The badge shown instead of the wind classification when the roof is closed. */
  const RoofClosedInfo: WindInfo := WindInfo("Roof Closed \U{1F3DF}\U{FE0F}", "bg-secondary text-white", "")

  /** `stadiums.find(s => s.id === venueId)`: the first stadium with that id. */
  function Find(stadiums: seq<Stadium>, venueId: int): (r: Option<Stadium>)
    ensures r.None? <==> forall i :: 0 <= i < |stadiums| ==> stadiums[i].id != venueId
    ensures r.Some? ==> r.value.id == venueId
    ensures r.Some? ==> exists i :: (0 <= i < |stadiums| && stadiums[i] == r.value
      && forall j :: 0 <= j < i ==> stadiums[j].id != venueId)
  {
    if stadiums == [] then None
    else if stadiums[0].id == venueId then Some(stadiums[0])
    else
      Find(stadiums[1..], venueId)
  }

  /**
   * The roof decision: a dome is always closed; a retractable roof closes when
   * `precip > 0.05`, `temp < 50` or `temp > 95` (JS comparisons, false on NaN);
   * any other park has no roof to close.
   */
  function RoofClosed(stadium: Stadium, precip: Number, temp: Number): bool {
    if stadium.dome then true
    else if stadium.roof then Greater(precip, 0.05) || Less(temp, 50.0) || Greater(temp, 95.0)
    else false
  }

  /**
   * The roof block (flag, then override) for a game whose weather arrived:
   * returns the flag, the badge to show and the weather record after the
   * in-place `weather.windSpeed = 0`.
   */
  method ResolveRoof(stadium: Stadium, weather: GameWeather, windInfo: WindInfo)
    returns (isRoofClosed: bool, shownWind: WindInfo, shown: GameWeather)
    requires weather.temp.Num?
    ensures isRoofClosed == RoofClosed(stadium, weather.precip, weather.temp.n)
    ensures shownWind == if isRoofClosed then RoofClosedInfo else windInfo
    ensures shown.temp == weather.temp && shown.precip == weather.precip && shown.windDir == weather.windDir
    ensures shown.windSpeed == if isRoofClosed then Num(Finite(0.0)) else weather.windSpeed
  {
    isRoofClosed := false;
    if stadium.dome {
      isRoofClosed := true;
    } else if stadium.roof {
      if Greater(weather.precip, 0.05) || Less(weather.temp.n, 50.0) || Greater(weather.temp.n, 95.0) {
        isRoofClosed := true;
      }
    }

    shownWind, shown := windInfo, weather;
    if isRoofClosed {
      shownWind := RoofClosedInfo;
      shown := shown.(windSpeed := Num(Finite(0.0)));
    }
  }

  /** The weather request issued for a game played at a known stadium, with the clock reading `nowIso`. */
  function GameRequest(stadium: Stadium, game: Game, nowIso: string): Request {
    RequestFor(stadium.lat, stadium.lon, game.gameDate, nowIso)
  }

  /** How many weather requests the loop issues for these games: one per game whose venue is in the directory. */
  function Issued(stadiums: seq<Stadium>, games: seq<Game>): (n: nat)
    ensures n <= |games|
  {
    if games == [] then 0
    else Issued(stadiums, games[..|games| - 1]) + if Find(stadiums, games[|games| - 1].venueId).Some? then 1 else 0
  }

  /**
   * The panel the loop produces for one game whose weather request, if it
   * issues one, is the k-th of the slate: that call of `fetchGameWeather` reads
   * the clock as `clock(k)` and its `fetch` is answered by `service(k, ·)`.
   */
  function PanelFor(stadiums: seq<Stadium>, game: Game, k: nat, clock: nat -> string,
                    service: (nat, Request) -> Response, hourOf: string -> int): Panel
  {
    match Find(stadiums, game.venueId)
    case None => NoWeather(game.venueId)
    case Some(s) =>
      var w := WeatherOf(service(k, GameRequest(s, game, clock(k))), hourOf(game.gameDate));
      if w.temp.Dashes? then NoWeather(game.venueId)
      else
        var closed := RoofClosed(s, w.precip, w.temp.n);
        Conditions(w.temp.n, w.precip,
          if closed then Num(Finite(0.0)) else w.windSpeed,
          if closed then RoofClosedInfo else CalculateWind(w.windDir, s.bearing))
  }

  /**
   * The weather requests the loop issues, in order: one per game whose venue is
   * in the directory, the k-th made with the clock reading `clock(k)`.
   */
  function RequestsFor(stadiums: seq<Stadium>, games: seq<Game>, clock: nat -> string): (r: seq<Request>)
    ensures |r| == Issued(stadiums, games)
  {
    if games == [] then []
    else
      var init, last := games[..|games| - 1], games[|games| - 1];
      RequestsFor(stadiums, init, clock)
        + match Find(stadiums, last.venueId)
          case None => []
          case Some(s) => [GameRequest(s, last, clock(Issued(stadiums, init)))]
  }

  /** Appending a game to the slate appends its request when its venue is known. */
  lemma RequestsForSnoc(stadiums: seq<Stadium>, games: seq<Game>, i: int, clock: nat -> string)
    requires 0 <= i < |games|
    ensures Issued(stadiums, games[..i + 1]) == Issued(stadiums, games[..i])
      + if Find(stadiums, games[i].venueId).Some? then 1 else 0
    ensures RequestsFor(stadiums, games[..i + 1], clock) == RequestsFor(stadiums, games[..i], clock)
      + match Find(stadiums, games[i].venueId)
        case None => []
        case Some(s) => [GameRequest(s, games[i], clock(Issued(stadiums, games[..i])))]
  {
    assert games[..i + 1][..i] == games[..i];
  }

  /**
   * The body of the game loop for one game whose request, if it issues one, is
   * the k-th of the slate: look the venue up, fetch the weather, apply the roof.
   */
  method GamePanel(stadiums: seq<Stadium>, game: Game, k: nat, clock: nat -> string,
                   service: (nat, Request) -> Response, hourOf: string -> int)
    returns (panel: Panel, request: Option<Request>)
    ensures panel == PanelFor(stadiums, game, k, clock, service, hourOf)
    ensures request == match Find(stadiums, game.venueId)
      case None => None
      case Some(s) => Some(GameRequest(s, game, clock(k)))
  {
    var stadium := Find(stadiums, game.venueId);
    panel, request := NoWeather(game.venueId), None;
    if stadium.Some? {
      var s := stadium.value;
      var req, weather := FetchGameWeather(s.lat, s.lon, game.gameDate, clock(k), r => service(k, r), hourOf);
      request := Some(req);
      if weather.temp.Num? {
        var windInfo := CalculateWind(weather.windDir, s.bearing);
        var isRoofClosed, shownWind, shown := ResolveRoof(s, weather, windInfo);
        panel := Conditions(shown.temp.n, shown.precip, shown.windSpeed, shownWind);
      }
    }
  }

  /**
   * The `for (const game of games)` loop of `init`, with the stadium directory
   * and the schedule already loaded. Each game's weather is fetched in turn;
   * the panels come out in schedule order. Every call of `fetchGameWeather`
   * reads the clock afresh and gets its own answer: the k-th call sees
   * `clock(k)` and `service(k, ·)`.
   */
  method Init(stadiums: seq<Stadium>, games: seq<Game>, clock: nat -> string,
              service: (nat, Request) -> Response, hourOf: string -> int)
    returns (panels: seq<Panel>, requests: seq<Request>)
    ensures |panels| == |games|
    ensures forall i :: 0 <= i < |games| ==>
      panels[i] == PanelFor(stadiums, games[i], Issued(stadiums, games[..i]), clock, service, hourOf)
    ensures requests == RequestsFor(stadiums, games, clock)
  {
    panels, requests := [], [];
    for i := 0 to |games|
      invariant |panels| == i
      invariant forall j :: 0 <= j < i ==>
        panels[j] == PanelFor(stadiums, games[j], Issued(stadiums, games[..j]), clock, service, hourOf)
      invariant requests == RequestsFor(stadiums, games[..i], clock)
    {
      RequestsForSnoc(stadiums, games, i, clock);
      var panel, request := GamePanel(stadiums, games[i], |requests|, clock, service, hourOf);
      if request.Some? {
        requests := requests + [request.value];
      }
      panels := panels + [panel];
    }
    assert games[..|games|] == games;
  }

  // ---------------------------------------------------------------------------
  // Properties of the roof decision
  // ---------------------------------------------------------------------------

  /** A dome is closed whatever the rain and temperature. */
  lemma DomeAlwaysClosed(stadium: Stadium, precip: Number, temp: Number)
    requires stadium.dome
    ensures RoofClosed(stadium, precip, temp)
  {
  }

  /** A retractable roof (not a dome) closes exactly for rain above 0.05, or below 50 or above 95 degrees. */
  lemma RetractableRoofRule(stadium: Stadium, precip: real, temp: real)
    requires !stadium.dome && stadium.roof
    ensures RoofClosed(stadium, Finite(precip), Finite(temp)) <==> precip > 0.05 || temp < 50.0 || temp > 95.0
  {
  }

  /** A park with neither a dome nor a retractable roof is never closed. */
  lemma OpenAirNeverClosed(stadium: Stadium, precip: Number, temp: Number)
    requires !stadium.dome && !stadium.roof
    ensures !RoofClosed(stadium, precip, temp)
  {
  }

  /** More rain never opens a roof that was closed. */
  lemma RetractableMonotone(stadium: Stadium, p1: real, p2: real, temp: real)
    requires p1 <= p2
    requires RoofClosed(stadium, Finite(p1), Finite(temp))
    ensures RoofClosed(stadium, Finite(p2), Finite(temp))
  {
  }

  // ---------------------------------------------------------------------------
  // Properties of the per-game panel
  // ---------------------------------------------------------------------------

  /** Conditions are shown exactly when the venue is known and the weather request did not fail. */
  lemma ConditionsShownIff(stadiums: seq<Stadium>, game: Game, k: nat, clock: nat -> string,
                          service: (nat, Request) -> Response, hourOf: string -> int)
    ensures PanelFor(stadiums, game, k, clock, service, hourOf).Conditions? <==>
      Find(stadiums, game.venueId).Some?
      && !Fails(service(k, GameRequest(Find(stadiums, game.venueId).value, game, clock(k))))
    ensures PanelFor(stadiums, game, k, clock, service, hourOf).NoWeather? ==>
      PanelFor(stadiums, game, k, clock, service, hourOf).venueId == game.venueId
  {
  }

  /**
   * Under a closed roof the panel shows the fixed "Roof Closed" badge and a wind
   * speed of 0; under an open sky it shows `calculateWind`'s badge and the
   * fetched wind speed. Temperature and rain are shown as fetched either way.
   */
  lemma RoofOverride(stadiums: seq<Stadium>, game: Game, k: nat, clock: nat -> string,
                          service: (nat, Request) -> Response, hourOf: string -> int)
    requires Find(stadiums, game.venueId).Some?
    ensures var s := Find(stadiums, game.venueId).value;
      var w := WeatherOf(service(k, GameRequest(s, game, clock(k))), hourOf(game.gameDate));
      var p := PanelFor(stadiums, game, k, clock, service, hourOf);
      w.temp.Num? ==>
        && p.Conditions? && p.temp == w.temp.n && p.precip == w.precip
        && (RoofClosed(s, w.precip, w.temp.n) ==> p.wind == RoofClosedInfo && p.windSpeed == Num(Finite(0.0)))
        && (!RoofClosed(s, w.precip, w.temp.n) ==> p.wind == CalculateWind(w.windDir, s.bearing) && p.windSpeed == w.windSpeed)
  {
  }

  /** A shown panel always carries a numeric wind speed, never the `'--'` of the failure record. */
  lemma ShownWindSpeedIsNumber(stadiums: seq<Stadium>, game: Game, k: nat, clock: nat -> string,
                          service: (nat, Request) -> Response, hourOf: string -> int)
    ensures PanelFor(stadiums, game, k, clock, service, hourOf).Conditions? ==>
      PanelFor(stadiums, game, k, clock, service, hourOf).windSpeed.Num?
  {
  }

  /** The badge tells the roof state: only the roof-closed badge has no arrow. */
  lemma BadgeRevealsRoof(stadiums: seq<Stadium>, game: Game, k: nat, clock: nat -> string,
                          service: (nat, Request) -> Response, hourOf: string -> int)
    requires Find(stadiums, game.venueId).Some?
    ensures var s := Find(stadiums, game.venueId).value;
      var w := WeatherOf(service(k, GameRequest(s, game, clock(k))), hourOf(game.gameDate));
      var p := PanelFor(stadiums, game, k, clock, service, hourOf);
      p.Conditions? ==> (p.wind.arrow == "" <==> RoofClosed(s, w.precip, w.temp.n))
  {
    var s := Find(stadiums, game.venueId).value;
    var w := WeatherOf(service(k, GameRequest(s, game, clock(k))), hourOf(game.gameDate));
    if w.temp.Num? && !RoofClosed(s, w.precip, w.temp.n) {
      var info := Describe(Classify(Diff(w.windDir, s.bearing)));
      assert |info.arrow| == 1;
    }
  }

  /** In a dome the panel never shows wind: the badge is "Roof Closed" and the speed 0. */
  lemma DomeHidesWind(stadiums: seq<Stadium>, game: Game, k: nat, clock: nat -> string,
                          service: (nat, Request) -> Response, hourOf: string -> int)
    requires Find(stadiums, game.venueId).Some? && Find(stadiums, game.venueId).value.dome
    ensures var p := PanelFor(stadiums, game, k, clock, service, hourOf);
      p.Conditions? ==> p.wind == RoofClosedInfo && p.windSpeed == Num(Finite(0.0))
  {
  }

  /** Game i issues the k-th request of the slate, and that request is `req`. */
  predicate IssuedBy(stadiums: seq<Stadium>, games: seq<Game>, clock: nat -> string, k: int, i: int, req: Request) {
    && 0 <= k && 0 <= i < |games|
    && Find(stadiums, games[i].venueId).Some?
    && Issued(stadiums, games[..i]) == k
    && req == GameRequest(Find(stadiums, games[i].venueId).value, games[i], clock(k))
  }

  /**
   * There are at most as many requests as games, and the k-th request the loop
   * issues is that of a scheduled game with a known venue, made with the k-th
   * clock reading.
   */
  lemma {:induction false} RequestsBelongToGames(stadiums: seq<Stadium>, games: seq<Game>, clock: nat -> string, k: int)
    requires 0 <= k < |RequestsFor(stadiums, games, clock)|
    ensures |RequestsFor(stadiums, games, clock)| <= |games|
    ensures exists i :: IssuedBy(stadiums, games, clock, k, i, RequestsFor(stadiums, games, clock)[k])
  {
    var n := |games| - 1;
    var init := games[..n];
    RequestsForSnoc(stadiums, games, n, clock);
    assert games[..n + 1] == games;
    if k < |RequestsFor(stadiums, init, clock)| {
      RequestsBelongToGames(stadiums, init, clock, k);
      var i :| IssuedBy(stadiums, init, clock, k, i, RequestsFor(stadiums, init, clock)[k]);
      assert init[..i] == games[..i];
      assert IssuedBy(stadiums, games, clock, k, i, RequestsFor(stadiums, games, clock)[k]);
    } else {
      assert IssuedBy(stadiums, games, clock, k, n, RequestsFor(stadiums, games, clock)[k]);
    }
  }

  /** Conversely, every game with a known venue has its request in the list, at the position the loop gives it. */
  lemma {:induction false} KnownGamesRequested(stadiums: seq<Stadium>, games: seq<Game>, clock: nat -> string, i: int)
    requires 0 <= i < |games| && Find(stadiums, games[i].venueId).Some?
    ensures Issued(stadiums, games[..i]) < |RequestsFor(stadiums, games, clock)|
    ensures RequestsFor(stadiums, games, clock)[Issued(stadiums, games[..i])]
         == GameRequest(Find(stadiums, games[i].venueId).value, games[i], clock(Issued(stadiums, games[..i])))
  {
    var n := |games| - 1;
    var init := games[..n];
    RequestsForSnoc(stadiums, games, n, clock);
    assert games[..n + 1] == games;
    if i < n {
      assert init[..i] == games[..i] && init[i] == games[i];
      KnownGamesRequested(stadiums, init, clock, i);
    }
  }
}
