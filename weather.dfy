/**
 * `fetchGameWeather` of script.js: build the Open-Meteo request for a game,
 * then read temperature, precipitation, wind speed and wind direction at the
 * game's hour from the parsed `hourly` arrays, or return a fixed record with
 * `temp: '--'` when anything goes wrong.
 */
module Weather {
  import opened Wrappers
  import opened JsNumber
  import opened Dates

  /** A field that holds either the string `'--'` or a number. */
  datatype Reading = Dashes | Num(n: Number)

  /** The record `{ temp, precip, windSpeed, windDir }` returned for a game. */
  datatype GameWeather = GameWeather(temp: Reading, precip: Number, windSpeed: Reading, windDir: Number)

  /** Returned from the `catch` block: `{ temp: '--', precip: 0, windSpeed: '--', windDir: 0 }`. */
  const Sentinel: GameWeather := GameWeather(Dashes, Finite(0.0), Dashes, Finite(0.0))

  /**
   * The arrays of `data.hourly` that the code reads; a field is None when it is
   * absent (or null). The archive sends `precipitation` in inches, the forecast
   * `precipitation_probability` in percent.
   */
  datatype Hourly = Hourly(
    temperature: Option<seq<real>>,
    windSpeed: Option<seq<real>>,
    windDirection: Option<seq<real>>,
    precipitation: Option<seq<real>>,
    precipitationProbability: Option<seq<real>>)

  /** What `fetch` + `response.json()` produce: a rejection, or a body that may lack `hourly`. */
  datatype Response = Rejected | Body(hourly: Option<Hourly>)

  /**
   * The URL the code builds, reduced to what varies: endpoint, the `hourly=`
   * variable list, coordinates and the game's date.
   */
  datatype Request = Request(endpoint: Endpoint, variables: seq<string>, latitude: real, longitude: real, date: string)

  /** The request for a game at (lat, lon) starting at `gameDateIso`, with the clock reading `nowIso`. */
  function RequestFor(lat: real, lon: real, gameDateIso: string, nowIso: string): (r: Request)
    ensures r.date == BeforeT(gameDateIso) && 'T' !in r.date
    ensures r.latitude == lat && r.longitude == lon
    ensures r.endpoint == Archive <==> LexLess(r.date, BeforeT(nowIso)) || r.date == DefaultDate
    ensures r.variables == HourlyVariables(r.endpoint)
  {
    var dateStr := BeforeT(gameDateIso);
    var endpoint := ChooseEndpoint(dateStr, BeforeT(nowIso));
    Request(endpoint, HourlyVariables(endpoint), lat, lon, dateStr)
  }

  /**
   * The `try` block throws exactly when the fetch or parse fails, when
   * `data.hourly` is missing (reading a field of undefined), or when one of the
   * temperature, wind-speed and wind-direction arrays is missing (indexing
   * undefined). A missing precipitation array does not throw.
   */
  predicate Fails(response: Response) {
    match response
    case Rejected => true
    case Body(None) => true
    case Body(Some(h)) => h.temperature.None? || h.windSpeed.None? || h.windDirection.None?
  }

  /** The record `fetchGameWeather` resolves to for a given response and game hour. */
  function WeatherOf(response: Response, gameHour: int): (w: GameWeather)
    ensures w.temp.Dashes? <==> Fails(response)
    ensures w.temp.Dashes? <==> w.windSpeed.Dashes?
    ensures w.temp.Dashes? ==> w == Sentinel
    ensures w.temp.Num? ==> w.temp.n.NaN? || w.temp.n.value == w.temp.n.value.Floor as real
  {
    if Fails(response) then Sentinel
    else
      var h := response.hourly.value;
      var precip :=
        if h.precipitation.Some? then At(h.precipitation.value, gameHour)
        else if h.precipitationProbability.Some? then Div(At(h.precipitationProbability.value, gameHour), 100.0)
        else Finite(0.0);
      GameWeather(
        Num(Round(At(h.temperature.value, gameHour))),
        precip,
        Num(Round(At(h.windSpeed.value, gameHour))),
        At(h.windDirection.value, gameHour))
  }

  /**
   * `fetchGameWeather(lat, lon, gameDateIso)`. The network is the function
   * `provider` from request to response, the browser's clock is `nowIso`
   * (`new Date().toISOString()`) and `hourOf` stands for
   * `new Date(gameDateIso).getHours()` in the browser's time zone.
   */
  method FetchGameWeather(lat: real, lon: real, gameDateIso: string, nowIso: string,
                          provider: Request -> Response, hourOf: string -> int)
    returns (request: Request, weather: GameWeather)
    ensures request == RequestFor(lat, lon, gameDateIso, nowIso)
    ensures weather == WeatherOf(provider(request), hourOf(gameDateIso))
  {
    var dateStr := BeforeT(gameDateIso);
    var today := BeforeT(nowIso);
    var isHistorical := LexLess(dateStr, today);
    var endpoint;
    if isHistorical || dateStr == DefaultDate {
      endpoint := Archive;
    } else {
      endpoint := Forecast;
    }
    request := Request(endpoint, HourlyVariables(endpoint), lat, lon, dateStr);

    var response := provider(request);
    if Fails(response) {
      weather := Sentinel;
      return;
    }
    var gameHour := hourOf(gameDateIso);
    var hourly := response.hourly.value;
    var temps, winds, dirs := hourly.temperature.value, hourly.windSpeed.value, hourly.windDirection.value;

    var precipVal := Finite(0.0);
    if hourly.precipitation.Some? {
      precipVal := At(hourly.precipitation.value, gameHour);
    } else if hourly.precipitationProbability.Some? {
      precipVal := Div(At(hourly.precipitationProbability.value, gameHour), 100.0);
    }

    weather := GameWeather(Num(Round(At(temps, gameHour))), precipVal, Num(Round(At(winds, gameHour))), At(dirs, gameHour));
  }

  // ---------------------------------------------------------------------------
  // Which precipitation figure is used
  // ---------------------------------------------------------------------------

  /** The raw `precipitation` array wins: whatever probability array comes along is ignored. */
  lemma PrecipitationArrayWins(h: Hourly, gameHour: int, probability: Option<seq<real>>)
    requires h.precipitation.Some?
    ensures WeatherOf(Body(Some(h.(precipitationProbability := probability))), gameHour)
         == WeatherOf(Body(Some(h)), gameHour)
    ensures !Fails(Body(Some(h))) ==>
      WeatherOf(Body(Some(h)), gameHour).precip == At(h.precipitation.value, gameHour)
  {
  }

  /** Without `precipitation`, a probability of p percent becomes the fraction p / 100. */
  lemma ProbabilityBecomesFraction(h: Hourly, gameHour: int)
    requires !Fails(Body(Some(h)))
    requires h.precipitation.None? && h.precipitationProbability.Some?
    requires 0 <= gameHour < |h.precipitationProbability.value|
    ensures WeatherOf(Body(Some(h)), gameHour).precip.Finite?
    ensures WeatherOf(Body(Some(h)), gameHour).precip.value * 100.0
         == h.precipitationProbability.value[gameHour]
    ensures 0.0 <= h.precipitationProbability.value[gameHour] <= 100.0 ==>
      0.0 <= WeatherOf(Body(Some(h)), gameHour).precip.value <= 1.0
  {
  }

  /** With neither precipitation array the figure is 0. */
  lemma NoPrecipitationSourceIsZero(h: Hourly, gameHour: int)
    requires !Fails(Body(Some(h)))
    requires h.precipitation.None? && h.precipitationProbability.None?
    ensures WeatherOf(Body(Some(h)), gameHour).precip == Finite(0.0)
  {
  }

  /**
   * For an hour inside the arrays, a successful response gives the rounded
   * temperature and wind speed at that hour and the wind direction as sent.
   */
  lemma ReadsAtGameHour(h: Hourly, gameHour: int)
    requires !Fails(Body(Some(h)))
    requires 0 <= gameHour < |h.temperature.value|
    requires 0 <= gameHour < |h.windSpeed.value|
    requires 0 <= gameHour < |h.windDirection.value|
    ensures var w := WeatherOf(Body(Some(h)), gameHour);
      && w.temp == Num(Round(Finite(h.temperature.value[gameHour])))
      && w.windSpeed == Num(Round(Finite(h.windSpeed.value[gameHour])))
      && w.windDir == Finite(h.windDirection.value[gameHour])
  {
  }

  /**
   * An hour beyond the arrays (a short array, or the NaN hour of an unparsable
   * date) reads undefined: nothing throws, but temperature, wind speed and wind
   * direction come out NaN.
   */
  lemma HourOutsideArrays(h: Hourly, gameHour: int)
    requires !Fails(Body(Some(h)))
    requires !(0 <= gameHour < |h.temperature.value|)
    requires !(0 <= gameHour < |h.windSpeed.value|)
    requires !(0 <= gameHour < |h.windDirection.value|)
    ensures var w := WeatherOf(Body(Some(h)), gameHour);
      w.temp == Num(NaN) && w.windSpeed == Num(NaN) && w.windDir == NaN
  {
  }
}
