# MLB game-weather cards: a Dafny model of the weather decision logic

The web page of this repository lists the day's baseball games and shows, for
each one, the weather at first pitch: temperature, rain, wind speed, and a
badge that says how the wind blows relative to the ballpark (in, out or cross).
For covered parks it also says when the roof is closed. The logic sits in
`script.js`, and this project models four parts of it:

- **Wind classifier** (`calculateWind`, module `Wind`). It takes the angle
  `(windDirection - stadiumBearing + 360) % 360`, with JavaScript's truncating
  `%`, and sorts it into eight half-open 45-degree sectors. Each sector has its
  own badge (text, CSS class, arrow).
- **Weather extraction** (`fetchGameWeather`, modules `Dates` and `Weather`).
  The game date is the part of the ISO timestamp before the first `'T'`. The
  archive endpoint is used when that date sorts before today's date as a
  string, or when it is the default date `2024-09-25`. Otherwise the forecast
  endpoint is used. Values are read at the game hour:
  - the temperature and wind speed are rounded with `Math.round`;
  - the wind direction is taken as it is;
  - the precipitation is the `precipitation` array if present, otherwise
    `precipitation_probability / 100`, otherwise 0.
  
  Any failure gives the fixed record `{temp:'--', precip:0, windSpeed:'--', windDir:0}`.
- **Roof decision and override** (module `Slate`, `ResolveRoof` and `RoofClosed`).
  - A dome is always closed.
  - A retractable roof closes when `precip > 0.05`, `temp < 50` or `temp > 95`.
  - Any other park is never closed.
  - A closed roof replaces the badge with "Roof Closed" (no arrow) and sets
    the wind speed to 0.
- **The game loop of `init`** (module `Slate`, `Init`). Each game's venue is
  looked up by first match on its id. Weather is fetched only for a known
  venue, and conditions are shown only when the temperature is not `'--'`.

JavaScript numbers are modelled as `Number = Finite(real) | NaN` (module
`JsNumber`). Reading past the end of an array gives `undefined`, and every
comparison and operation the code performs treats `undefined` like NaN, so both
are represented by NaN. For example, a missing wind direction makes every guard
of `calculateWind` false, so it falls through to "In from Left".

Inputs that the page gets from the outside world are parameters:
- for one call of `fetchGameWeather`, the weather service is a function
  `provider` from request to parsed response and the browser clock is the ISO
  string `nowIso`;
- for the whole loop, each call gets its own clock reading and its own answer:
  the k-th weather request of the slate reads the clock as `clock(k)` and is
  answered by `service(k, request)`. A slate whose loop crosses UTC midnight,
  or a doubleheader whose two identical requests get different answers, is
  therefore covered;
- `new Date(gameDate).getHours()` is a function `hourOf` from the game's
  timestamp to an integer hour.

Beyond what the code states, the model proves that for dates written as
`YYYY-MM-DD` the string comparison `dateStr < today` is exactly chronological
order (`Dates.IsoOrder`, `Dates.EndpointForIsoDates`). It also proves that the
eight wind sectors partition the circle (`Wind.SectorsPartition`).

Facts about `script.js` that the model keeps as they are:
- A retractable roof closes at `precip > 0.05`; no rain-chance percentage is
  involved.
- The `precip` value is in inches for the archive and a fraction for the
  forecast, yet both are compared to 0.05.
- Precipitation amounts are not turned into percentage tiers, and there is no
  game-window aggregation, weather code, humidity, analysis note or "too
  early" status anywhere in the code.

## Model

| member | source | states |
|---|---|---|
| `JsNumber.At` | script.js:230-237 | reading an hourly array at the game hour gives the element when the hour is in range and undefined (NaN) otherwise |
| `JsNumber.RemTurn` | script.js:246 | JS `% 360` keeps the dividend's sign: the result lies in [0,360) for a non-negative dividend and in (-360,0] for a negative one, and differs from the dividend by whole turns |
| `JsNumber.Round` | script.js:234-236 | `Math.round` gives an integer within half a unit of its argument, and NaN stays NaN |
| `JsNumber.RemTurnOfNonNegative` | script.js:246 | for a non-negative dividend, JS `% 360` equals the Euclidean remainder |
| `Wind.Describe` | script.js:248-255 | the badge of each category; the CSS class is `bg-in` exactly for the two "in" categories and "Blowing IN", `bg-out` exactly for the two "out" categories and "Blowing OUT", and `bg-cross` exactly for the two crosses; every badge has a one-character arrow |
| `Wind.DescribeInjective` | script.js:248-255 | different categories have different badges |
| `Wind.ClassifyIsSector` | script.js:248-255 | for an angle in [0,360), the guard chain returns category c if and only if the angle lies in c's half-open sector [centre-22.5, centre+22.5) modulo 360 |
| `Wind.SectorsPartition` | script.js:248-255 | the eight sectors cover [0,360) with no gap and no overlap |
| `Wind.ClassifyOutsideRange` | script.js:248-255 | NaN reaches the final return; a negative remainder is caught by the first guard; the final return is taken exactly for NaN and for [292.5,337.5) |
| `Wind.DiffIsAngleBetween` | script.js:246 | for bearings in [0,360), `diff` is finite and equals (wind - bearing) mod 360 |
| `Wind.CalculateWindBySector` | script.js:245-256 | for bearings in [0,360), `calculateWind` returns category c's badge if and only if (wind - bearing) mod 360 lies in c's sector |
| `Wind.DependsOnlyOnDifference` | script.js:245-256 | the badge depends on the two bearings only through their difference modulo 360 |
| `Wind.RotationInvariant` | script.js:245-256 | turning wind and park by the same angle leaves the badge unchanged |
| `Wind.SameBearingBlowsIn` | script.js:246-248 | wind from the park's own bearing gives "Blowing IN", for every bearing |
| `Wind.OppositeBearingBlowsOut` | script.js:246-252 | wind from `(bearing + 180) % 360` gives "Blowing OUT" |
| `Dates.BeforeT` | script.js:200-201 | `split('T')[0]` is a prefix of the string with no 'T' in it, and it stops only at the end of the string or at a 'T' |
| `Dates.BeforeTOfTimestamp` | script.js:200 | splitting `date + "T" + time` gives back the date when the date holds no 'T' |
| `Dates.LexLessMeans` | script.js:207 | JS string `<` holds exactly when a is a proper prefix of b, or when a has the smaller character at the first position where the two differ |
| `Dates.LexLessIrreflexive` | script.js:207 | no string sorts before itself |
| `Dates.LexLessTransitive` | script.js:207 | string `<` is transitive |
| `Dates.LexLessTrichotomy` | script.js:207 | any two strings are equal or ordered one way, and never both ways |
| `Dates.IsoOrder` | script.js:207 | for `YYYY-MM-DD` dates, `dateStr < today` holds exactly when the game's date is earlier in time, and equal strings mean equal dates |
| `Dates.DefaultDateIsIso` | script.js:7 | the default date `"2024-09-25"` is the ISO form of 25 September 2024 |
| `Dates.HourlyVariables` | script.js:210-213 | the `hourly=` list of each URL: four variables starting with `temperature_2m`, with `precipitation` exactly for the archive and `precipitation_probability` exactly for the forecast |
| `Dates.ForecastOnlyFromToday` | script.js:207-214 | the forecast is used only for a date equal to today or sorting after it, and never for the default date |
| `Dates.EndpointForIsoDates` | script.js:200-214 | for ISO dates, the archive is chosen exactly for games before today plus any game on 2024-09-25 |
| `Weather.RequestFor` | script.js:200-214 | the request carries the game's date (the part before 'T') and the stadium's coordinates, goes to the archive exactly when that date sorts before today's or is the default date, and asks for that endpoint's hourly variables |
| `Weather.WeatherOf` | script.js:216-242 | the record has `temp` `'--'` exactly when the try block throws, and then it is the failure record; `temp` and `windSpeed` are `'--'` together; a numeric temperature is an integer or NaN |
| `Weather.FetchGameWeather` | script.js:189-243 | the method builds the request for the game and returns the record read from the provider's response at the game hour, with the precipitation chosen step by step |
| `Weather.PrecipitationArrayWins` | script.js:229-230 | when the `precipitation` array is present, its value at the game hour is used, whatever `precipitation_probability` holds |
| `Weather.ProbabilityBecomesFraction` | script.js:231 | with only `precipitation_probability`, the value is that percentage divided by 100, and a percentage in [0,100] gives a fraction in [0,1] |
| `Weather.NoPrecipitationSourceIsZero` | script.js:229 | with neither precipitation array, the precipitation is 0 |
| `Weather.ReadsAtGameHour` | script.js:221-238 | for an hour inside the arrays, a successful response gives `Math.round` of the temperature and of the wind speed at that hour, and the wind direction at that hour as sent |
| `Weather.HourOutsideArrays` | script.js:221-237 | an hour outside the arrays does not throw, but reads NaN for temperature, wind speed and direction |
| `Slate.Find` | script.js:71 | `stadiums.find` returns nothing exactly when no stadium has the id; otherwise it returns the first stadium with that id |
| `Slate.ResolveRoof` | script.js:104-118 | the flag equals the roof rule; a closed roof swaps the badge for "Roof Closed" and sets the wind speed to 0; temperature, rain and wind direction are kept; an open roof keeps badge and speed |
| `Slate.DomeAlwaysClosed` | script.js:106 | a dome is closed whatever the rain and temperature |
| `Slate.RetractableRoofRule` | script.js:108-111 | a retractable roof (not a dome) is closed exactly when `precip > 0.05`, `temp < 50` or `temp > 95` |
| `Slate.OpenAirNeverClosed` | script.js:104-112 | a park with neither a dome nor a roof is never closed |
| `Slate.RetractableMonotone` | script.js:109 | more rain never opens a roof that was closed |
| `Slate.GamePanel` | script.js:70-118 | the loop body for one game: the panel is that game's panel when its request is the k-th of the slate, and a request is issued exactly when the venue is known |
| `Slate.Init` | script.js:69-170 | one panel per game in schedule order; game i's panel is the one for the clock reading and the answer of the request numbered by the known-venue games before it; the requests are issued in order, one per game whose venue is known, the k-th with the k-th clock reading |
| `Slate.ConditionsShownIff` | script.js:94-99 | conditions are shown exactly when the venue is found and the weather did not fail; otherwise the panel names the venue id |
| `Slate.RoofOverride` | script.js:101-118 | a shown panel has the fetched temperature and rain; if the roof is closed it has the "Roof Closed" badge and wind speed 0, otherwise the `calculateWind` badge and the fetched wind speed |
| `Slate.ShownWindSpeedIsNumber` | script.js:99-131 | a shown panel never carries the `'--'` wind speed of the failure record |
| `Slate.BadgeRevealsRoof` | script.js:115-118 | on a shown panel the badge has no arrow exactly when the roof is closed |
| `Slate.DomeHidesWind` | script.js:106-118 | in a dome a shown panel always has the "Roof Closed" badge and wind speed 0 |
| `Slate.RequestsBelongToGames` | script.js:94-96 | there are at most as many weather requests as games, and the k-th is the request of a scheduled game whose venue is known, preceded by exactly k such games, made with the k-th clock reading |
| `Slate.KnownGamesRequested` | script.js:94-96 | every game whose venue is known has its request in the list, at the position given by the number of known-venue games before it |

## Left out

- Everything that builds or changes the page: the loading spinner, card and badge HTML, logos, game time, team names, and the error and "no games" messages (script.js:17-30, 52-64, 73-91, 120-181). The model keeps only the weather panel's values.
- The event listeners and the first call with the default date (script.js:262-281): they only start `init`.
- Loading `stadiums.json` (with its fallback path) and the schedule, and `init`'s `catch` (script.js:36-49, 172-182). `Init` takes the stadium list and the games as inputs. The `totalGames === 0` branch only shows a message; an empty game list gives no panels.
- The network and JSON parsing. The weather service is the `provider` function of one call, or `service(k, ·)` for the k-th call of the loop, and its parsed answer is a `Response`. The URLs are reduced to their endpoint, coordinates and date, so formatting numbers into the query string is not modelled.
- Time zones and the clock. `getHours()` in the browser's time zone is the parameter `hourOf`. An unparsable date, whose hour is NaN, acts like any hour outside the arrays. `new Date().toISOString()` is the parameter `nowIso` of one call, and `clock(k)` for the k-th call of the loop. The readings are not constrained to increase.
- Floating point. Reals stand for doubles: rounding error, infinities and -0 are not modelled. `Math.round` is modelled exactly on reals.
- JSON `null` inside the hourly arrays: elements are numbers, and a null array counts as an absent one.
- The rain percentage text `Math.round(precip * 100)` (script.js:127): it is display formatting.
- JS string `<` compares UTF-16 code units. The model compares Unicode code points, which is the same order for every character outside the supplementary planes, including all characters of ISO dates.
- fetch_odds.py: it makes one HTTP request to a betting-odds service and writes the JSON to a file. There is nothing to verify in it.
