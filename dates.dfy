/**
 * Date handling of `fetchGameWeather` in script.js: the calendar date of a game
 * is the part of its ISO timestamp before the first 'T', and the weather
 * endpoint is the archive when that date sorts before today's date as a
 * string, or is the default date the page opens on; otherwise the forecast.
 */
module Dates {

  /** `s.split('T')[0]`: everything before the first 'T', or all of s when it has none. */
  function BeforeT(s: string): (r: string)
    ensures r <= s
    ensures 'T' !in r
    ensures |r| < |s| ==> s[|r|] == 'T'
  {
    if s == [] || s[0] == 'T' then [] else [s[0]] + BeforeT(s[1..])
  }

  /** Splitting `date + "T" + time` gives back the date when the date part holds no 'T'. */
  lemma {:induction false} BeforeTOfTimestamp(date: string, time: string)
    requires 'T' !in date
    ensures BeforeT(date + "T" + time) == date
  {
    if date != [] {
      assert (date + "T" + time)[1..] == date[1..] + "T" + time;
      BeforeTOfTimestamp(date[1..], time);
    }
  }

  // ---------------------------------------------------------------------------
  // JavaScript's `<` on strings
  // ---------------------------------------------------------------------------

  /** JS `a < b` on strings: lexicographic order, a proper prefix sorting first. */
  predicate LexLess(a: string, b: string) {
    if b == [] then false
    else if a == [] then true
    else if a[0] != b[0] then a[0] < b[0]
    else LexLess(a[1..], b[1..])
  }

  /** Independent description: a is a proper prefix of b, or the first difference favours b. */
  lemma {:induction false} LexLessMeans(a: string, b: string)
    ensures LexLess(a, b) <==>
      a < b || exists k :: 0 <= k < |a| && k < |b| && a[..k] == b[..k] && a[k] < b[k]
  {
    if a == [] || b == [] {
    } else if a[0] != b[0] {
      forall k | 0 < k <= |a| && k <= |b|
        ensures a[..k] != b[..k]
      {
        assert a[..k][0] != b[..k][0];
      }
      assert a[..0] == b[..0];
    } else {
      LexLessMeans(a[1..], b[1..]);
      if exists k :: 0 <= k < |a| && k < |b| && a[..k] == b[..k] && a[k] < b[k] {
        var k :| 0 <= k < |a| && k < |b| && a[..k] == b[..k] && a[k] < b[k];
        assert k > 0;
        assert a[1..][..k - 1] == a[..k][1..] == b[..k][1..] == b[1..][..k - 1];
        assert a[1..][k - 1] < b[1..][k - 1];
      }
      if exists k :: 0 <= k < |a| - 1 && k < |b| - 1 && a[1..][..k] == b[1..][..k] && a[1..][k] < b[1..][k] {
        var k :| 0 <= k < |a| - 1 && k < |b| - 1 && a[1..][..k] == b[1..][..k] && a[1..][k] < b[1..][k];
        assert a[..k + 1] == [a[0]] + a[1..][..k] == [b[0]] + b[1..][..k] == b[..k + 1];
        assert a[k + 1] < b[k + 1];
      }
      if a < b {
        assert a[1..] < b[1..];
      }
      if a[1..] < b[1..] {
        assert a == [a[0]] + a[1..];
        assert b == [b[0]] + b[1..];
      }
    }
  }

  lemma {:induction false} LexLessIrreflexive(a: string)
    ensures !LexLess(a, a)
  {
    if a != [] {
      LexLessIrreflexive(a[1..]);
    }
  }

  lemma {:induction false} LexLessTransitive(a: string, b: string, c: string)
    requires LexLess(a, b) && LexLess(b, c)
    ensures LexLess(a, c)
  {
    if a != [] && a[0] == b[0] && b[0] == c[0] {
      LexLessTransitive(a[1..], b[1..], c[1..]);
    }
  }

  /** Any two strings compare in exactly one way. */
  lemma {:induction false} LexLessTrichotomy(a: string, b: string)
    ensures LexLess(a, b) || a == b || LexLess(b, a)
    ensures !(LexLess(a, b) && LexLess(b, a))
  {
    if a != [] && b != [] && a[0] == b[0] {
      LexLessTrichotomy(a[1..], b[1..]);
      if a[1..] == b[1..] {
        assert a == [a[0]] + a[1..] && b == [b[0]] + b[1..];
      }
    }
  }

  /** Comparing two strings with equally long heads: the heads decide unless they are equal. */
  lemma {:induction false} LexLessConcat(p: string, s: string, q: string, t: string)
    requires |p| == |q|
    ensures LexLess(p + s, q + t) == if p == q then LexLess(s, t) else LexLess(p, q)
  {
    if p != [] {
      assert (p + s)[0] == p[0] && (q + t)[0] == q[0];
      assert (p + s)[1..] == p[1..] + s;
      assert (q + t)[1..] == q[1..] + t;
      LexLessConcat(p[1..], s, q[1..], t);
      if p[0] == q[0] {
        assert LexLess(p + s, q + t) == LexLess(p[1..] + s, q[1..] + t);
        assert LexLess(p, q) == LexLess(p[1..], q[1..]);
        assert p == q <==> p[1..] == q[1..] by {
          assert p == [p[0]] + p[1..] && q == [q[0]] + q[1..];
        }
      }
    } else {
      assert p + s == s && q + t == t;
    }
  }

  // ---------------------------------------------------------------------------
  // ISO calendar dates: string order is chronological order
  // ---------------------------------------------------------------------------

  function Pow10(w: nat): (p: nat)
    ensures p >= 1
  {
    if w == 0 then 1 else 10 * Pow10(w - 1)
  }

  function Digit(d: nat): char
    requires d < 10
  {
    ('0' as int + d) as char
  }

  /** n written in decimal with leading zeros to exactly w digits. */
  function Pad(n: nat, w: nat): (s: string)
    requires n < Pow10(w)
    ensures |s| == w
    ensures forall i :: 0 <= i < |s| ==> '0' <= s[i] <= '9'
  {
    if w == 0 then "" else Pad(n / 10, w - 1) + [Digit(n % 10)]
  }

  /** Zero-padded numerals of one width sort as the numbers do. */
  lemma {:induction false} PadOrder(a: nat, b: nat, w: nat)
    requires a < Pow10(w) && b < Pow10(w)
    ensures LexLess(Pad(a, w), Pad(b, w)) <==> a < b
    ensures Pad(a, w) == Pad(b, w) <==> a == b
  {
    if w > 0 {
      PadOrder(a / 10, b / 10, w - 1);
      LexLessConcat(Pad(a / 10, w - 1), [Digit(a % 10)], Pad(b / 10, w - 1), [Digit(b % 10)]);
      if Pad(a, w) == Pad(b, w) {
        assert Pad(a / 10, w - 1) == Pad(a, w)[..w - 1] == Pad(b, w)[..w - 1] == Pad(b / 10, w - 1);
        assert Digit(a % 10) == Pad(a, w)[w - 1] == Pad(b, w)[w - 1] == Digit(b % 10);
      }
    }
  }

  /** A calendar date in the `YYYY-MM-DD` form; the fields are only bounded by their widths. */
  datatype Date = Date(year: nat, month: nat, day: nat)

  predicate Writable(d: Date) {
    d.year < 10000 && d.month < 100 && d.day < 100
  }

  /** Chronological order of dates. */
  predicate Before(d1: Date, d2: Date) {
    d1.year < d2.year
    || (d1.year == d2.year && d1.month < d2.month)
    || (d1.year == d2.year && d1.month == d2.month && d1.day < d2.day)
  }

  function Iso(d: Date): (s: string)
    requires Writable(d)
    ensures |s| == 10 && 'T' !in s
  {
    Pad(d.year, 4) + ("-" + MonthDay(d))
  }

  /** The `MM-DD` tail of an ISO date. */
  function MonthDay(d: Date): (s: string)
    requires Writable(d)
    ensures |s| == 5
  {
    Pad(d.month, 2) + ("-" + Pad(d.day, 2))
  }

  lemma MonthDayOrder(d1: Date, d2: Date)
    requires Writable(d1) && Writable(d2)
    ensures LexLess(MonthDay(d1), MonthDay(d2)) <==>
      d1.month < d2.month || (d1.month == d2.month && d1.day < d2.day)
    ensures MonthDay(d1) == MonthDay(d2) <==> d1.month == d2.month && d1.day == d2.day
  {
    PadOrder(d1.month, d2.month, 2);
    PadOrder(d1.day, d2.day, 2);
    LexLessConcat(Pad(d1.month, 2), "-" + Pad(d1.day, 2), Pad(d2.month, 2), "-" + Pad(d2.day, 2));
    LexLessConcat("-", Pad(d1.day, 2), "-", Pad(d2.day, 2));
    if MonthDay(d1) == MonthDay(d2) {
      assert Pad(d1.month, 2) == MonthDay(d1)[..2] == MonthDay(d2)[..2] == Pad(d2.month, 2);
      assert Pad(d1.day, 2) == MonthDay(d1)[3..] == MonthDay(d2)[3..] == Pad(d2.day, 2);
    }
  }

  /** On ISO dates the script's "rough check" `dateStr < today` is exactly "earlier in time". */
  lemma IsoOrder(d1: Date, d2: Date)
    requires Writable(d1) && Writable(d2)
    ensures LexLess(Iso(d1), Iso(d2)) <==> Before(d1, d2)
    ensures Iso(d1) == Iso(d2) <==> d1 == d2
  {
    var y1, y2 := Pad(d1.year, 4), Pad(d2.year, 4);
    var m1, m2 := MonthDay(d1), MonthDay(d2);
    assert Iso(d1) == y1 + ("-" + m1) && Iso(d2) == y2 + ("-" + m2);
    PadOrder(d1.year, d2.year, 4);
    MonthDayOrder(d1, d2);
    LexLessConcat(y1, "-" + m1, y2, "-" + m2);
    LexLessConcat("-", m1, "-", m2);
    if Iso(d1) == Iso(d2) {
      assert y1 == Iso(d1)[..4] == Iso(d2)[..4] == y2;
      assert m1 == Iso(d1)[5..] == Iso(d2)[5..] == m2;
    }
  }

  // ---------------------------------------------------------------------------
  // Endpoint selection
  // ---------------------------------------------------------------------------

  /** `DEFAULT_DATE`, the date the page loads first; its weather always comes from the archive. */
  const DefaultDate: string := "2024-09-25"

  lemma DefaultDateIsIso()
    ensures Writable(Date(2024, 9, 25)) && Iso(Date(2024, 9, 25)) == DefaultDate
  {
  }

  /**
   * The two Open-Meteo services. Both are asked for one day (start and end date
   * the game's date) in Fahrenheit, mph and inches, in the venue's time zone;
   * the archive for `temperature_2m, precipitation, wind_speed_10m,
   * wind_direction_10m`, the forecast for the same with
   * `precipitation_probability` in place of `precipitation`.
   */
  datatype Endpoint = Archive | Forecast

  /** The hourly variables requested from each endpoint. */
  function HourlyVariables(e: Endpoint): (vars: seq<string>)
    ensures |vars| == 4 && vars[0] == "temperature_2m"
    ensures (e == Archive) <==> "precipitation" in vars
    ensures (e == Forecast) <==> "precipitation_probability" in vars
  {
    match e
    case Archive => ["temperature_2m", "precipitation", "wind_speed_10m", "wind_direction_10m"]
    case Forecast => ["temperature_2m", "precipitation_probability", "wind_speed_10m", "wind_direction_10m"]
  }

  /** `isHistorical || dateStr === "2024-09-25"` selects the archive. */
  function ChooseEndpoint(dateStr: string, today: string): Endpoint {
    if LexLess(dateStr, today) || dateStr == DefaultDate then Archive else Forecast
  }

  /** The forecast is used only for today or a date that sorts after it. */
  lemma ForecastOnlyFromToday(dateStr: string, today: string)
    ensures ChooseEndpoint(dateStr, today) == Forecast ==> dateStr == today || LexLess(today, dateStr)
    ensures ChooseEndpoint(dateStr, today) == Forecast ==> dateStr != DefaultDate
  {
    LexLessTrichotomy(dateStr, today);
  }

  /**
   * For dates written in ISO form, the archive serves exactly the games played
   * before today, plus every game on the default date whatever today is.
   */
  lemma EndpointForIsoDates(game: Date, today: Date)
    requires Writable(game) && Writable(today)
    ensures ChooseEndpoint(Iso(game), Iso(today)) == Archive <==>
      Before(game, today) || game == Date(2024, 9, 25)
  {
    IsoOrder(game, today);
    DefaultDateIsIso();
    IsoOrder(game, Date(2024, 9, 25));
  }
}
