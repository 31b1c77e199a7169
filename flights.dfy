/**
 * The flight record and the sort vocabulary of the flight-selection engine
 * (`src/context/FlightContext.tsx`, `src/services/fetchFlights.ts`).
 */
module Flights {
  import opened Wrappers

  /** Shortest search query for which airports are suggested. */
  const MINIMUM_SEARCH_LENGTH: nat := 3
  /** Largest number of flights `selectAirport` keeps. */
  const MAX_FLIGHT_RESULTS: nat := 5

  /**
   * One departure. The source keeps every field as a string; the two fields it
   * compares are held here as the integer keys its comparators compute from them:
   * `date` as a day number (`new Date(date).getTime()` up to a positive factor)
   * and `expectedTime` as minutes after midnight (`parseTimeToMs`, see `ParseClock`).
   * The other fields are only displayed.
   */
  datatype Flight = Flight(
    flightIdentifier: string,
    flightNumber: string,
    airport: string,
    date: int,
    expectedTime: int,
    originalTime: string,
    url: string,
    score: string)

  datatype SortKey = Date | ExpectedTime
  datatype Order = Asc | Desc

  /** The last direction applied per key; `None` is a key absent from the object. */
  datatype SortState = SortState(date: Option<Order>, expectedTime: Option<Order>)
  {
    function Get(k: SortKey): Option<Order> {
      match k
      case Date => date
      case ExpectedTime => expectedTime
    }

    /** `{...prevState, [sortBy]: order}`: overwrite one key, keep the other. */
    function With(k: SortKey, o: Order): (r: SortState)
      ensures r.Get(k) == Some(o)
      ensures forall k' :: k' != k ==> r.Get(k') == Get(k')
    {
      match k
      case Date => this.(date := Some(o))
      case ExpectedTime => this.(expectedTime := Some(o))
    }
  }

  /** The value the comparators compute for a flight and a key. */
  function Key(f: Flight, k: SortKey): int {
    match k
    case Date => f.date
    case ExpectedTime => f.expectedTime
  }

  /** The rank that a comparator for `k` and `o` sorts ascending by. */
  function Rank(k: SortKey, o: Order): Flight -> int {
    match o
    case Asc => f => Key(f, k)
    case Desc => f => -Key(f, k)
  }

  /**
   * The comparator of `sortFlightResults`: the key difference, negated for
   * descending. It is the difference of ranks, so sorting with it sorts by `Rank`.
   */
  function Compare(a: Flight, b: Flight, k: SortKey, o: Order): (c: int)
    ensures c == Rank(k, o)(a) - Rank(k, o)(b)
    ensures o == Asc ==> (c < 0 <==> Key(a, k) < Key(b, k))
    ensures o == Desc ==> (c < 0 <==> Key(a, k) > Key(b, k))
  {
    (Key(a, k) - Key(b, k)) * (if o == Asc then 1 else -1)
  }

  /**
   * `toggleSort` of the flight list: a key never sorted, or sorted descending,
   * becomes ascending; an ascending one becomes descending.
   */
  function ToggleOrder(current: Option<Order>): (r: Order)
    ensures current.Some? ==> r != current.value
    ensures current.None? ==> r == Asc
  {
    if current == Some(Asc) then Desc else Asc
  }

  // ---- parseTimeToMs on well-formed "HH:MM" strings ----

  predicate IsDigit(c: char) {
    '0' <= c <= '9'
  }

  function DigitValue(c: char): nat
    requires IsDigit(c)
  {
    (c as int - '0' as int) as nat
  }

  function DigitChar(d: nat): (c: char)
    requires d < 10
    ensures IsDigit(c) && DigitValue(c) == d
  {
    ('0' as int + d) as char
  }

  /** `s` is a 24-hour clock time written `HH:MM`. */
  predicate WellFormedClock(s: string) {
    |s| == 5 && IsDigit(s[0]) && IsDigit(s[1]) && s[2] == ':' && IsDigit(s[3]) && IsDigit(s[4])
    && 10 * DigitValue(s[0]) + DigitValue(s[1]) < 24
    && 10 * DigitValue(s[3]) + DigitValue(s[4]) < 60
  }

  /**
   * Minutes after midnight of an `HH:MM` time, `None` for anything else.
   * `parseTimeToMs` returns the same instant in milliseconds, offset by the
   * local time zone, which preserves the order between times.
   */
  function ParseClock(s: string): (r: Option<nat>)
    ensures r.Some? <==> WellFormedClock(s)
    ensures r.Some? ==> r.value < 24 * 60
  {
    if WellFormedClock(s) then
      Some((10 * DigitValue(s[0]) + DigitValue(s[1])) * 60 + 10 * DigitValue(s[3]) + DigitValue(s[4]))
    else None
  }

  /** The `HH:MM` text of a minute of the day. */
  function FormatClock(t: nat): (s: string)
    requires t < 24 * 60
    ensures WellFormedClock(s)
  {
    var h, m := t / 60, t % 60;
    [DigitChar(h / 10), DigitChar(h % 10), ':', DigitChar(m / 10), DigitChar(m % 10)]
  }

  lemma ParseFormatClock(t: nat)
    requires t < 24 * 60
    ensures ParseClock(FormatClock(t)) == Some(t)
  {
    var h, m := t / 60, t % 60;
    var s := FormatClock(t);
    assert 10 * DigitValue(s[0]) + DigitValue(s[1]) == h;
    assert 10 * DigitValue(s[3]) + DigitValue(s[4]) == m;
  }

  lemma FormatParseClock(s: string)
    requires WellFormedClock(s)
    ensures FormatClock(ParseClock(s).value) == s
  {
    var h := 10 * DigitValue(s[0]) + DigitValue(s[1]);
    var m := 10 * DigitValue(s[3]) + DigitValue(s[4]);
    var t := h * 60 + m;
    assert t / 60 == h && t % 60 == m;
    var r := FormatClock(t);
    assert DigitValue(r[0]) == DigitValue(s[0]) && DigitValue(r[1]) == DigitValue(s[1]);
    assert DigitValue(r[3]) == DigitValue(s[3]) && DigitValue(r[4]) == DigitValue(s[4]);
  }

  /** Code-unit order of strings, the order of `Array.prototype.sort` without a comparator. */
  predicate LexLess(a: string, b: string) {
    exists i :: 0 <= i <= |a| && i <= |b| && a[..i] == b[..i] &&
      ((i < |a| && i < |b| && a[i] < b[i]) || (i == |a| && i < |b|))
  }

  /**
   * On `HH:MM` strings, the parsed times order exactly as the strings do, so
   * sorting the time strings (as the engine's tests do) agrees with the time keys.
   */
  lemma ClockOrderIsTextOrder(a: string, b: string)
    requires WellFormedClock(a) && WellFormedClock(b)
    ensures ParseClock(a).value < ParseClock(b).value <==> LexLess(a, b)
  {
    var x, y := ParseClock(a).value, ParseClock(b).value;
    if x < y {
      var i := if a[0] != b[0] then 0 else if a[1] != b[1] then 1 else if a[3] != b[3] then 3 else 4;
      assert a[..i] == b[..i];
    }
    if LexLess(a, b) {
      var i :| 0 <= i <= |a| && i <= |b| && a[..i] == b[..i] &&
        ((i < |a| && i < |b| && a[i] < b[i]) || (i == |a| && i < |b|));
      assert i < 5 && i != 2;
      if i >= 1 { assert a[0] == a[..i][0]; }
      if i >= 2 { assert a[1] == a[..i][1]; }
      if i >= 4 { assert a[3] == a[..i][3]; }
    }
  }
}
