/**
 * Scenarios on the mock data of the engine's test suite
 * (`src/context/FlightContext.spec.tsx`): six Dublin departures on one day,
 * selected, capped at five and re-sorted. Also a search over airports that differ
 * only in case, which exercises the exact-equality `Set` that removes duplicate
 * airports (`src/context/FlightContext.tsx:52`).
 */
module Scenarios {
  import opened Wrappers
  import opened Flights
  import opened StableSort
  import opened Selection
  import AirportSearch
  import opened FlightContext

  /** A departure to Dublin on day 19046 (2022-02-23) at minute `time`. */
  function Dublin(id: string, time: int): Flight {
    Flight(id, id, "Dublin", 19046, time, "", "", "")
  }

  /**
   * The mocked flight list with the mock's airport, date and times (16:00, 17:15,
   * 18:35, 21:40, 21:45 and 22:05); the display fields are shortened.
   */
  function MockFlights(): seq<Flight> {
    [Dublin("KL0937", 960), Dublin("EI609", 1035), Dublin("FR3105", 1115),
     Dublin("EI611", 1300), Dublin("KL0939", 1305), Dublin("FR3007", 1325)]
  }

  function Times(s: seq<Flight>): (r: seq<int>)
    ensures |r| == |s| && forall i :: 0 <= i < |s| ==> r[i] == s[i].expectedTime
  {
    seq(|s|, i requires 0 <= i < |s| => s[i].expectedTime)
  }

  lemma {:induction false} FlightsForAll(flights: seq<Flight>, airport: string)
    requires forall f :: f in flights ==> f.airport == airport
    ensures FlightsFor(flights, airport) == flights
  {
    if flights != [] {
      FlightsForAll(flights[1..], airport);
      assert flights == [flights[0]] + flights[1..];
    }
  }

  lemma MockFacts()
    ensures forall f :: f in MockFlights() ==> f.airport == "Dublin" && f.date == 19046
    ensures forall i, j :: 0 <= i < j < |MockFlights()| ==> MockFlights()[i].expectedTime < MockFlights()[j].expectedTime
    ensures |MockFlights()| == 6
    ensures Times(MockFlights()[..5]) == [960, 1035, 1115, 1300, 1305]
    ensures Times(Reverse(MockFlights()[..5])) == [1305, 1300, 1115, 1035, 960]
  {
    var mock := MockFlights();
    StrictlyIncreasing(mock, Rank(ExpectedTime, Asc));
  }

  /**
   * Selecting an airport whose flights are listed in strictly increasing time
   * keeps the first five of them, as they are.
   */
  lemma SelectIncreasing(flights: seq<Flight>, airport: string)
    requires forall f :: f in flights ==> f.airport == airport
    requires forall i, j :: 0 <= i < j < |flights| ==> flights[i].expectedTime < flights[j].expectedTime
    ensures SelectFlights(flights, airport) == flights[..Min(MAX_FLIGHT_RESULTS, |flights|)]
  {
    FlightsForAll(flights, airport);
    SortedFixpoint(flights, Rank(ExpectedTime, Asc));
  }

  /** Flights in strictly increasing time: sorting by time descending reverses them. */
  lemma DescendingTimeReversesIncreasing(s: seq<Flight>)
    requires forall i, j :: 0 <= i < j < |s| ==> s[i].expectedTime < s[j].expectedTime
    ensures SortFlights(s, ExpectedTime, Desc) == Reverse(s)
  {
    assert Sorted(s, Rank(ExpectedTime, Asc));
    SortedFixpoint(s, Rank(ExpectedTime, Asc));
    DescendingReversesDistinctKeys(s, ExpectedTime);
  }

  /** Flights that all share one date: sorting by date, either way, leaves them as they are. */
  lemma DateSortOneDay(s: seq<Flight>, day: int, o: Order)
    requires forall f :: f in s ==> f.date == day
    ensures SortFlights(s, Date, o) == s
  {
    assert Sorted(s, Rank(Date, o));
    SortedFixpoint(s, Rank(Date, o));
  }

  /**
   * The selection and the two re-sorts of the test suite, for any six flights of one airport on one
   * day listed in strictly increasing time: selecting the airport keeps the first
   * five; sorting them by time descending reverses them; a date sort after that
   * changes nothing.
   */
  lemma SelectThenResort(flights: seq<Flight>, airport: string, day: int)
    requires |flights| == 6
    requires forall f :: f in flights ==> f.airport == airport && f.date == day
    requires forall i, j :: 0 <= i < j < |flights| ==> flights[i].expectedTime < flights[j].expectedTime
    ensures SelectFlights(flights, airport) == flights[..5]
    ensures SortFlights(flights[..5], ExpectedTime, Desc) == Reverse(flights[..5])
    ensures SortFlights(Reverse(flights[..5]), Date, Asc) == Reverse(flights[..5])
  {
    var five := flights[..5];
    SelectIncreasing(flights, airport);
    DescendingTimeReversesIncreasing(five);
    ReverseMembers(five);
    assert forall f :: f in five ==> f in flights;
    DateSortOneDay(Reverse(five), day, Asc);
  }

  /**
   * A session composed of the test suite's steps: load the mock, type a query,
   * select Dublin, sort by time descending, then by date ascending. The time
   * direction survives the date sort, and the selection has cleared the query.
   */
  method MockSession() returns (times: seq<int>, state: SortState, query: string, loading: bool)
    ensures times == [1305, 1300, 1115, 1035, 960]
    ensures state == SortState(Some(Asc), Some(Desc))
    ensures query == "" && !loading
  {
    MockFacts();
    SelectThenResort(MockFlights(), "Dublin", 19046);
    ghost var five := MockFlights()[..5];
    var provider := new FlightProvider();
    provider.CompleteLoad(Some(MockFlights()));
    provider.SetSearchAirport("Dub");
    provider.SelectAirport("Dublin");
    assert provider.selectedFlights == Some(five);
    provider.SortFlightResults(ExpectedTime, Desc);
    assert provider.selectedFlights == Some(Reverse(five));
    provider.SortFlightResults(Date, Asc);
    assert provider.selectedFlights == Some(Reverse(five));
    times := Times(provider.selectedFlights.value);
    state := provider.sortState;
    query := provider.searchAirport;
    loading := provider.isLoading;
  }

  /** Three flights whose airports differ in case or name (not part of the mock). */
  function CaseVariants(): seq<Flight> {
    [Flight("1", "1", "Dublin", 0, 0, "", "", ""),
     Flight("2", "2", "DUBLIN", 0, 0, "", "", ""),
     Flight("3", "3", "Paris", 0, 0, "", "", "")]
  }

  lemma CaseVariantsMatch()
    ensures AirportSearch.Matches("Dublin", "dub")
    ensures AirportSearch.Matches("DUBLIN", "dub")
    ensures !AirportSearch.Matches("Paris", "dub")
  {
    assert AirportSearch.ToLower("dub") == "dub";
    assert AirportSearch.ToLower("Dublin") == "dublin";
    assert AirportSearch.ToLower("DUBLIN") == "dublin";
    assert AirportSearch.ToLower("Paris") == "paris";
    assert AirportSearch.OccursAt("dublin", "dub", 0);
    forall i | 0 <= i <= 2 ensures !AirportSearch.OccursAt("paris", "dub", i) {
      assert "paris"[i] != 'd';
    }
  }

  lemma CaseVariantsDistinct()
    ensures AirportSearch.Distinct(AirportSearch.Airports(CaseVariants())) == ["Dublin", "DUBLIN", "Paris"]
  {
    var airports := AirportSearch.Airports(CaseVariants());
    assert airports == ["Dublin", "DUBLIN", "Paris"];
    var a0, a1 := airports[..1], airports[..2];
    assert a0 == ["Dublin"] && a0[..0] == [];
    assert AirportSearch.Distinct(a0) == ["Dublin"];
    assert a1 == ["Dublin", "DUBLIN"] && a1[..1] == a0;
    assert "DUBLIN" != "Dublin" by { assert "DUBLIN"[1] != "Dublin"[1]; }
    assert AirportSearch.Distinct(a1) == ["Dublin", "DUBLIN"];
    assert airports[..2] == a1;
    assert "Paris" != "Dublin" && "Paris" != "DUBLIN" by { assert "Paris"[0] != "Dublin"[0]; }
  }

  /**
   * The set that removes duplicate airports compares exactly, so "Dublin" and
   * "DUBLIN" are both suggested for "dub", in that order; "Paris" is not.
   */
  lemma CaseVariantsBothSuggested()
    ensures AirportSearch.FilteredAirports("dub", CaseVariants()) == ["Dublin", "DUBLIN"]
  {
    CaseVariantsMatch();
    CaseVariantsDistinct();
    var d: seq<string> := ["Dublin", "DUBLIN", "Paris"];
    assert d[1..][1..][1..] == [];
    assert AirportSearch.KeepMatching(d[1..][1..], "dub") == [];
  }
}
