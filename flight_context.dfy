/**
 * The state held by `FlightProvider` (`src/context/FlightContext.tsx`) and the
 * transitions that update it. Each method is one batched React update: all the
 * setters it calls take effect together.
 */
module FlightContext {
  import opened Wrappers
  import opened Flights
  import opened StableSort
  import AirportSearch
  import opened Selection

  class FlightProvider {
    var flights: seq<Flight>
    /** `None` until an airport is selected (`undefined` in the source). */
    var selectedFlights: Option<seq<Flight>>
    var isLoading: bool
    var searchAirport: string
    var sortState: SortState

    /** `filteredAirports`: the effect recomputes it whenever `searchAirport` or `flights` changes. */
    function FilteredAirports(): (r: seq<string>)
      reads this
      ensures |searchAirport| < MINIMUM_SEARCH_LENGTH ==> r == []
      ensures forall a :: a in r ==> AirportSearch.Matches(a, searchAirport)
    {
      AirportSearch.FilteredAirports(searchAirport, flights)
    }

    /** The initial state of the provider. */
    constructor ()
      ensures flights == [] && selectedFlights == None && isLoading
      ensures searchAirport == "" && sortState == SortState(None, None)
      ensures FilteredAirports() == []
    {
      flights := [];
      selectedFlights := None;
      isLoading := true;
      searchAirport := "";
      sortState := SortState(None, None);
    }

    /**
     * The end of the load effect. `loaded` is what the fetch produced: `Some(list)`
     * on success, `None` when it threw, in which case `flights` keeps its value.
     * Loading is over either way.
     */
    method CompleteLoad(loaded: Option<seq<Flight>>)
      modifies this
      ensures !isLoading
      ensures flights == if loaded.Some? then loaded.value else old(flights)
      ensures selectedFlights == old(selectedFlights)
      ensures searchAirport == old(searchAirport) && sortState == old(sortState)
    {
      if loaded.Some? {
        flights := loaded.value;
      }
      isLoading := false;
    }

    /** `setSearchAirport`: store the query as typed. */
    method SetSearchAirport(query: string)
      modifies this
      ensures searchAirport == query
      ensures |query| < MINIMUM_SEARCH_LENGTH ==> FilteredAirports() == []
      ensures flights == old(flights) && selectedFlights == old(selectedFlights)
      ensures isLoading == old(isLoading) && sortState == old(sortState)
    {
      searchAirport := query;
      AirportSearch.FilteredAirportsCorrect(query, flights);
    }

    /**
     * `selectAirport`: close the search, select the (at most five) earliest flights
     * of the airport in time order, and mark both keys ascending.
     */
    method SelectAirport(airport: string)
      modifies this
      ensures searchAirport == "" && FilteredAirports() == []
      ensures selectedFlights == Some(SelectFlights(flights, airport))
      ensures forall f :: f in selectedFlights.value ==> f in flights && f.airport == airport
      ensures |selectedFlights.value| == Min(MAX_FLIGHT_RESULTS, |FlightsFor(flights, airport)|)
      ensures forall i, j :: 0 <= i < j < |selectedFlights.value| ==>
        selectedFlights.value[i].expectedTime <= selectedFlights.value[j].expectedTime
      ensures sortState == SortState(Some(Asc), Some(Asc))
      ensures flights == old(flights) && isLoading == old(isLoading)
    {
      searchAirport := "";
      selectedFlights := Some(SelectFlights(flights, airport));
      sortState := SortState(Some(Asc), Some(Asc));
      SelectFlightsMembers(flights, airport);
      SelectFlightsSorted(flights, airport);
    }

    /**
     * `sortFlightResults`: without a selection, nothing happens. Otherwise the
     * selection is stably re-sorted by `sortBy` in direction `order`, and only
     * that key's entry of `sortState` is overwritten.
     */
    method SortFlightResults(sortBy: SortKey, order: Order)
      modifies this
      ensures old(selectedFlights).None? ==> selectedFlights == None && sortState == old(sortState)
      ensures old(selectedFlights).Some? ==>
        && selectedFlights == Some(SortFlights(old(selectedFlights).value, sortBy, order))
        && multiset(selectedFlights.value) == multiset(old(selectedFlights).value)
        && Sorted(selectedFlights.value, Rank(sortBy, order))
        && Stable(selectedFlights.value, old(selectedFlights).value, Rank(sortBy, order))
        && sortState == old(sortState).With(sortBy, order)
      ensures flights == old(flights) && searchAirport == old(searchAirport)
      ensures isLoading == old(isLoading)
    {
      if selectedFlights.None? {
        return;
      }
      var sorted := SortFlights(selectedFlights.value, sortBy, order);
      SortSortedPermutation(selectedFlights.value, Rank(sortBy, order));
      SortStable(selectedFlights.value, Rank(sortBy, order));
      sortState := sortState.With(sortBy, order);
      selectedFlights := Some(sorted);
    }
  }
}
