/**
 * The value pipelines behind `selectAirport` and `sortFlightResults`
 * (`src/context/FlightContext.tsx`): filter by airport, stable sort by a key,
 * keep the first `MAX_FLIGHT_RESULTS`.
 */
module Selection {
  import opened Flights
  import opened StableSort

  function Min(a: int, b: int): int {
    if a <= b then a else b
  }

  /** `flights.filter((flight) => flight.airport === airport)`: exact, case-sensitive equality. */
  function FlightsFor(flights: seq<Flight>, airport: string): (r: seq<Flight>)
    ensures forall f :: multiset(r)[f] == if f.airport == airport then multiset(flights)[f] else 0
  {
    if flights == [] then []
    else
      assert flights == [flights[0]] + flights[1..];
      if flights[0].airport == airport then [flights[0]] + FlightsFor(flights[1..], airport)
      else FlightsFor(flights[1..], airport)
  }

  /** Filtering a concatenation filters each part and keeps the parts in order. */
  lemma {:induction false} FlightsForAppend(a: seq<Flight>, b: seq<Flight>, airport: string)
    ensures FlightsFor(a + b, airport) == FlightsFor(a, airport) + FlightsFor(b, airport)
  {
    if a == [] {
      assert a + b == b;
    } else {
      assert (a + b)[0] == a[0] && (a + b)[1..] == a[1..] + b;
      FlightsForAppend(a[1..], b, airport);
    }
  }

  /**
   * Filtering keeps the order of the flight list: the flights of one rank among
   * the kept ones are the kept flights among those of that rank, in list order.
   */
  lemma {:induction false} FlightsForTier(flights: seq<Flight>, airport: string, rank: Flight -> int, v: int)
    ensures Tier(FlightsFor(flights, airport), rank, v) == FlightsFor(Tier(flights, rank, v), airport)
  {
    if flights != [] {
      FlightsForTier(flights[1..], airport, rank, v);
    }
  }

  /** `[...s].sort(comparator)` with the comparator of `sortFlightResults`. */
  function SortFlights(s: seq<Flight>, k: SortKey, o: Order): (r: seq<Flight>)
    ensures |r| == |s|
  {
    Sort(s, Rank(k, o))
  }

  /** The new selection of `selectAirport(airport)`. */
  function SelectFlights(flights: seq<Flight>, airport: string): (r: seq<Flight>)
    ensures |r| <= MAX_FLIGHT_RESULTS
  {
    var sorted := SortFlights(FlightsFor(flights, airport), ExpectedTime, Asc);
    sorted[..Min(MAX_FLIGHT_RESULTS, |sorted|)]
  }

  /**
   * Re-sorting a selection only rearranges it; it orders it by the key, non-decreasing
   * for `Asc` and non-increasing for `Desc`; and flights with equal keys keep the
   * relative order they had (`Rank(k, Asc)` is the key itself).
   */
  lemma SortFlightsCorrect(s: seq<Flight>, k: SortKey, o: Order)
    ensures multiset(SortFlights(s, k, o)) == multiset(s)
    ensures o == Asc ==> forall i, j :: 0 <= i < j < |s| ==>
      Key(SortFlights(s, k, o)[i], k) <= Key(SortFlights(s, k, o)[j], k)
    ensures o == Desc ==> forall i, j :: 0 <= i < j < |s| ==>
      Key(SortFlights(s, k, o)[i], k) >= Key(SortFlights(s, k, o)[j], k)
    ensures forall v :: Tier(SortFlights(s, k, o), Rank(k, Asc), v) == Tier(s, Rank(k, Asc), v)
  {
    var r := SortFlights(s, k, o);
    SortSortedPermutation(s, Rank(k, o));
    forall v ensures Tier(r, Rank(k, Asc), v) == Tier(s, Rank(k, Asc), v) {
      var w := if o == Asc then v else -v;
      SortTier(s, Rank(k, o), w);
      forall x | x in r ensures Rank(k, o)(x) == w <==> Rank(k, Asc)(x) == v {
      }
      TierSameClass(r, Rank(k, o), w, Rank(k, Asc), v);
      forall x | x in s ensures Rank(k, o)(x) == w <==> Rank(k, Asc)(x) == v {
      }
      TierSameClass(s, Rank(k, o), w, Rank(k, Asc), v);
    }
  }

  /** Any ordered, stable rearrangement of `s` is the result of `SortFlights`. */
  lemma SortFlightsUnique(s: seq<Flight>, k: SortKey, o: Order, r: seq<Flight>)
    requires Sorted(r, Rank(k, o)) && Stable(r, s, Rank(k, o))
    ensures SortFlights(s, k, o) == r
  {
    StableSortUnique(s, r, Rank(k, o));
  }

  /** The members of a selection: flights of that airport, at most five, the earliest ones. */
  lemma SelectFlightsMembers(flights: seq<Flight>, airport: string)
    ensures forall f :: f in SelectFlights(flights, airport) ==> f in flights && f.airport == airport
    ensures multiset(SelectFlights(flights, airport)) <= multiset(FlightsFor(flights, airport))
    ensures |SelectFlights(flights, airport)| == Min(MAX_FLIGHT_RESULTS, |FlightsFor(flights, airport)|)
    ensures (forall f :: f in flights ==> f.airport != airport) ==> SelectFlights(flights, airport) == []
  {
    var m := FlightsFor(flights, airport);
    var sorted := SortFlights(m, ExpectedTime, Asc);
    var r := SelectFlights(flights, airport);
    SortSortedPermutation(m, Rank(ExpectedTime, Asc));
    assert sorted == r + sorted[|r|..];
    assert multiset(sorted) == multiset(r) + multiset(sorted[|r|..]);
    forall f | f in r ensures f in flights && f.airport == airport {
      assert f in multiset(m);
    }
    if forall f :: f in flights ==> f.airport != airport {
      forall f ensures multiset(m)[f] == 0 {
        if f !in flights {
          assert multiset(flights)[f] == 0;
        }
      }
      assert multiset(m) == multiset{};
    }
  }

  /** A selection is non-decreasing by expected time. */
  lemma SelectFlightsSorted(flights: seq<Flight>, airport: string)
    ensures var r := SelectFlights(flights, airport);
      forall i, j :: 0 <= i < j < |r| ==> r[i].expectedTime <= r[j].expectedTime
  {
    var m := FlightsFor(flights, airport);
    SortSortedPermutation(m, Rank(ExpectedTime, Asc));
  }

  /** Every matching flight left out of a selection is no earlier than any flight kept. */
  lemma SelectFlightsEarliest(flights: seq<Flight>, airport: string)
    ensures var r := SelectFlights(flights, airport);
      forall f, x :: f in multiset(FlightsFor(flights, airport)) - multiset(r) && x in r ==>
        x.expectedTime <= f.expectedTime
  {
    var m := FlightsFor(flights, airport);
    var sorted := SortFlights(m, ExpectedTime, Asc);
    var r := SelectFlights(flights, airport);
    SortSortedPermutation(m, Rank(ExpectedTime, Asc));
    SortedSplit(sorted, |r|, Rank(ExpectedTime, Asc));
    assert sorted[..|r|] == r;
    forall f, x | f in multiset(m) - multiset(r) && x in r ensures x.expectedTime <= f.expectedTime {
      assert Rank(ExpectedTime, Asc)(x) <= Rank(ExpectedTime, Asc)(f);
    }
  }

  /**
   * Flights of a selection with the same expected time come in the order of the
   * flight list, and they are the first such flights of that airport: each time
   * tier of the selection is a prefix of the airport's flights at that time, taken
   * in the order of `flights`.
   */
  lemma SelectFlightsStable(flights: seq<Flight>, airport: string)
    ensures var r := SelectFlights(flights, airport);
      forall v :: Tier(r, Rank(ExpectedTime, Asc), v) <= Tier(FlightsFor(flights, airport), Rank(ExpectedTime, Asc), v)
    ensures var r := SelectFlights(flights, airport);
      forall v :: Tier(r, Rank(ExpectedTime, Asc), v) <= FlightsFor(Tier(flights, Rank(ExpectedTime, Asc), v), airport)
  {
    var m := FlightsFor(flights, airport);
    var sorted := SortFlights(m, ExpectedTime, Asc);
    var r := SelectFlights(flights, airport);
    forall v ensures Tier(r, Rank(ExpectedTime, Asc), v) <= Tier(m, Rank(ExpectedTime, Asc), v)
                 && Tier(r, Rank(ExpectedTime, Asc), v) <= FlightsFor(Tier(flights, Rank(ExpectedTime, Asc), v), airport) {
      TierPrefix(sorted, |r|, Rank(ExpectedTime, Asc), v);
      SortTier(m, Rank(ExpectedTime, Asc), v);
      FlightsForTier(flights, airport, Rank(ExpectedTime, Asc), v);
    }
  }

  /**
   * Sorting descending is not reversing: two flights with the same time stay in
   * their order under either direction.
   */
  lemma DescendingKeepsTies(a: Flight, b: Flight)
    requires a != b && a.expectedTime == b.expectedTime
    ensures SortFlights([a, b], ExpectedTime, Desc) == [a, b]
    ensures Reverse(SortFlights([a, b], ExpectedTime, Asc)) == [b, a]
  {
    assert Sort([b], Rank(ExpectedTime, Desc)) == [b];
    assert Sort([b], Rank(ExpectedTime, Asc)) == [b];
  }

  /** Reversing an ascending sort orders by the descending rank. */
  lemma ReversedAscendingIsDescending(s: seq<Flight>, k: SortKey)
    ensures Sorted(Reverse(SortFlights(s, k, Asc)), Rank(k, Desc))
  {
    SortSortedPermutation(s, Rank(k, Asc));
    ReverseSorted(SortFlights(s, k, Asc), Rank(k, Asc), Rank(k, Desc));
  }

  /** With distinct keys, every descending tier of the reversed ascending sort is that of the input. */
  lemma ReversedAscendingTier(s: seq<Flight>, k: SortKey, v: int)
    requires forall i, j :: 0 <= i < j < |s| ==> Key(s[i], k) != Key(s[j], k)
    ensures Tier(Reverse(SortFlights(s, k, Asc)), Rank(k, Desc), v) == Tier(s, Rank(k, Desc), v)
  {
    ReverseSortTier(s, Rank(k, Asc), Rank(k, Desc), v);
  }

  /** When no two flights share the key, sorting descending reverses sorting ascending. */
  lemma DescendingReversesDistinctKeys(s: seq<Flight>, k: SortKey)
    requires forall i, j :: 0 <= i < j < |s| ==> Key(s[i], k) != Key(s[j], k)
    ensures SortFlights(s, k, Desc) == Reverse(SortFlights(s, k, Asc))
  {
    var r := Reverse(SortFlights(s, k, Asc));
    ReversedAscendingIsDescending(s, k);
    forall v ensures Tier(r, Rank(k, Desc), v) == Tier(s, Rank(k, Desc), v) {
      ReversedAscendingTier(s, k, v);
    }
    StableSortUnique(s, r, Rank(k, Desc));
  }
}
