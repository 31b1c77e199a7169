/**
 * The airport suggestions of the flight-selection engine: the airports of the
 * loaded flights, each once in the order it first appears, that contain the
 * search query when both are lower-cased; nothing for a query shorter than
 * `MINIMUM_SEARCH_LENGTH` (`src/context/FlightContext.tsx`, the effect on
 * `searchAirport` and `flights`).
 */
module AirportSearch {
  import opened Flights

  /** `String.prototype.toLowerCase` on one character, for the ASCII letters. */
  function LowerChar(c: char): char {
    if 'A' <= c <= 'Z' then (c as int + ('a' as int - 'A' as int)) as char else c
  }

  function ToLower(s: string): (r: string)
    ensures |r| == |s|
  {
    seq(|s|, i requires 0 <= i < |s| => LowerChar(s[i]))
  }

  predicate OccursAt(hay: string, needle: string, i: int) {
    0 <= i <= |hay| - |needle| && hay[i..i + |needle|] == needle
  }

  /** `String.prototype.includes`: `needle` occurs in `hay` at some position. */
  predicate Includes(hay: string, needle: string) {
    exists i | 0 <= i <= |hay| - |needle| :: OccursAt(hay, needle, i)
  }

  /** The airport is offered for the query. */
  predicate Matches(airport: string, query: string) {
    Includes(ToLower(airport), ToLower(query))
  }

  /** `flights.map((f) => f.airport)`. */
  function Airports(flights: seq<Flight>): (r: seq<string>)
    ensures |r| == |flights|
    ensures forall i :: 0 <= i < |flights| ==> r[i] == flights[i].airport
  {
    seq(|flights|, i requires 0 <= i < |flights| => flights[i].airport)
  }

  /**
   * `Array.from(new Set(s))`: a `Set` adds the elements one by one and ignores
   * one already present, so each value is kept once, where it first occurs.
   * Equality is exact: values differing only in case are distinct.
   */
  function Distinct(s: seq<string>): (r: seq<string>)
    ensures |r| <= |s|
  {
    if s == [] then []
    else
      var d := Distinct(s[..|s| - 1]);
      if s[|s| - 1] in d then d else d + [s[|s| - 1]]
  }

  /** Position of the first occurrence of `x` in `s`, or `|s|` if it does not occur. */
  function IndexOf(s: seq<string>, x: string): (i: nat)
    ensures i <= |s|
    ensures i < |s| <==> x in s
    ensures i < |s| ==> s[i] == x && x !in s[..i]
  {
    if s == [] then 0
    else if s[0] == x then 0
    else
      var j := IndexOf(s[1..], x);
      assert s[..j + 1] == [s[0]] + s[1..][..j];
      j + 1
  }

  /** `uniqueAirports.filter(...)`: the airports that match the query, in order. */
  function KeepMatching(airports: seq<string>, query: string): (r: seq<string>)
    ensures forall a :: a in r <==> a in airports && Matches(a, query)
  {
    if airports == [] then []
    else if Matches(airports[0], query) then [airports[0]] + KeepMatching(airports[1..], query)
    else KeepMatching(airports[1..], query)
  }

  /** The suggestions for `searchAirport` over `flights`. */
  function FilteredAirports(searchAirport: string, flights: seq<Flight>): (r: seq<string>)
    ensures |searchAirport| < MINIMUM_SEARCH_LENGTH ==> r == []
    ensures forall a :: a in r ==> Matches(a, searchAirport)
  {
    if |searchAirport| >= MINIMUM_SEARCH_LENGTH then
      KeepMatching(Distinct(Airports(flights)), searchAirport)
    else []
  }

  /** Every element of `r` occurs in `s`, and in `r` they come in order of first occurrence in `s`. */
  predicate InFirstOccurrenceOrder(r: seq<string>, s: seq<string>) {
    forall i, j :: 0 <= i < j < |r| ==> IndexOf(s, r[i]) < IndexOf(s, r[j]) < |s|
  }

  lemma {:induction false} IndexOfExtend(p: seq<string>, e: string, x: string)
    requires x in p
    ensures IndexOf(p + [e], x) == IndexOf(p, x)
  {
    if p[0] != x {
      assert (p + [e])[1..] == p[1..] + [e];
      IndexOfExtend(p[1..], e, x);
    }
  }

  lemma {:induction false} IndexOfAppended(p: seq<string>, e: string)
    requires e !in p
    ensures IndexOf(p + [e], e) == |p|
  {
    if p != [] {
      assert (p + [e])[1..] == p[1..] + [e];
      IndexOfAppended(p[1..], e);
    }
  }

  /** `Distinct` keeps exactly the values of `s`. */
  lemma {:induction false} DistinctMembers(s: seq<string>)
    ensures forall x :: x in Distinct(s) <==> x in s
  {
    if s != [] {
      assert s == s[..|s| - 1] + [s[|s| - 1]];
      DistinctMembers(s[..|s| - 1]);
    }
  }

  /** `Distinct` lists the values of `s` in order of first occurrence (so each once). */
  lemma {:induction false} DistinctOrdered(s: seq<string>)
    ensures InFirstOccurrenceOrder(Distinct(s), s)
  {
    if s != [] {
      var p, e := s[..|s| - 1], s[|s| - 1];
      assert s == p + [e];
      DistinctOrdered(p);
      DistinctOrderedStep(p, e);
    }
  }

  lemma DistinctOrderedStep(p: seq<string>, e: string)
    requires InFirstOccurrenceOrder(Distinct(p), p)
    ensures InFirstOccurrenceOrder(Distinct(p + [e]), p + [e])
  {
    var s := p + [e];
    assert s[..|s| - 1] == p && s[|s| - 1] == e;
    DistinctMembers(p);
    var d := Distinct(p);
    assert Distinct(s) == if e in d then d else d + [e];
    forall x | x in p ensures IndexOf(s, x) == IndexOf(p, x) < |p| {
      IndexOfExtend(p, e, x);
    }
    if e !in d {
      IndexOfAppended(p, e);
      var r := d + [e];
      forall i, j | 0 <= i < j < |r| ensures IndexOf(s, r[i]) < IndexOf(s, r[j]) < |s| {
        assert r[i] == d[i] && d[i] in d;
        if j < |d| {
          assert r[j] == d[j] && d[j] in d;
        }
      }
    }
  }

  /** Keeping some elements of a sequence keeps the order of the rest. */
  lemma {:induction false} KeepMatchingOrdered(d: seq<string>, s: seq<string>, query: string)
    requires InFirstOccurrenceOrder(d, s)
    ensures InFirstOccurrenceOrder(KeepMatching(d, query), s)
  {
    if d != [] {
      assert InFirstOccurrenceOrder(d[1..], s) by {
        forall i, j | 0 <= i < j < |d[1..]| ensures IndexOf(s, d[1..][i]) < IndexOf(s, d[1..][j]) < |s| {
          assert d[1..][i] == d[i + 1] && d[1..][j] == d[j + 1];
        }
      }
      KeepMatchingOrdered(d[1..], s, query);
      var t := KeepMatching(d[1..], query);
      if Matches(d[0], query) {
        var r := [d[0]] + t;
        forall i, j | 0 <= i < j < |r| ensures IndexOf(s, r[i]) < IndexOf(s, r[j]) < |s| {
          if i == 0 {
            assert r[j] in d[1..];
            var k :| 0 <= k < |d[1..]| && d[1..][k] == r[j];
            assert d[k + 1] == r[j];
          } else {
            assert r[i] == t[i - 1] && r[j] == t[j - 1];
          }
        }
      }
    }
  }

  /** An order by strictly increasing first positions repeats no value. */
  lemma FirstOccurrenceOrderDistinct(r: seq<string>, s: seq<string>)
    requires InFirstOccurrenceOrder(r, s)
    ensures forall i, j :: 0 <= i < j < |r| ==> r[i] != r[j]
  {
  }

  /**
   * The suggestions: none for a short query; otherwise exactly the airports of
   * the loaded flights that contain the query (both lower-cased), each once, in
   * the order in which they first appear among the flights.
   */
  lemma FilteredAirportsCorrect(searchAirport: string, flights: seq<Flight>)
    ensures |searchAirport| < MINIMUM_SEARCH_LENGTH ==> FilteredAirports(searchAirport, flights) == []
    ensures |searchAirport| >= MINIMUM_SEARCH_LENGTH ==>
      var r := FilteredAirports(searchAirport, flights);
      && (forall a :: a in r <==> (exists f :: f in flights && f.airport == a) && Matches(a, searchAirport))
      && (forall i, j :: 0 <= i < j < |r| ==> r[i] != r[j])
      && InFirstOccurrenceOrder(r, Airports(flights))
  {
    if |searchAirport| >= MINIMUM_SEARCH_LENGTH {
      var airports := Airports(flights);
      var r := FilteredAirports(searchAirport, flights);
      DistinctMembers(airports);
      DistinctOrdered(airports);
      KeepMatchingOrdered(Distinct(airports), airports, searchAirport);
      FirstOccurrenceOrderDistinct(r, airports);
      forall a ensures a in airports <==> exists f :: f in flights && f.airport == a {
        if a in airports {
          var i :| 0 <= i < |airports| && airports[i] == a;
          assert flights[i] in flights;
        }
      }
    }
  }
}
