/**
 * `FlightService.searchFlights` (src/flight-service.ts): one pass over the
 * in-memory catalog keeps every flight that leaves the requested airport no
 * later than the cutoff and, when a maximum duration is given, is not longer
 * than it; each survivor is scored as
 *
 *     duration * preference + distance
 *
 * (duration in milliseconds, preference 0.9 for the preferred carrier and 1
 * otherwise, distance in meters from the module's own distance stub); the
 * scored list is sorted stably, ascending by score, and its first `limit`
 * entries are returned.
 *
 * `ScoredList` and `Search` are the specification; `FlightService.SearchFlights`
 * is the loop, proved to return `Search` of the catalog.
 */
module FlightService {
  import opened Wrappers
  import opened FlightTypes
  import opened ScoreSort

  /** The search criteria that follow `limit` in `searchFlights`' parameter list. */
  datatype Query = Query(
    departureAirport: string,
    departure: int,
    maxDuration: Option<real>,
    preferredCarrier: Option<string>)

  /** The two fixed points the distance stub measures between, whatever codes it is given. */
  const StubStart := Coord(30.849635, -83.24559)
  const StubEnd := Coord(27.950575, -82.457178)

  /**
   * The distance function `searchFlights` actually calls: the stub declared in the
   * same file, which ignores both airport codes. `haversine` is the library's
   * great-circle distance in meters, taken as a parameter.
   */
  function GetDistanceBetweenAirports(haversine: (Coord, Coord) -> real, code1: string, code2: string): real
  {
    haversine(StubStart, StubEnd)
  }

  /** The stub gives one and the same distance for every pair of codes. */
  lemma StubDistanceIsConstant(haversine: (Coord, Coord) -> real, code1: string, code2: string, code3: string, code4: string)
    ensures GetDistanceBetweenAirports(haversine, code1, code2) == GetDistanceBetweenAirports(haversine, code3, code4)
    ensures GetDistanceBetweenAirports(haversine, code1, code2) == haversine(StubStart, StubEnd)
  {
  }

  /** The three guards of the loop: a flight is scored exactly when it passes all of them. */
  predicate IsCandidate(f: Flight, q: Query)
  {
    && f.origin == q.departureAirport
    && f.departureTime <= q.departure
    && (q.maxDuration.None? || Duration(f) as real <= q.maxDuration.value)
  }

  /** The carrier preference factor: 0.9 for the preferred carrier, 1 for every other flight. */
  function Preference(preferredCarrier: Option<string>, carrier: string): (p: real)
    ensures p == 0.9 <==> preferredCarrier == Some(carrier)
    ensures p == 1.0 <==> preferredCarrier != Some(carrier)
  {
    if preferredCarrier.Some? && carrier == preferredCarrier.value then 0.9 else 1.0
  }

  /** The entry pushed for a flight that passed the guards. */
  function ScoreFlight(f: Flight, q: Query, haversine: (Coord, Coord) -> real): ScoredFlight
  {
    var distance := GetDistanceBetweenAirports(haversine, q.departureAirport, f.destination);
    ScoredFlight(Duration(f) as real * Preference(q.preferredCarrier, f.carrier) + distance, f)
  }

  /** `scoredList` once the loop has run over `flights`. */
  function ScoredList(flights: seq<Flight>, q: Query, haversine: (Coord, Coord) -> real): (scored: seq<ScoredFlight>)
    ensures |scored| <= |flights|
  {
    if flights == [] then []
    else
      var last := flights[|flights| - 1];
      ScoredList(flights[..|flights| - 1], q, haversine)
        + (if IsCandidate(last, q) then [ScoreFlight(last, q, haversine)] else [])
  }

  /** The catalog positions of the flights that pass the guards, in catalog order. */
  function CandidateIndices(flights: seq<Flight>, q: Query): seq<nat>
  {
    if flights == [] then []
    else
      CandidateIndices(flights[..|flights| - 1], q)
        + (if IsCandidate(flights[|flights| - 1], q) then [|flights| - 1] else [])
  }

  /** What `searchFlights` returns: `scoredList`, stably sorted by score, then `slice(0, limit)`. */
  function Search(flights: seq<Flight>, limit: nat, q: Query, haversine: (Coord, Coord) -> real): (r: seq<ScoredFlight>)
    ensures |r| <= limit && |r| <= |flights|
  {
    var sorted := StableSort(ScoredList(flights, q, haversine));
    if limit <= |sorted| then sorted[..limit] else sorted
  }

  /**
   * The scored list is the catalog's candidates, one entry each, in catalog order:
   * entry `k` scores the flight at the `k`-th candidate position, the positions
   * strictly increase, and every candidate position is among them.
   */
  lemma {:induction false} ScoredListFollowsCatalog(flights: seq<Flight>, q: Query, haversine: (Coord, Coord) -> real)
    ensures |CandidateIndices(flights, q)| == |ScoredList(flights, q, haversine)|
    ensures forall k :: 0 <= k < |CandidateIndices(flights, q)| ==>
      var i := CandidateIndices(flights, q)[k];
      i < |flights| && IsCandidate(flights[i], q) && ScoredList(flights, q, haversine)[k] == ScoreFlight(flights[i], q, haversine)
    ensures forall k, k' :: 0 <= k < k' < |CandidateIndices(flights, q)| ==>
      CandidateIndices(flights, q)[k] < CandidateIndices(flights, q)[k']
    ensures forall i :: 0 <= i < |flights| && IsCandidate(flights[i], q) ==> i in CandidateIndices(flights, q)
  {
    if flights != [] {
      var n := |flights| - 1;
      var init := flights[..n];
      ScoredListFollowsCatalog(init, q, haversine);
      assert forall i :: 0 <= i < n ==> flights[i] == init[i];
      var idx, scored := CandidateIndices(flights, q), ScoredList(flights, q, haversine);
      var idx0, scored0 := CandidateIndices(init, q), ScoredList(init, q, haversine);
      assert forall k :: 0 <= k < |idx0| ==> idx[k] == idx0[k] && scored[k] == scored0[k];
      forall i | 0 <= i < |flights| && IsCandidate(flights[i], q) ensures i in idx {
        if i < n {
          assert i in idx0 && IsCandidate(init[i], q);
        }
      }
    }
  }

  /**
   * A catalog flight gets an entry exactly when it leaves the requested airport,
   * departs no later than the cutoff (a departure AT the cutoff is kept), and, if a
   * maximum duration is given, lasts no longer than it. Nothing else is checked:
   * the carrier never excludes a flight and a negative duration is not rejected.
   * The entry carries the flight and the score duration * preference + distance.
   */
  lemma ScoredListMembers(flights: seq<Flight>, q: Query, haversine: (Coord, Coord) -> real, sf: ScoredFlight)
    ensures sf in ScoredList(flights, q, haversine) <==>
      exists i :: 0 <= i < |flights| && KeptAs(flights[i], q, haversine, sf)
  {
    if sf in ScoredList(flights, q, haversine) {
      var i := ScoredFrom(flights, q, haversine, sf);
      assert KeptAs(flights[i], q, haversine, sf);
    }
    if exists i :: 0 <= i < |flights| && KeptAs(flights[i], q, haversine, sf) {
      var i :| 0 <= i < |flights| && KeptAs(flights[i], q, haversine, sf);
      CandidateScored(flights, q, haversine, i);
    }
  }

  /**
   * The guards and the score written out: `f` leaves the requested airport, departs
   * no later than the cutoff, lasts no longer than the maximum when one is given,
   * and `sf` pairs it with duration * preference + distance.
   */
  ghost predicate KeptAs(f: Flight, q: Query, haversine: (Coord, Coord) -> real, sf: ScoredFlight)
  {
    && f.origin == q.departureAirport
    && f.departureTime <= q.departure
    && (q.maxDuration.Some? ==> (f.arrivalTime - f.departureTime) as real <= q.maxDuration.value)
    && sf.flight == f
    && sf.score == (f.arrivalTime - f.departureTime) as real * Preference(q.preferredCarrier, f.carrier)
                   + GetDistanceBetweenAirports(haversine, q.departureAirport, f.destination)
  }

  /** Each entry of the scored list comes from a candidate of the catalog. */
  lemma ScoredFrom(flights: seq<Flight>, q: Query, haversine: (Coord, Coord) -> real, sf: ScoredFlight) returns (i: nat)
    requires sf in ScoredList(flights, q, haversine)
    ensures i < |flights| && IsCandidate(flights[i], q) && sf == ScoreFlight(flights[i], q, haversine)
  {
    ScoredListFollowsCatalog(flights, q, haversine);
    var scored := ScoredList(flights, q, haversine);
    var k :| 0 <= k < |scored| && scored[k] == sf;
    i := CandidateIndices(flights, q)[k];
  }

  /** Each candidate of the catalog has its entry in the scored list. */
  lemma CandidateScored(flights: seq<Flight>, q: Query, haversine: (Coord, Coord) -> real, i: nat)
    requires i < |flights| && IsCandidate(flights[i], q)
    ensures ScoreFlight(flights[i], q, haversine) in ScoredList(flights, q, haversine)
  {
    ScoredListFollowsCatalog(flights, q, haversine);
    var idx := CandidateIndices(flights, q);
    var k :| 0 <= k < |idx| && idx[k] == i;
    assert ScoredList(flights, q, haversine)[k] == ScoreFlight(flights[i], q, haversine);
  }

  /** With the stub, every entry's score is its weighted duration plus one common distance. */
  lemma {:induction false} ScoredListSameDistance(flights: seq<Flight>, q: Query, haversine: (Coord, Coord) -> real)
    ensures forall k :: 0 <= k < |ScoredList(flights, q, haversine)| ==>
      var sf := ScoredList(flights, q, haversine)[k];
      sf.score == Duration(sf.flight) as real * Preference(q.preferredCarrier, sf.flight.carrier) + haversine(StubStart, StubEnd)
  {
    if flights != [] {
      ScoredListSameDistance(flights[..|flights| - 1], q, haversine);
    }
  }

  /** The preferred carrier changes scores only: the same flights get entries, in the same order. */
  lemma {:induction false} CarrierNeverExcludes(flights: seq<Flight>, q: Query, preferredCarrier: Option<string>, haversine: (Coord, Coord) -> real)
    ensures |ScoredList(flights, q.(preferredCarrier := preferredCarrier), haversine)| == |ScoredList(flights, q, haversine)|
    ensures forall k :: 0 <= k < |ScoredList(flights, q, haversine)| ==>
      ScoredList(flights, q.(preferredCarrier := preferredCarrier), haversine)[k].flight == ScoredList(flights, q, haversine)[k].flight
  {
    if flights != [] {
      CarrierNeverExcludes(flights[..|flights| - 1], q, preferredCarrier, haversine);
    }
  }

  /** The result has `min(limit, number of candidates)` entries; `limit` 0 gives none, and nothing caps it. */
  lemma SearchLength(flights: seq<Flight>, limit: nat, q: Query, haversine: (Coord, Coord) -> real)
    ensures |Search(flights, limit, q, haversine)| ==
      if limit <= |CandidateIndices(flights, q)| then limit else |CandidateIndices(flights, q)|
  {
    ScoredListFollowsCatalog(flights, q, haversine);
  }

  /** The result is a prefix of the stably sorted scored list, hence ascending by score. */
  lemma SearchIsSortedPrefix(flights: seq<Flight>, limit: nat, q: Query, haversine: (Coord, Coord) -> real)
    ensures Search(flights, limit, q, haversine) ==
      StableSort(ScoredList(flights, q, haversine))[..|Search(flights, limit, q, haversine)|]
    ensures Sorted(Search(flights, limit, q, haversine))
  {
    var sorted := StableSort(ScoredList(flights, q, haversine));
    StableSortSorted(ScoredList(flights, q, haversine));
    assert sorted[..|sorted|] == sorted;
  }

  /** Every returned entry is an entry of the scored list, so it passed all three guards. */
  lemma SearchOnlyCandidates(flights: seq<Flight>, limit: nat, q: Query, haversine: (Coord, Coord) -> real)
    ensures forall sf :: sf in Search(flights, limit, q, haversine) ==>
      && sf in ScoredList(flights, q, haversine)
      && sf.flight in flights
      && sf.flight.origin == q.departureAirport
      && sf.flight.departureTime <= q.departure
      && (q.maxDuration.Some? ==> Duration(sf.flight) as real <= q.maxDuration.value)
  {
    var scored := ScoredList(flights, q, haversine);
    var sorted := StableSort(scored);
    StableSortPermutation(scored);
    ScoredListFollowsCatalog(flights, q, haversine);
    forall sf | sf in Search(flights, limit, q, haversine)
      ensures sf in scored && sf.flight in flights && IsCandidate(sf.flight, q)
    {
      assert sf in sorted;
      assert sf in multiset(sorted);
      var k :| 0 <= k < |scored| && scored[k] == sf;
      var i := CandidateIndices(flights, q)[k];
      assert sf.flight == flights[i];
    }
  }

  /**
   * A candidate left out of the result scores no better than anything returned:
   * by position, every entry of the sorted list past the cut (a second copy of a
   * returned flight included), and by value, every scored entry not returned.
   */
  lemma SearchLeftOutScoreNoBetter(flights: seq<Flight>, limit: nat, q: Query, haversine: (Coord, Coord) -> real)
    ensures forall j, k ::
      |Search(flights, limit, q, haversine)| <= j < |StableSort(ScoredList(flights, q, haversine))| && 0 <= k < |Search(flights, limit, q, haversine)|
      ==> Search(flights, limit, q, haversine)[k].score <= StableSort(ScoredList(flights, q, haversine))[j].score
    ensures forall sf, k ::
      sf in ScoredList(flights, q, haversine) && sf !in Search(flights, limit, q, haversine) && 0 <= k < |Search(flights, limit, q, haversine)|
      ==> Search(flights, limit, q, haversine)[k].score <= sf.score
  {
    var scored := ScoredList(flights, q, haversine);
    var sorted := StableSort(scored);
    var r := Search(flights, limit, q, haversine);
    StableSortPermutation(scored);
    StableSortSorted(scored);
    SearchIsSortedPrefix(flights, limit, q, haversine);
    forall sf, k | sf in scored && sf !in r && 0 <= k < |r| ensures r[k].score <= sf.score {
      assert sf in multiset(sorted);
      var j :| 0 <= j < |sorted| && sorted[j] == sf;
      assert forall j' :: 0 <= j' < |r| ==> r[j'] == sorted[j'];
      assert |r| <= j;
      assert r[k] == sorted[k];
    }
  }

  /**
   * Equal scores are never merged: each tie group of the sorted list is exactly the
   * candidates with that score, one entry each, in the order of the scored list
   * (which is catalog order, by `ScoredListFollowsCatalog`).
   */
  lemma SearchKeepsTies(flights: seq<Flight>, q: Query, haversine: (Coord, Coord) -> real)
    ensures SameTies(StableSort(ScoredList(flights, q, haversine)), ScoredList(flights, q, haversine))
  {
    StableSortTies(ScoredList(flights, q, haversine));
  }

  /** When `limit` covers every candidate, the result holds each entry of the scored list, as often. */
  lemma SearchKeepsAllWhenLimitCovers(flights: seq<Flight>, limit: nat, q: Query, haversine: (Coord, Coord) -> real)
    requires limit >= |ScoredList(flights, q, haversine)|
    ensures multiset(Search(flights, limit, q, haversine)) == multiset(ScoredList(flights, q, haversine))
  {
    var sorted := StableSort(ScoredList(flights, q, haversine));
    StableSortPermutation(ScoredList(flights, q, haversine));
    assert sorted[..|sorted|] == sorted;
    assert Search(flights, limit, q, haversine) == sorted;
  }

  /** The flight catalog the service searches (`_flights`). */
  class FlightService {
    var flights: seq<Flight>

    /** A service holding an already loaded catalog. */
    constructor (flights: seq<Flight>)
      ensures this.flights == flights
    {
      this.flights := flights;
    }

    /**
     * `searchFlights(limit, departureAirport, departure, maxDuration, preferredCarrier)`.
     * It reads the catalog and changes nothing: the list it sorts is its own.
     */
    method SearchFlights(
      limit: nat,
      departureAirport: string,
      departure: int,
      maxDuration: Option<real>,
      preferredCarrier: Option<string>,
      haversine: (Coord, Coord) -> real)
      returns (result: seq<ScoredFlight>)
      ensures result == Search(flights, limit, Query(departureAirport, departure, maxDuration, preferredCarrier), haversine)
      ensures Sorted(result)
      ensures |result| <= limit
      ensures forall sf :: sf in result ==>
        && sf.flight in flights
        && sf.flight.origin == departureAirport
        && sf.flight.departureTime <= departure
        && (maxDuration.Some? ==> Duration(sf.flight) as real <= maxDuration.value)
    {
      var q := Query(departureAirport, departure, maxDuration, preferredCarrier);
      var scoredList: seq<ScoredFlight> := [];
      for i := 0 to |flights|
        invariant scoredList == ScoredList(flights[..i], q, haversine)
      {
        assert flights[..i + 1][..i] == flights[..i];
        var x := flights[i];
        assert ScoredList(flights[..i + 1], q, haversine)
          == scoredList + if IsCandidate(x, q) then [ScoreFlight(x, q, haversine)] else [];
        if x.origin != departureAirport {
          continue;
        }
        if x.departureTime > departure {
          continue;
        }
        var duration := x.arrivalTime - x.departureTime;
        if maxDuration.Some? && duration as real > maxDuration.value {
          continue;
        }
        var preference := 1.0;
        if preferredCarrier.Some? && x.carrier == preferredCarrier.value {
          preference := 0.9;
        }
        var distance := GetDistanceBetweenAirports(haversine, departureAirport, x.destination);
        var score := duration as real * preference + distance;
        assert IsCandidate(x, q) && ScoredFlight(score, x) == ScoreFlight(x, q, haversine);
        scoredList := scoredList + [ScoredFlight(score, x)];
      }
      assert flights[..|flights|] == flights;
      var a := new ScoredFlight[|scoredList|](k requires 0 <= k < |scoredList| => scoredList[k]);
      assert a[..] == scoredList;
      SortByScore(a);
      var n := if limit < a.Length then limit else a.Length;
      result := a[..n];
      SearchIsSortedPrefix(flights, limit, q, haversine);
      SearchOnlyCandidates(flights, limit, q, haversine);
    }
  }
}
