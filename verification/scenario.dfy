/**
 * A worked example on four cities: A at (0, 0), B at (1, 0), C at (0, 2) and
 * D at (5, 5). The Euclidean query around A with radius 2 lists B (squared
 * distance 1) and then C (squared distance 4); D (squared distance 50) is out.
 * B lies north of A, yet the program's north count is 0.
 */
module Scenario {
  import Lex
  import opened CityStore
  import opened Metric
  import opened RadiusQuery
  import opened NorthCount

  function FourCities(): Store
  {
    Store([Entry("A", Coordinates(0.0, 0.0)), Entry("B", Coordinates(1.0, 0.0)),
           Entry("C", Coordinates(0.0, 2.0)), Entry("D", Coordinates(5.0, 5.0))])
  }

  lemma SingleLess(a: char, b: char)
    requires a < b
    ensures Lex.Less([a], [b])
  {
  }

  lemma FourCitiesValid()
    ensures FourCities().Valid()
  {
    var es := FourCities().entries;
    forall i, j | 0 <= i < j < |es|
      ensures Lex.Less(es[i].name, es[j].name)
    {
      assert es[i].name == ["ABCD"[i]] && es[j].name == ["ABCD"[j]];
      SingleLess("ABCD"[i], "ABCD"[j]);
    }
  }

  /** What the example relies on: the four cities at their coordinates, and no other. */
  ghost predicate FourCityStore(s: Store)
  {
    && s.Valid()
    && "A" in Coords(s) && Coords(s)["A"] == Coordinates(0.0, 0.0)
    && "B" in Coords(s) && Coords(s)["B"] == Coordinates(1.0, 0.0)
    && "C" in Coords(s) && Coords(s)["C"] == Coordinates(0.0, 2.0)
    && "D" in Coords(s) && Coords(s)["D"] == Coordinates(5.0, 5.0)
    && forall n :: n in Coords(s) ==> n == "A" || n == "B" || n == "C" || n == "D"
  }

  lemma FourCitiesNames(n: string)
    requires n in Coords(FourCities())
    ensures n == "A" || n == "B" || n == "C" || n == "D"
  {
    var es := FourCities().entries;
    var i :| 0 <= i < |es| && Names(es)[i] == n;
  }

  lemma FourCitiesShape()
    ensures FourCityStore(FourCities())
  {
    FourCitiesValid();
    var es := FourCities().entries;
    ToMapAt(es, 0);
    ToMapAt(es, 1);
    ToMapAt(es, 2);
    ToMapAt(es, 3);
    assert Names(es)[0] == "A" && Names(es)[1] == "B" && Names(es)[2] == "C" && Names(es)[3] == "D";
    forall n | n in Coords(FourCities())
      ensures n == "A" || n == "B" || n == "C" || n == "D"
    {
      FourCitiesNames(n);
    }
  }

  /** Squared Euclidean distances from A. */
  lemma DistancesFromA(s: Store)
    requires FourCityStore(s)
    ensures Lookup(s, "A") == Coordinates(0.0, 0.0)
    ensures DistanceTo(s, "A", Euclidean, "B") == 1.0
    ensures DistanceTo(s, "A", Euclidean, "C") == 4.0
    ensures DistanceTo(s, "A", Euclidean, "D") == 50.0
  {
    FromOrigin(Lookup(s, "A"), Coords(s)["B"], 1.0, 0.0);
    FromOrigin(Lookup(s, "A"), Coords(s)["C"], 0.0, 2.0);
    FromOrigin(Lookup(s, "A"), Coords(s)["D"], 5.0, 5.0);
  }

  /** The squared Euclidean distance from the origin to (x, y). */
  lemma FromOrigin(a: Coordinates, b: Coordinates, x: real, y: real)
    requires a == Coordinates(0.0, 0.0) && b == Coordinates(x, y)
    ensures ComputeDistance(Euclidean, a, b) == x * x + y * y
  {
  }

  /** Every city within radius 2 of A, other than A, is B or C. */
  lemma WithinTwoOfA(s: Store)
    requires FourCityStore(s)
    ensures forall n :: n in Coords(s) && n != "A" && WithinRadius(Euclidean, DistanceTo(s, "A", Euclidean, n), 2.0) ==>
                          Hit(DistanceTo(s, "A", Euclidean, n), n) in [Hit(1.0, "B"), Hit(4.0, "C")]
  {
    DistancesFromA(s);
  }

  /** The Euclidean query around A with radius 2 gives B, then C. */
  lemma SearchAroundA(s: Store)
    requires FourCityStore(s)
    ensures GetCitiesInRadius(s, "A", 2.0, Euclidean) == [Hit(1.0, "B"), Hit(4.0, "C")]
  {
    DistancesFromA(s);
    WithinTwoOfA(s);
    var rs := [Hit(1.0, "B"), Hit(4.0, "C")];
    assert Ordered(rs);
    assert Reported(s, "A", 2.0, Euclidean, rs[0]) && Reported(s, "A", 2.0, Euclidean, rs[1]);
    ResultDetermined(s, "A", 2.0, Euclidean, rs);
  }

  lemma CountPair(s: Store, lat0: real, a: Hit, b: Hit)
    ensures CountNorth(s, lat0, [a, b]) ==
            (if IsNorth(s, lat0, a) then 1 else 0) + (if IsNorth(s, lat0, b) then 1 else 0)
  {
    assert [a, b][1..] == [b];
    assert [b][1..] == [];
  }

  /** The program's count for this query: 0. */
  lemma NorthOfAAsWritten(s: Store)
    requires FourCityStore(s)
    ensures CountCitiesNorthOf(StoreAfterSearch(s, "A"), "A", GetCitiesInRadius(s, "A", 2.0, Euclidean)) == 0
  {
    NorthAfterSearchIsZero(s, "A", 2.0, Euclidean);
  }

  /** The intended count for this query: 1, for B. */
  lemma NorthOfAIntended(s: Store)
    requires FourCityStore(s)
    ensures CountNorthOfCity(s, "A", GetCitiesInRadius(s, "A", 2.0, Euclidean)) == 1
  {
    SearchAroundA(s);
    CountPair(s, Latitude(s, "A"), Hit(1.0, "B"), Hit(4.0, "C"));
    assert Latitude(s, "A") == 0.0 && Latitude(s, "B") == 1.0 && Latitude(s, "C") == 0.0;
  }
}
