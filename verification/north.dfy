/**
 * `countCitiesNorthOf(city, citiesInRadius)`: look for the first element of
 * the result that names `city`; when there is one, count the elements after it
 * whose city lies strictly north of `city`, i.e. has a greater first
 * coordinate. When there is none the count is 0.
 *
 * `getCitiesInRadius` never lists the selected city, so on its result the
 * count is always 0. `CountNorthOfCity` is the count the surrounding program
 * evidently wants (every listed city north of the selected one).
 */
module NorthCount {
  import opened CityStore
  import opened Metric
  import opened RadiusQuery

  /** Lines 75-78: the position of the first hit naming `city`, or `|rs|` when there is none. */
  function FindCity(rs: seq<Hit>, city: string): (k: nat)
    ensures k <= |rs|
    ensures forall i :: 0 <= i < k ==> rs[i].name != city
    ensures k < |rs| ==> rs[k].name == city
  {
    if |rs| == 0 || rs[0].name == city then 0 else 1 + FindCity(rs[1..], city)
  }

  lemma FindCityFound(rs: seq<Hit>, city: string)
    ensures FindCity(rs, city) < |rs| <==> city in CityNames(rs)
  {
    var k := FindCity(rs, city);
    if city in CityNames(rs) {
      var i :| 0 <= i < |rs| && CityNames(rs)[i] == city;
      assert i >= k;
    }
    if k < |rs| {
      assert CityNames(rs)[k] == city;
    }
  }

  /** The latitude `m_cityCoords[n].first` reads: 0 for a name the store does not hold. */
  function Latitude(s: Store, n: string): real
  {
    Lookup(s, n).lat
  }

  /** Line 83's test: the hit's city is strictly north of latitude `lat0`. */
  predicate IsNorth(s: Store, lat0: real, h: Hit)
  {
    Latitude(s, h.name) > lat0
  }

  /** The number of hits in `rs` north of latitude `lat0`. */
  function CountNorth(s: Store, lat0: real, rs: seq<Hit>): (c: nat)
    ensures c <= |rs|
  {
    if |rs| == 0 then 0
    else (if IsNorth(s, lat0, rs[0]) then 1 else 0) + CountNorth(s, lat0, rs[1..])
  }

  /** The count is 0 exactly when no hit is north. */
  lemma {:induction false} CountNorthZero(s: Store, lat0: real, rs: seq<Hit>)
    ensures CountNorth(s, lat0, rs) == 0 <==> forall i :: 0 <= i < |rs| ==> !IsNorth(s, lat0, rs[i])
  {
    if |rs| > 0 {
      var tail := rs[1..];
      CountNorthZero(s, lat0, tail);
      assert forall i :: 1 <= i < |rs| ==> tail[i - 1] == rs[i];
    }
  }

  /** The count is the full length exactly when every hit is north. */
  lemma {:induction false} CountNorthAll(s: Store, lat0: real, rs: seq<Hit>)
    ensures CountNorth(s, lat0, rs) == |rs| <==> forall i :: 0 <= i < |rs| ==> IsNorth(s, lat0, rs[i])
  {
    if |rs| > 0 {
      var tail := rs[1..];
      CountNorthAll(s, lat0, tail);
      assert forall i :: 1 <= i < |rs| ==> tail[i - 1] == rs[i];
    }
  }

  /** Counting splits over concatenation. */
  lemma {:induction false} CountNorthAppend(s: Store, lat0: real, a: seq<Hit>, b: seq<Hit>)
    ensures CountNorth(s, lat0, a + b) == CountNorth(s, lat0, a) + CountNorth(s, lat0, b)
  {
    if |a| == 0 {
      assert a + b == b;
    } else {
      assert (a + b)[0] == a[0];
      assert (a + b)[1..] == a[1..] + b;
      CountNorthAppend(s, lat0, a[1..], b);
    }
  }

  /** Counting a split list: the prefix and the suffix add up to the whole. */
  lemma CountNorthSplit(s: Store, lat0: real, rs: seq<Hit>, k: nat)
    requires k <= |rs|
    ensures CountNorth(s, lat0, rs[..k]) + CountNorth(s, lat0, rs[k..]) == CountNorth(s, lat0, rs)
  {
    assert rs == rs[..k] + rs[k..];
    CountNorthAppend(s, lat0, rs[..k], rs[k..]);
  }

  /**
   * `countCitiesNorthOf(city, rs)` with lookups in store `s`: 0 when `city` is
   * not listed; otherwise the number of north hits after its first occurrence.
   */
  function CountCitiesNorthOf(s: Store, city: string, rs: seq<Hit>): (c: nat)
    ensures city !in CityNames(rs) ==> c == 0
    ensures c <= CountNorth(s, Latitude(s, city), rs)
  {
    var k := FindCity(rs, city);
    FindCityFound(rs, city);
    if k == |rs| then 0
    else
      CountNorthSplit(s, Latitude(s, city), rs, k + 1);
      CountNorth(s, Latitude(s, city), rs[k + 1..])
  }

  /**
   * When `city` is listed, the count equals the full north count minus the
   * north hits up to and including its first occurrence.
   */
  lemma CountAfterFirstOccurrence(s: Store, city: string, rs: seq<Hit>)
    requires city in CityNames(rs)
    ensures var k := FindCity(rs, city);
            k < |rs| &&
            CountCitiesNorthOf(s, city, rs) + CountNorth(s, Latitude(s, city), rs[..k + 1]) ==
            CountNorth(s, Latitude(s, city), rs)
  {
    var k := FindCity(rs, city);
    var lat := Latitude(s, city);
    FindCityFound(rs, city);
    assert CountCitiesNorthOf(s, city, rs) == CountNorth(s, lat, rs[k + 1..]);
    CountNorthSplit(s, lat, rs, k + 1);
  }

  /**
   * The composed query of `run`: counting on the result of the radius query
   * (with the store as the query left it) always gives 0, whatever the radius
   * or norm, because the selected city is never listed.
   */
  lemma NorthAfterSearchIsZero(s: Store, city: string, radius: real, norm: Norm)
    requires s.Valid()
    ensures CountCitiesNorthOf(StoreAfterSearch(s, city), city, GetCitiesInRadius(s, city, radius, norm)) == 0
  {
    InResultIff(s, city, radius, norm, city);
  }

  /** The evidently intended count: every listed city north of `city`. */
  function CountNorthOfCity(s: Store, city: string, rs: seq<Hit>): (c: nat)
    ensures c <= |rs|
    ensures c == 0 <==> forall i :: 0 <= i < |rs| ==> Latitude(s, rs[i].name) <= Latitude(s, city)
  {
    CountNorthZero(s, Latitude(s, city), rs);
    CountNorth(s, Latitude(s, city), rs)
  }

  /**
   * On the radius query's result the intended count is positive exactly when
   * some city within the radius lies north of the selected city.
   */
  lemma IntendedCountPositive(s: Store, city: string, radius: real, norm: Norm)
    requires s.Valid()
    ensures CountNorthOfCity(s, city, GetCitiesInRadius(s, city, radius, norm)) > 0 <==>
            exists n :: n in Coords(s) && n != city && WithinRadius(norm, DistanceTo(s, city, norm, n), radius) &&
                        Coords(s)[n].lat > Latitude(s, city)
  {
    var r := GetCitiesInRadius(s, city, radius, norm);
    var lat := Latitude(s, city);
    if CountNorthOfCity(s, city, r) > 0 {
      var i :| 0 <= i < |r| && Latitude(s, r[i].name) > lat;
      NorthWitness(s, city, radius, norm, r[i]);
    }
    if exists n :: n in Coords(s) && n != city && WithinRadius(norm, DistanceTo(s, city, norm, n), radius) &&
                   Coords(s)[n].lat > lat {
      var n :| n in Coords(s) && n != city && WithinRadius(norm, DistanceTo(s, city, norm, n), radius) &&
               Coords(s)[n].lat > lat;
      NorthListed(s, city, radius, norm, n);
    }
  }

  /** A listed hit north of the selected city is a stored city within the radius north of it. */
  lemma NorthWitness(s: Store, city: string, radius: real, norm: Norm, h: Hit)
    requires s.Valid() && h in GetCitiesInRadius(s, city, radius, norm)
    requires Latitude(s, h.name) > Latitude(s, city)
    ensures h.name in Coords(s) && h.name != city && WithinRadius(norm, DistanceTo(s, city, norm, h.name), radius)
    ensures Coords(s)[h.name].lat > Latitude(s, city)
  {
  }

  /** A stored city within the radius north of the selected one makes the intended count positive. */
  lemma NorthListed(s: Store, city: string, radius: real, norm: Norm, n: string)
    requires s.Valid() && n in Coords(s) && n != city
    requires WithinRadius(norm, DistanceTo(s, city, norm, n), radius)
    requires Coords(s)[n].lat > Latitude(s, city)
    ensures CountNorthOfCity(s, city, GetCitiesInRadius(s, city, radius, norm)) > 0
  {
    var r := GetCitiesInRadius(s, city, radius, norm);
    var h := Hit(DistanceTo(s, city, norm, n), n);
    assert h in r;
    var i :| 0 <= i < |r| && r[i] == h;
    assert Latitude(s, r[i].name) > Latitude(s, city);
  }

  /**
   * The discrepancy: whenever a city within the radius lies north of the
   * selected city, the program's count is 0 while the intended count is not.
   */
  lemma AsWrittenMissesNorth(s: Store, city: string, radius: real, norm: Norm, n: string)
    requires s.Valid() && n in Coords(s) && n != city
    requires WithinRadius(norm, DistanceTo(s, city, norm, n), radius)
    requires Coords(s)[n].lat > Latitude(s, city)
    ensures CountCitiesNorthOf(StoreAfterSearch(s, city), city, GetCitiesInRadius(s, city, radius, norm)) == 0
    ensures CountNorthOfCity(s, city, GetCitiesInRadius(s, city, radius, norm)) > 0
  {
    NorthAfterSearchIsZero(s, city, radius, norm);
    IntendedCountPositive(s, city, radius, norm);
  }
}
