/**
 * `getCitiesInRadius`: walk the store in name order, skip the selected city,
 * measure every other city from the selected city's coordinates and `emplace`
 * those within the radius into a `SortedCityMap`, a
 * `std::multimap<double, std::string>` keyed by distance.
 *
 * The multimap is modelled as the sequence its iteration yields. `emplace`
 * puts a new element after every element with an equal key, and the store is
 * walked in ascending name order, so the result is ordered by distance and,
 * among equal distances, by name.
 */
module RadiusQuery {
  import Lex
  import opened CityStore
  import opened Metric

  /** One element of a `SortedCityMap`: the distance key and the city name. */
  datatype Hit = Hit(distance: real, name: string)

  /** The order in which the result lists its hits. */
  predicate HitLess(a: Hit, b: Hit)
  {
    a.distance < b.distance || (a.distance == b.distance && Lex.Less(a.name, b.name))
  }

  ghost predicate Ordered(rs: seq<Hit>)
  {
    forall i, j :: 0 <= i < j < |rs| ==> HitLess(rs[i], rs[j])
  }

  lemma HitLessIrreflexive(a: Hit)
    ensures !HitLess(a, a)
  {
    Lex.Irreflexive(a.name);
  }

  lemma HitLessAsymmetric(a: Hit, b: Hit)
    ensures HitLess(a, b) ==> !HitLess(b, a)
  {
    Lex.Asymmetric(a.name, b.name);
  }

  /** `upper_bound(d)`: the first position whose key exceeds `d`. */
  function UpperBound(rs: seq<Hit>, d: real): (k: nat)
    ensures k <= |rs|
    ensures forall i :: 0 <= i < k ==> rs[i].distance <= d
    ensures k < |rs| ==> rs[k].distance > d
  {
    if |rs| == 0 || rs[0].distance > d then 0 else 1 + UpperBound(rs[1..], d)
  }

  /** `emplace(h.distance, h.name)`: the new element goes after every element whose key is not greater. */
  function Emplace(rs: seq<Hit>, h: Hit): (r: seq<Hit>)
    ensures multiset(r) == multiset(rs) + multiset{h}
  {
    var k := UpperBound(rs, h.distance);
    assert rs == rs[..k] + rs[k..];
    rs[..k] + [h] + rs[k..]
  }

  /** Every name in `rs` precedes `x`. */
  ghost predicate NamesBelow(rs: seq<Hit>, x: string)
  {
    forall i :: 0 <= i < |rs| ==> Lex.Less(rs[i].name, x)
  }

  /** In an ordered result, the elements from the upper bound on all have a greater key. */
  lemma AboveUpperBound(rs: seq<Hit>, d: real, j: nat)
    requires Ordered(rs) && UpperBound(rs, d) <= j < |rs|
    ensures rs[j].distance > d
  {
    var k := UpperBound(rs, d);
    if k < j {
      assert HitLess(rs[k], rs[j]);
    }
  }

  /** Emplacing a city whose name follows every name present keeps the result ordered. */
  lemma EmplaceOrdered(rs: seq<Hit>, h: Hit)
    requires Ordered(rs) && NamesBelow(rs, h.name)
    ensures Ordered(Emplace(rs, h))
  {
    var k := UpperBound(rs, h.distance);
    var r := Emplace(rs, h);
    assert |r| == |rs| + 1;
    assert forall i :: 0 <= i < k ==> r[i] == rs[i];
    assert r[k] == h;
    assert forall i :: k < i < |r| ==> r[i] == rs[i - 1];
    forall i, j | 0 <= i < j < |r|
      ensures HitLess(r[i], r[j])
    {
      if i == k {
        AboveUpperBound(rs, h.distance, j - 1);
      } else if j == k {
        assert rs[i].distance <= h.distance;
      } else if i < k < j {
        assert HitLess(rs[i], rs[j - 1]);
      } else if j < k {
        assert HitLess(rs[i], rs[j]);
      } else {
        assert HitLess(rs[i - 1], rs[j - 1]);
      }
    }
  }

  /** The parameters of one radius query: the selected city, the point measured from, the radius, the norm. */
  datatype Query = Query(city: string, origin: Coordinates, radius: real, norm: Norm)

  /** The element line 62 emplaces for entry `e`. */
  function HitOf(q: Query, e: Entry): Hit
  {
    Hit(ComputeDistance(q.norm, q.origin, e.coords), e.name)
  }

  /** Lines 55-61: `e` is not the selected city and its distance is within the radius. */
  predicate Selected(q: Query, e: Entry)
  {
    e.name != q.city && WithinRadius(q.norm, HitOf(q, e).distance, q.radius)
  }

  /** Reference list: the hits of the selected entries, in the order the entries come. */
  function Candidates(q: Query, es: seq<Entry>): seq<Hit>
  {
    if |es| == 0 then []
    else
      var c := Candidates(q, es[..|es| - 1]);
      if Selected(q, es[|es| - 1]) then c + [HitOf(q, es[|es| - 1])] else c
  }

  /** Everything listed comes from a selected entry. */
  lemma {:induction false} CandidatesSound(q: Query, es: seq<Entry>, h: Hit)
    requires h in Candidates(q, es)
    ensures exists i :: 0 <= i < |es| && Selected(q, es[i]) && h == HitOf(q, es[i])
  {
    var init := es[..|es| - 1];
    if h in Candidates(q, init) {
      CandidatesSound(q, init, h);
      var i :| 0 <= i < |init| && Selected(q, init[i]) && h == HitOf(q, init[i]);
      assert init[i] == es[i];
    }
  }

  /** Every selected entry is listed. */
  lemma {:induction false} CandidatesComplete(q: Query, es: seq<Entry>, i: nat)
    requires i < |es| && Selected(q, es[i])
    ensures HitOf(q, es[i]) in Candidates(q, es)
  {
    var init := es[..|es| - 1];
    if i < |es| - 1 {
      assert es[i] == init[i];
      CandidatesComplete(q, init, i);
    }
  }

  /** The hits gathered before the last entry all carry smaller names. */
  lemma PrecedeLast(q: Query, es: seq<Entry>, r0: seq<Hit>)
    requires Ascending(es) && |es| > 0
    requires multiset(r0) == multiset(Candidates(q, es[..|es| - 1]))
    ensures NamesBelow(r0, es[|es| - 1].name)
  {
    var init := es[..|es| - 1];
    AscendingInit(es);
    forall k | 0 <= k < |r0|
      ensures Lex.Less(r0[k].name, es[|es| - 1].name)
    {
      assert r0[k] in multiset(Candidates(q, init));
      CandidatesSound(q, init, r0[k]);
      var i :| 0 <= i < |init| && Selected(q, init[i]) && r0[k] == HitOf(q, init[i]);
      assert init[i] == es[i];
    }
  }

  /**
   * The loop of lines 51-64 over the entries `es`: the result is ordered and
   * holds exactly the hits of the selected entries.
   */
  function Scan(q: Query, es: seq<Entry>): (r: seq<Hit>)
    requires Ascending(es)
    ensures Ordered(r)
    ensures multiset(r) == multiset(Candidates(q, es))
  {
    if |es| == 0 then []
    else
      var e := es[|es| - 1];
      AscendingInit(es);
      var r0 := Scan(q, es[..|es| - 1]);
      if Selected(q, e) then
        PrecedeLast(q, es, r0);
        EmplaceOrdered(r0, HitOf(q, e));
        Emplace(r0, HitOf(q, e))
      else r0
  }

  /** The query `getCitiesInRadius(city, radius, norm)` runs on store `s`: distances are measured from `m_cityCoords[city]`. */
  function QueryOf(s: Store, city: string, radius: real, norm: Norm): Query
  {
    Query(city, Lookup(s, city), radius, norm)
  }

  /** The distance line 59 computes for the stored city `n`. */
  function DistanceTo(s: Store, city: string, norm: Norm, n: string): real
    requires n in Coords(s)
  {
    ComputeDistance(norm, Lookup(s, city), Coords(s)[n])
  }

  /** A hit that the query on `s` must report: another stored city, at its distance, within the radius. */
  ghost predicate Reported(s: Store, city: string, radius: real, norm: Norm, h: Hit)
  {
    && h.name in Coords(s)
    && h.name != city
    && h.distance == DistanceTo(s, city, norm, h.name)
    && WithinRadius(norm, h.distance, radius)
  }

  lemma ScanSound(s: Store, city: string, radius: real, norm: Norm, h: Hit)
    requires s.Valid() && h in Scan(QueryOf(s, city, radius, norm), s.entries)
    ensures Reported(s, city, radius, norm, h)
  {
    var q := QueryOf(s, city, radius, norm);
    assert h in multiset(Candidates(q, s.entries));
    CandidatesSound(q, s.entries, h);
    var i :| 0 <= i < |s.entries| && Selected(q, s.entries[i]) && h == HitOf(q, s.entries[i]);
    ToMapAt(s.entries, i);
  }

  lemma ScanComplete(s: Store, city: string, radius: real, norm: Norm, n: string)
    requires s.Valid() && n in Coords(s) && n != city
    requires WithinRadius(norm, DistanceTo(s, city, norm, n), radius)
    ensures Hit(DistanceTo(s, city, norm, n), n) in Scan(QueryOf(s, city, radius, norm), s.entries)
  {
    var q := QueryOf(s, city, radius, norm);
    var i :| 0 <= i < |Names(s.entries)| && Names(s.entries)[i] == n;
    ToMapAt(s.entries, i);
    CandidatesComplete(q, s.entries, i);
    assert HitOf(q, s.entries[i]) in multiset(Scan(q, s.entries));
  }

  /**
   * `getCitiesInRadius(city, radius, norm)` on store `s`. The result is
   * ordered by distance, then name; it lists exactly the stored cities other
   * than `city` whose distance from `m_cityCoords[city]` is within the radius,
   * each with that distance.
   */
  function GetCitiesInRadius(s: Store, city: string, radius: real, norm: Norm): (r: seq<Hit>)
    requires s.Valid()
    ensures Ordered(r)
    ensures forall h :: h in r ==> Reported(s, city, radius, norm, h)
    ensures forall n :: n in Coords(s) && n != city && WithinRadius(norm, DistanceTo(s, city, norm, n), radius) ==>
                          Hit(DistanceTo(s, city, norm, n), n) in r
  {
    var r := Scan(QueryOf(s, city, radius, norm), s.entries);
    assert forall h :: h in r ==> Reported(s, city, radius, norm, h) by {
      forall h | h in r
        ensures Reported(s, city, radius, norm, h)
      {
        ScanSound(s, city, radius, norm, h);
      }
    }
    assert forall n :: n in Coords(s) && n != city && WithinRadius(norm, DistanceTo(s, city, norm, n), radius) ==>
                         Hit(DistanceTo(s, city, norm, n), n) in r by {
      forall n | n in Coords(s) && n != city && WithinRadius(norm, DistanceTo(s, city, norm, n), radius)
        ensures Hit(DistanceTo(s, city, norm, n), n) in r
      {
        ScanComplete(s, city, radius, norm, n);
      }
    }
    r
  }

  /** The city names of a result, in result order. */
  function CityNames(rs: seq<Hit>): (ns: seq<string>)
    ensures |ns| == |rs|
    ensures forall k :: 0 <= k < |rs| ==> ns[k] == rs[k].name
  {
    if |rs| == 0 then [] else [rs[0].name] + CityNames(rs[1..])
  }

  /**
   * Lines 55-63 at the level of names: a stored city is listed exactly when it
   * is not the selected city and its distance is at most the radius (the
   * boundary included). The selected city is never listed.
   */
  lemma InResultIff(s: Store, city: string, radius: real, norm: Norm, n: string)
    requires s.Valid()
    ensures city !in CityNames(GetCitiesInRadius(s, city, radius, norm))
    ensures n in Coords(s) ==>
              (n in CityNames(GetCitiesInRadius(s, city, radius, norm)) <==>
               n != city && WithinRadius(norm, DistanceTo(s, city, norm, n), radius))
    ensures n in CityNames(GetCitiesInRadius(s, city, radius, norm)) ==> n in Coords(s)
  {
    var r := GetCitiesInRadius(s, city, radius, norm);
    if n in Coords(s) && n != city && WithinRadius(norm, DistanceTo(s, city, norm, n), radius) {
      var k :| 0 <= k < |r| && r[k] == Hit(DistanceTo(s, city, norm, n), n);
      assert CityNames(r)[k] == n;
    }
    forall k | 0 <= k < |r|
      ensures CityNames(r)[k] != city
    {
      assert r[k] in r;
    }
    if n in CityNames(r) {
      var k :| 0 <= k < |r| && CityNames(r)[k] == n;
      assert r[k] in r;
    }
  }

  /** No city is listed twice: the distance of a hit is fixed by its name, and the order is strict. */
  lemma OneHitPerCity(s: Store, city: string, radius: real, norm: Norm, i: nat, j: nat)
    requires s.Valid()
    requires i < j < |GetCitiesInRadius(s, city, radius, norm)|
    ensures GetCitiesInRadius(s, city, radius, norm)[i].name != GetCitiesInRadius(s, city, radius, norm)[j].name
  {
    var r := GetCitiesInRadius(s, city, radius, norm);
    assert r[i] in r && r[j] in r;
    Lex.Irreflexive(r[i].name);
  }

  /** Growing the radius never drops a hit. */
  lemma RadiusMonotone(s: Store, city: string, norm: Norm, r1: real, r2: real, h: Hit)
    requires s.Valid() && r1 <= r2
    requires h in GetCitiesInRadius(s, city, r1, norm)
    ensures h in GetCitiesInRadius(s, city, r2, norm)
  {
    WithinRadiusMonotone(norm, h.distance, r1, r2);
  }

  /**
   * For one radius, every city the Manhattan query lists is listed by the
   * Euclidean query, and every city the Euclidean query lists is listed by the
   * Chebyshev query.
   */
  lemma NormsNestedResults(s: Store, city: string, radius: real, n: string)
    requires s.Valid()
    ensures n in CityNames(GetCitiesInRadius(s, city, radius, Manhattan)) ==>
              n in CityNames(GetCitiesInRadius(s, city, radius, Euclidean))
    ensures n in CityNames(GetCitiesInRadius(s, city, radius, Euclidean)) ==>
              n in CityNames(GetCitiesInRadius(s, city, radius, Chebyshev))
  {
    InResultIff(s, city, radius, Manhattan, n);
    InResultIff(s, city, radius, Euclidean, n);
    InResultIff(s, city, radius, Chebyshev, n);
    if n in Coords(s) {
      WithinRadiusNested(Lookup(s, city), Coords(s)[n], radius);
    }
  }

  lemma SameEmptiness(a: seq<Hit>, b: seq<Hit>)
    requires forall h :: h in a <==> h in b
    ensures |a| == 0 <==> |b| == 0
  {
    if |a| > 0 {
      assert a[0] in b;
    }
    if |b| > 0 {
      assert b[0] in a;
    }
  }

  lemma SameHead(a: seq<Hit>, b: seq<Hit>)
    requires Ordered(a) && Ordered(b) && |a| > 0 && |b| > 0
    requires forall h :: h in a <==> h in b
    ensures a[0] == b[0]
  {
    assert a[0] in b && b[0] in a;
    var i :| 0 <= i < |a| && a[i] == b[0];
    var j :| 0 <= j < |b| && b[j] == a[0];
    if j != 0 {
      if i == 0 {
        HitLessIrreflexive(a[0]);
      } else {
        HitLessAsymmetric(a[0], a[i]);
      }
      assert false;
    }
  }

  /** The head of an ordered sequence does not occur again, and the tail stays ordered. */
  lemma OrderedTail(a: seq<Hit>)
    requires Ordered(a) && |a| > 0
    ensures Ordered(a[1..])
    ensures forall h :: h in a[1..] <==> h in a && h != a[0]
  {
    forall k | 1 <= k < |a|
      ensures a[k] != a[0]
    {
      HitLessIrreflexive(a[0]);
    }
    assert forall h :: h in a ==> h == a[0] || h in a[1..] by {
      assert a == [a[0]] + a[1..];
    }
  }

  /** Two ordered sequences with the same elements are equal. */
  lemma {:induction false} OrderedUnique(a: seq<Hit>, b: seq<Hit>)
    requires Ordered(a) && Ordered(b)
    requires forall h :: h in a <==> h in b
    ensures a == b
  {
    SameEmptiness(a, b);
    if |a| > 0 {
      SameHead(a, b);
      OrderedTail(a);
      OrderedTail(b);
      OrderedUnique(a[1..], b[1..]);
      assert a == [a[0]] + a[1..] && b == [b[0]] + b[1..];
    }
  }

  /**
   * An independent description of the result: the only ordered sequence that
   * lists exactly the reported hits of the cities within the radius.
   */
  lemma ResultDetermined(s: Store, city: string, radius: real, norm: Norm, rs: seq<Hit>)
    requires s.Valid() && Ordered(rs)
    requires forall h :: h in rs ==> Reported(s, city, radius, norm, h)
    requires forall n :: n in Coords(s) && n != city && WithinRadius(norm, DistanceTo(s, city, norm, n), radius) ==>
                           Hit(DistanceTo(s, city, norm, n), n) in rs
    ensures rs == GetCitiesInRadius(s, city, radius, norm)
  {
    var r := GetCitiesInRadius(s, city, radius, norm);
    forall h
      ensures h in rs <==> h in r
    {
      if h in rs || h in r {
        assert h == Hit(DistanceTo(s, city, norm, h.name), h.name);
      }
    }
    OrderedUnique(rs, r);
  }

  /**
   * The store after the query. Line 59 reads `m_cityCoords[city]`, which
   * inserts an absent `city` at (0, 0); that line runs as soon as the loop
   * meets a city, so only an empty store is left as it was.
   */
  function StoreAfterSearch(s: Store, city: string): (t: Store)
    requires s.Valid()
    ensures t.Valid()
    ensures city in Coords(t) <==> city in Coords(s) || |s.entries| > 0
    ensures Lookup(t, city) == Lookup(s, city)
    ensures forall n :: n != city ==> (n in Coords(t) <==> n in Coords(s)) && Lookup(t, n) == Lookup(s, n)
  {
    if city in Coords(s) || |s.entries| == 0 then s
    else
      assert s.entries[0].name in Names(s.entries);
      Insert(s, city, Coordinates(0.0, 0.0))
  }

  /** The inserted default entry does not change the query: running it again on the updated store gives the same result. */
  lemma SearchRepeatable(s: Store, city: string, radius: real, norm: Norm)
    requires s.Valid()
    ensures GetCitiesInRadius(StoreAfterSearch(s, city), city, radius, norm) == GetCitiesInRadius(s, city, radius, norm)
  {
    var t := StoreAfterSearch(s, city);
    var rs := GetCitiesInRadius(s, city, radius, norm);
    forall h | h in rs
      ensures Reported(t, city, radius, norm, h)
    {
      assert Lookup(t, h.name) == Lookup(s, h.name);
    }
    forall n | n in Coords(t) && n != city && WithinRadius(norm, DistanceTo(t, city, norm, n), radius)
      ensures Hit(DistanceTo(t, city, norm, n), n) in rs
    {
      assert Lookup(t, n) == Lookup(s, n);
    }
    ResultDetermined(t, city, radius, norm, rs);
  }
}
