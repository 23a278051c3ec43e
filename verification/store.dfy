/**
 * The city store `m_cityCoords`: a `std::map<std::string, Coordinates>`.
 * It is modelled as what an ordered map is when iterated: a sequence of
 * entries whose names strictly ascend in `Lex` order. `Coords` is the
 * name-to-coordinates view; `Insert` is `m_cityCoords[name] = coords`.
 */
module CityStore {
  import Lex

  /** `Coordinates` is `std::pair<double, double>`; the first component is the latitude. */
  datatype Coordinates = Coordinates(lat: real, lon: real)

  /** One key/value pair of the map. */
  datatype Entry = Entry(name: string, coords: Coordinates)

  /** Iteration order of the map: names strictly ascending (hence unique). */
  ghost predicate Ascending(es: seq<Entry>)
  {
    forall i, j :: 0 <= i < j < |es| ==> Lex.Less(es[i].name, es[j].name)
  }

  datatype Store = Store(entries: seq<Entry>) {
    ghost predicate Valid()
    {
      Ascending(entries)
    }
  }

  /** The names of `es`, in order. */
  function Names(es: seq<Entry>): (ns: seq<string>)
    ensures |ns| == |es|
    ensures forall i :: 0 <= i < |es| ==> ns[i] == es[i].name
  {
    if |es| == 0 then [] else [es[0].name] + Names(es[1..])
  }

  /** The store as a mapping from name to coordinates. */
  function ToMap(es: seq<Entry>): (m: map<string, Coordinates>)
    ensures forall n :: n in m <==> n in Names(es)
  {
    if |es| == 0 then map[]
    else ToMap(es[1..])[es[0].name := es[0].coords]
  }

  function Coords(s: Store): map<string, Coordinates>
  {
    ToMap(s.entries)
  }

  /**
   * `m_cityCoords[name]` read for its value: the stored coordinates, or the
   * value-initialised pair (0, 0) that `operator[]` creates for an absent name.
   */
  function Lookup(s: Store, name: string): (c: Coordinates)
    ensures name !in Names(s.entries) ==> c == Coordinates(0.0, 0.0)
  {
    if name in Coords(s) then Coords(s)[name] else Coordinates(0.0, 0.0)
  }

  /** The empty store the loader starts from. */
  function Empty(): (s: Store)
    ensures s.Valid() && Coords(s) == map[]
  {
    Store([])
  }

  /** In an ascending sequence each entry's coordinates are what the map holds for its name. */
  lemma {:induction false} ToMapAt(es: seq<Entry>, i: nat)
    requires Ascending(es) && i < |es|
    ensures ToMap(es)[es[i].name] == es[i].coords
  {
    if i > 0 {
      ToMapAt(es[1..], i - 1);
      Lex.Irreflexive(es[0].name);
      assert Lex.Less(es[0].name, es[i].name);
    }
  }

  /** In a valid store, reading a stored name gives the coordinates of its entry. */
  lemma LookupEntry(s: Store, i: nat)
    requires s.Valid() && i < |s.entries|
    ensures Lookup(s, s.entries[i].name) == s.entries[i].coords
  {
    ToMapAt(s.entries, i);
  }

  /** Every name in `es` comes after `x`. */
  ghost predicate Above(x: string, es: seq<Entry>)
  {
    forall i :: 0 <= i < |es| ==> Lex.Less(x, es[i].name)
  }

  lemma AboveNotIn(x: string, es: seq<Entry>)
    requires Above(x, es)
    ensures x !in ToMap(es)
  {
    Lex.Irreflexive(x);
  }

  lemma {:induction false} HeadAbove(es: seq<Entry>)
    requires Ascending(es) && |es| > 0
    ensures Above(es[0].name, es[1..])
  {
    forall i | 0 <= i < |es[1..]| ensures Lex.Less(es[0].name, es[1..][i].name) {
      assert es[1..][i] == es[i + 1];
    }
  }

  lemma AboveTransitive(x: string, es: seq<Entry>)
    requires Ascending(es) && |es| > 0 && Lex.Less(x, es[0].name)
    ensures Above(x, es)
  {
    forall i | 1 <= i < |es| ensures Lex.Less(x, es[i].name) {
      Lex.Transitive(x, es[0].name, es[i].name);
    }
  }

  /** `Above` carries over to a sequence whose names are those of `es` plus `name`. */
  lemma AboveByKeys(x: string, es: seq<Entry>, r: seq<Entry>, name: string)
    requires Above(x, es) && Lex.Less(x, name)
    requires forall n :: n in ToMap(r) ==> n in ToMap(es) || n == name
    ensures Above(x, r)
  {
    forall i | 0 <= i < |r| ensures Lex.Less(x, r[i].name) {
      assert r[i].name in Names(r);
      if r[i].name != name {
        assert r[i].name in ToMap(es);
        var k :| 0 <= k < |Names(es)| && Names(es)[k] == r[i].name;
        assert Lex.Less(x, es[k].name);
      }
    }
  }

  lemma {:induction false} AscendingCons(e: Entry, es: seq<Entry>)
    requires Ascending(es) && Above(e.name, es)
    ensures Ascending([e] + es)
  {
    var r := [e] + es;
    forall i, j | 0 <= i < j < |r| ensures Lex.Less(r[i].name, r[j].name) {
      assert r[j] == es[j - 1];
      if i > 0 {
        assert r[i] == es[i - 1];
      }
    }
  }

  lemma {:induction false} AscendingTail(es: seq<Entry>)
    requires Ascending(es) && |es| > 0
    ensures Ascending(es[1..])
  {
    forall i, j | 0 <= i < j < |es[1..]| ensures Lex.Less(es[1..][i].name, es[1..][j].name) {
      assert es[1..][i] == es[i + 1] && es[1..][j] == es[j + 1];
    }
  }

  lemma AscendingInit(es: seq<Entry>)
    requires Ascending(es) && |es| > 0
    ensures Ascending(es[..|es| - 1])
    ensures forall i :: 0 <= i < |es| - 1 ==> Lex.Less(es[i].name, es[|es| - 1].name)
  {
  }

  lemma OverwriteHead(es: seq<Entry>, name: string, c: Coordinates)
    requires Ascending(es) && |es| > 0 && es[0].name == name
    ensures Ascending([Entry(name, c)] + es[1..])
    ensures ToMap([Entry(name, c)] + es[1..]) == ToMap(es)[name := c]
  {
    HeadAbove(es);
    AscendingTail(es);
    AscendingCons(Entry(name, c), es[1..]);
    assert ([Entry(name, c)] + es[1..])[1..] == es[1..];
  }

  lemma InsertFront(es: seq<Entry>, name: string, c: Coordinates)
    requires Ascending(es) && |es| > 0 && Lex.Less(name, es[0].name)
    ensures Ascending([Entry(name, c)] + es)
    ensures name !in ToMap(es)
    ensures ToMap([Entry(name, c)] + es) == ToMap(es)[name := c]
  {
    AboveTransitive(name, es);
    AboveNotIn(name, es);
    AscendingCons(Entry(name, c), es);
    assert ([Entry(name, c)] + es)[1..] == es;
  }

  lemma InsertLater(es: seq<Entry>, name: string, c: Coordinates, tail: seq<Entry>)
    requires Ascending(es) && |es| > 0 && Lex.Less(es[0].name, name)
    requires Ascending(tail) && ToMap(tail) == ToMap(es[1..])[name := c]
    ensures Ascending([es[0]] + tail)
    ensures ToMap([es[0]] + tail) == ToMap(es)[name := c]
    ensures name in ToMap(es) <==> name in ToMap(es[1..])
  {
    HeadAbove(es);
    AboveByKeys(es[0].name, es[1..], tail, name);
    AscendingCons(es[0], tail);
    var r := [es[0]] + tail;
    assert r[1..] == tail;
    assert ToMap(r) == ToMap(tail)[es[0].name := es[0].coords];
    assert ToMap(es) == ToMap(es[1..])[es[0].name := es[0].coords];
    Lex.Irreflexive(name);
    UpdatesCommute(ToMap(es[1..]), es[0].name, es[0].coords, name, c);
  }

  lemma UpdatesCommute<K, V>(m: map<K, V>, k1: K, v1: V, k2: K, v2: V)
    requires k1 != k2
    ensures m[k2 := v2][k1 := v1] == m[k1 := v1][k2 := v2]
  {
  }

  /** Inserting into (or overwriting in) an ascending sequence of entries. */
  function InsertEntry(es: seq<Entry>, name: string, c: Coordinates): (r: seq<Entry>)
    requires Ascending(es)
    ensures Ascending(r)
    ensures ToMap(r) == ToMap(es)[name := c]
    ensures name in ToMap(es) ==> |r| == |es|
    ensures name !in ToMap(es) ==> |r| == |es| + 1
  {
    if |es| == 0 then [Entry(name, c)]
    else if es[0].name == name then
      OverwriteHead(es, name, c);
      [Entry(name, c)] + es[1..]
    else if Lex.Less(name, es[0].name) then
      InsertFront(es, name, c);
      [Entry(name, c)] + es
    else
      Lex.Total(name, es[0].name);
      AscendingTail(es);
      var tail := InsertEntry(es[1..], name, c);
      InsertLater(es, name, c, tail);
      [es[0]] + tail
  }

  /** `m_cityCoords[name] = c`: insert a new entry or overwrite an existing one. */
  function Insert(s: Store, name: string, c: Coordinates): (r: Store)
    requires s.Valid()
    ensures r.Valid()
    ensures Coords(r) == Coords(s)[name := c]
  {
    Store(InsertEntry(s.entries, name, c))
  }

  /** One entry per distinct name: the store holds exactly as many entries as its map has keys. */
  lemma {:induction false} OneEntryPerName(es: seq<Entry>)
    requires Ascending(es)
    ensures |ToMap(es)| == |es|
  {
    if |es| > 0 {
      OneEntryPerName(es[1..]);
      assert es[0].name !in ToMap(es[1..]) by {
        forall i | 1 <= i < |es| ensures es[i].name != es[0].name {
          Lex.Irreflexive(es[0].name);
        }
      }
    }
  }

  lemma SameHeadName(a: seq<Entry>, b: seq<Entry>)
    requires Ascending(a) && Ascending(b) && |a| > 0 && |b| > 0
    requires ToMap(a) == ToMap(b)
    ensures a[0].name == b[0].name
  {
    var n := a[0].name;
    assert n in Names(a) && b[0].name in Names(b);
    var j :| 0 <= j < |b| && Names(b)[j] == n;
    var i :| 0 <= i < |a| && Names(a)[i] == b[0].name;
    if j > 0 {
      if i > 0 {
        Lex.Transitive(n, b[0].name, n);
      }
      Lex.Irreflexive(n);
      assert false;
    }
  }

  lemma TailMap(a: seq<Entry>)
    requires Ascending(a) && |a| > 0
    ensures ToMap(a[1..]) == ToMap(a) - {a[0].name}
  {
    HeadAbove(a);
    AboveNotIn(a[0].name, a[1..]);
    RemoveUpdated(ToMap(a[1..]), a[0].name, a[0].coords);
  }

  lemma RemoveUpdated<K, V>(m: map<K, V>, k: K, v: V)
    requires k !in m
    ensures m[k := v] - {k} == m
  {
  }

  /** The iteration order is fixed by the contents: two valid stores with the same map are equal. */
  lemma {:induction false} Canonical(a: seq<Entry>, b: seq<Entry>)
    requires Ascending(a) && Ascending(b)
    requires ToMap(a) == ToMap(b)
    ensures a == b
  {
    if |a| == 0 || |b| == 0 {
      OneEntryPerName(a);
      OneEntryPerName(b);
    } else {
      SameHeadName(a, b);
      ToMapAt(a, 0);
      ToMapAt(b, 0);
      TailMap(a);
      TailMap(b);
      AscendingTail(a);
      AscendingTail(b);
      Canonical(a[1..], b[1..]);
      assert a == [a[0]] + a[1..] && b == [b[0]] + b[1..];
    }
  }
}
