/**
 * `load_data`: the data file, already split into the lines `std::getline`
 * returns, is read two lines at a time: a city name, then its coordinate line.
 * Each pair is written into the store, so a later duplicate name overwrites an
 * earlier one. A name line with no line after it, or a coordinate line that
 * does not scan, aborts the whole load.
 */
module Loader {
  import opened Wrappers
  import opened CityStore
  import NumberScanner

  /** The two `runtime_error`s the loop can throw. */
  datatype LoadError =
    | CouldNotReadLine   // a name line is the last line
    | CouldNotParseData  // a coordinate line does not scan

  /** Number of complete (name, coordinate) pairs in the file. */
  function PairCount(lines: seq<string>): (n: nat)
    ensures |lines| == 2 * n || |lines| == 2 * n + 1
  {
    |lines| / 2
  }

  /** The name line of pair `k`. */
  function NameLine(lines: seq<string>, k: nat): string
    requires k < PairCount(lines)
  {
    lines[2 * k]
  }

  /** The coordinate line of pair `k`. */
  function CoordLine(lines: seq<string>, k: nat): string
    requires k < PairCount(lines)
  {
    lines[2 * k + 1]
  }

  predicate ParsesAt(lines: seq<string>, k: nat)
    requires k < PairCount(lines)
  {
    NumberScanner.ParseCoordinates(CoordLine(lines, k)).Some?
  }

  function ParsedAt(lines: seq<string>, k: nat): Coordinates
    requires k < PairCount(lines) && ParsesAt(lines, k)
  {
    NumberScanner.ParseCoordinates(CoordLine(lines, k)).value
  }

  /** Every complete pair's coordinate line scans. */
  predicate AllParse(lines: seq<string>)
  {
    forall k :: 0 <= k < PairCount(lines) ==> ParsesAt(lines, k)
  }

  /** The first `n` pairs parse. */
  predicate PrefixParses(lines: seq<string>, n: nat)
    requires n <= PairCount(lines)
  {
    forall k :: 0 <= k < n ==> ParsesAt(lines, k)
  }

  /**
   * Reference meaning of a sequence of writes: a plain map updated write by
   * write, so the last write of a name decides its value.
   */
  function Overwrite(ws: seq<Entry>): map<string, Coordinates>
  {
    if |ws| == 0 then map[]
    else Overwrite(ws[..|ws| - 1])[ws[|ws| - 1].name := ws[|ws| - 1].coords]
  }

  /** Exactly the names written are keys. */
  lemma {:induction false} OverwriteKeys(ws: seq<Entry>)
    ensures forall n :: n in Overwrite(ws) <==> n in Names(ws)
  {
    if |ws| > 0 {
      var init := ws[..|ws| - 1];
      OverwriteKeys(init);
      assert Names(ws) == Names(init) + [ws[|ws| - 1].name];
    }
  }

  /** Last write wins. */
  lemma {:induction false} OverwriteLast(ws: seq<Entry>, k: nat)
    requires k < |ws|
    requires forall j :: k < j < |ws| ==> ws[j].name != ws[k].name
    ensures ws[k].name in Overwrite(ws)
    ensures Overwrite(ws)[ws[k].name] == ws[k].coords
  {
    if k < |ws| - 1 {
      var init := ws[..|ws| - 1];
      assert init[k] == ws[k];
      OverwriteLast(init, k);
    }
  }

  /** The writes the first `n` pairs perform. */
  function Writes(lines: seq<string>, n: nat): (ws: seq<Entry>)
    requires n <= PairCount(lines) && PrefixParses(lines, n)
    ensures |ws| == n
    ensures forall k :: 0 <= k < n ==> ws[k] == Entry(NameLine(lines, k), ParsedAt(lines, k))
  {
    if n == 0 then []
    else Writes(lines, n - 1) + [Entry(NameLine(lines, n - 1), ParsedAt(lines, n - 1))]
  }

  /** The names of the first `n` pairs. */
  function NamesRead(lines: seq<string>, n: nat): set<string>
    requires n <= PairCount(lines)
  {
    set k | 0 <= k < n :: NameLine(lines, k)
  }

  /** Pair `k` is the last of the first `n` pairs to carry its name. */
  predicate LastWrite(lines: seq<string>, k: nat, n: nat)
    requires k < n <= PairCount(lines)
  {
    forall j :: k < j < n ==> NameLine(lines, j) != NameLine(lines, k)
  }

  /** What the loaded store holds, stated pair by pair. */
  lemma WritesMeaning(lines: seq<string>)
    requires PrefixParses(lines, PairCount(lines))
    ensures Overwrite(Writes(lines, PairCount(lines))).Keys == NamesRead(lines, PairCount(lines))
    ensures forall k :: 0 <= k < PairCount(lines) && LastWrite(lines, k, PairCount(lines)) ==>
              Overwrite(Writes(lines, PairCount(lines)))[NameLine(lines, k)] == ParsedAt(lines, k)
  {
    var n := PairCount(lines);
    var ws := Writes(lines, n);
    OverwriteKeys(ws);
    forall name | name in NamesRead(lines, n) ensures name in Overwrite(ws) {
      var k :| 0 <= k < n && NameLine(lines, k) == name;
      assert Names(ws)[k] == name;
    }
    forall name | name in Overwrite(ws) ensures name in NamesRead(lines, n) {
      var k :| 0 <= k < n && Names(ws)[k] == name;
      assert NameLine(lines, k) == name;
    }
    forall k | 0 <= k < n && LastWrite(lines, k, n)
      ensures Overwrite(ws)[NameLine(lines, k)] == ParsedAt(lines, k)
    {
      OverwriteLast(ws, k);
    }
  }

  method LoadData(lines: seq<string>) returns (r: Result<Store, LoadError>)
    ensures r.Success? <==> |lines| % 2 == 0 && PrefixParses(lines, PairCount(lines))
    ensures r == Failure(CouldNotParseData) <==>
              exists k :: 0 <= k < PairCount(lines) && !ParsesAt(lines, k)
    ensures r == Failure(CouldNotReadLine) <==>
              |lines| % 2 == 1 && PrefixParses(lines, PairCount(lines))
    ensures r.Success? ==> r.value.Valid()
    ensures r.Success? ==> Coords(r.value) == Overwrite(Writes(lines, PairCount(lines)))
    ensures r.Success? ==> Coords(r.value).Keys == NamesRead(lines, PairCount(lines))
    ensures r.Success? ==>
              forall k :: 0 <= k < PairCount(lines) && LastWrite(lines, k, PairCount(lines)) ==>
                Coords(r.value)[NameLine(lines, k)] == ParsedAt(lines, k)
    ensures r.Success? ==> |r.value.entries| == |NamesRead(lines, PairCount(lines))|
  {
    var store := Empty();
    var p := 0;
    while 2 * p < |lines|
      invariant 2 * p <= |lines| && p <= PairCount(lines)
      invariant PrefixParses(lines, p)
      invariant store.Valid()
      invariant Coords(store) == Overwrite(Writes(lines, p))
    {
      if 2 * p + 1 >= |lines| {
        return Failure(CouldNotReadLine);
      }
      var name := lines[2 * p];
      var parsed := NumberScanner.ParseCoordinates(lines[2 * p + 1]);
      if parsed.None? {
        assert !ParsesAt(lines, p);
        return Failure(CouldNotParseData);
      }
      assert ParsesAt(lines, p) && parsed.value == ParsedAt(lines, p);
      assert PrefixParses(lines, p + 1);
      assert Writes(lines, p + 1)[..p] == Writes(lines, p);
      store := Insert(store, name, parsed.value);
      p := p + 1;
    }
    assert p == PairCount(lines);
    OneEntryPerName(store.entries);
    WritesMeaning(lines);
    return Success(store);
  }
}
