/**
  Per-station statistics of temperature rows.

  `Summary` says, station by station, what a table of aggregates must hold.  The Go program
  keeps a map from station names to aggregate cells that it updates in place; `Aggregation`
  is that map, and every update is tied to `Summary` or to `Merge`.
 */
module Aggregates {
  import opened Wrappers
  import opened Sequences

  type Station = seq<byte>
  datatype Row = Row(station: Station, temperature: int)
  datatype Stats = Stats(count: int, sum: int, min: int, max: int)
  type Table = map<Station, Stats>

  const TWO_63: int := 0x8000_0000_0000_0000
  const TWO_64: int := 0x1_0000_0000_0000_0000

  /** The value an int64 holds after an operation whose exact result is x. */
  function Wrap64(x: int): int {
    (x + TWO_63) % TWO_64 - TWO_63
  }

  lemma WrapAbsorbs(x: int, y: int)
    ensures Wrap64(Wrap64(x) + Wrap64(y)) == Wrap64(x + y)
  {
  }

  // ----- What a table must hold -----

  /** The temperatures read for one station, in row order. */
  function Readings(rows: seq<Row>, station: Station): seq<int> {
    if rows == [] then []
    else if rows[0].station == station then [rows[0].temperature] + Readings(rows[1..], station)
    else Readings(rows[1..], station)
  }

  function Sum(temps: seq<int>): int {
    if temps == [] then 0 else temps[0] + Sum(temps[1..])
  }

  function Least(temps: seq<int>): (m: int)
    requires temps != []
    ensures m in temps && forall t | t in temps :: m <= t
  {
    if |temps| == 1 then temps[0]
    else
      assert temps == [temps[0]] + temps[1..];
      var rest := Least(temps[1..]);
      if temps[0] < rest then temps[0] else rest
  }

  function Greatest(temps: seq<int>): (m: int)
    requires temps != []
    ensures m in temps && forall t | t in temps :: t <= m
  {
    if |temps| == 1 then temps[0]
    else
      assert temps == [temps[0]] + temps[1..];
      var rest := Greatest(temps[1..]);
      if temps[0] > rest then temps[0] else rest
  }

  function StatsOf(temps: seq<int>): Stats
    requires temps != []
  {
    Stats(Wrap64(|temps|), Wrap64(Sum(temps)), Least(temps), Greatest(temps))
  }

  function Stations(rows: seq<Row>): set<Station> {
    set row | row in rows :: row.station
  }

  lemma {:induction false} StationsHaveReadings(rows: seq<Row>, station: Station)
    ensures station in Stations(rows) <==> Readings(rows, station) != []
  {
    if rows != [] {
      StationsHaveReadings(rows[1..], station);
      assert rows == [rows[0]] + rows[1..];
    }
  }

  lemma {:induction false} FewerReadings(rows: seq<Row>, station: Station)
    ensures |Readings(rows, station)| <= |rows|
  {
    if rows != [] {
      FewerReadings(rows[1..], station);
    }
  }

  function Summary(rows: seq<Row>): Table {
    map station | station in Stations(rows) ::
      (StationsHaveReadings(rows, station); StatsOf(Readings(rows, station)))
  }

  // ----- Merging -----

  function Combine(a: Stats, b: Stats): Stats {
    Stats(Wrap64(a.count + b.count), Wrap64(a.sum + b.sum),
          if b.min < a.min then b.min else a.min,
          if b.max > a.max then b.max else a.max)
  }

  function Merge(a: Table, b: Table): Table {
    map station | station in a.Keys + b.Keys ::
      if station !in a then b[station]
      else if station !in b then a[station]
      else Combine(a[station], b[station])
  }

  lemma MergeCommutes(a: Table, b: Table)
    ensures Merge(a, b) == Merge(b, a)
  {
  }

  lemma {:induction false} SumAppends(a: seq<int>, b: seq<int>)
    ensures Sum(a + b) == Sum(a) + Sum(b)
  {
    if a == [] {
      assert a + b == b;
    } else {
      SumAppends(a[1..], b);
      assert (a + b)[1..] == a[1..] + b;
    }
  }

  lemma {:induction false} ReadingsAppend(a: seq<Row>, b: seq<Row>, station: Station)
    ensures Readings(a + b, station) == Readings(a, station) + Readings(b, station)
  {
    if a == [] {
      assert a + b == b;
    } else {
      ReadingsAppend(a[1..], b, station);
      assert (a + b)[1..] == a[1..] + b;
    }
  }

  lemma StatsOfAppend(a: seq<int>, b: seq<int>)
    requires a != [] && b != []
    ensures StatsOf(a + b) == Combine(StatsOf(a), StatsOf(b))
  {
    SumAppends(a, b);
    WrapAbsorbs(|a|, |b|);
    WrapAbsorbs(Sum(a), Sum(b));
    forall t | t in a || t in b
      ensures t in a + b
    {
    }
  }

  /** Summarizing two blocks of rows apart and merging gives the summary of both together. */
  lemma SummaryOfAppend(a: seq<Row>, b: seq<Row>)
    ensures Summary(a + b) == Merge(Summary(a), Summary(b))
  {
    assert Stations(a + b) == Stations(a) + Stations(b) by {
      assert forall row :: row in a + b <==> row in a || row in b;
    }
    forall station | station in Stations(a + b)
      ensures Summary(a + b)[station] == Merge(Summary(a), Summary(b))[station]
    {
      ReadingsAppend(a, b, station);
      StationsHaveReadings(a, station);
      StationsHaveReadings(b, station);
      if station !in Stations(a) {
        assert Readings(a + b, station) == Readings(b, station);
      } else if station !in Stations(b) {
        assert Readings(a + b, station) == Readings(a, station);
      } else {
        StatsOfAppend(Readings(a, station), Readings(b, station));
      }
    }
  }

  /** The rows of several parts, one part after the other. */
  function Gather<P>(parts: seq<P>, rows: P -> seq<Row>): seq<Row> {
    if parts == [] then [] else rows(parts[0]) + Gather(parts[1..], rows)
  }

  lemma {:induction false} GatherAppends<P>(a: seq<P>, b: seq<P>, rows: P -> seq<Row>)
    ensures Gather(a + b, rows) == Gather(a, rows) + Gather(b, rows)
  {
    if a == [] {
      assert a + b == b;
    } else {
      GatherAppends(a[1..], b, rows);
      assert (a + b)[1..] == a[1..] + b;
    }
  }

  lemma SummaryMovesBlock(x: seq<Row>, l: seq<Row>, r: seq<Row>)
    ensures Summary(x + (l + r)) == Summary((l + x) + r)
  {
    assert x + (l + r) == (x + l) + r;
    SummaryOfAppend(x + l, r);
    SummaryOfAppend(l + x, r);
    SummaryOfAppend(x, l);
    SummaryOfAppend(l, x);
    MergeCommutes(Summary(x), Summary(l));
  }

  /** Parts may arrive in any order: the summary of all their rows is the same. */
  lemma {:induction false} ArrivalOrderIrrelevant<P>(a: seq<P>, b: seq<P>, rows: P -> seq<Row>)
    requires multiset(a) == multiset(b)
    ensures Summary(Gather(a, rows)) == Summary(Gather(b, rows))
  {
    if a == [] {
      assert |multiset(b)| == 0;
      assert b == [];
    } else {
      var x := a[0];
      var i := FindInPermutation(a, b);
      var l, r := b[..i], b[i + 1..];
      assert b == (l + [x]) + r;
      ArrivalOrderIrrelevant(a[1..], l + r, rows);
      GatherAppends(l, r, rows);
      GatherAppends(l + [x], r, rows);
      GatherAppends(l, [x], rows);
      assert Gather([x], rows) == rows(x);
      SummaryOfAppend(rows(x), Gather(a[1..], rows));
      SummaryOfAppend(rows(x), Gather(l, rows) + Gather(r, rows));
      SummaryMovesBlock(rows(x), Gather(l, rows), Gather(r, rows));
    }
  }

  // ----- The map of cells that the program updates in place -----

  class Cell {
    var count: int
    var sum: int
    var min: int
    var max: int

    constructor (value: Stats)
      ensures Value() == value
    {
      count, sum, min, max := value.count, value.sum, value.min, value.max;
    }

    function Value(): Stats
      reads this
    {
      Stats(count, sum, min, max)
    }

    method Absorb(observed: Stats)
      modifies this
      ensures Value() == Combine(old(Value()), observed)
    {
      count := Wrap64(count + observed.count);
      sum := Wrap64(sum + observed.sum);
      if observed.min < min {
        min := observed.min;
      }
      if observed.max > max {
        max := observed.max;
      }
    }
  }

  lemma MergeOneReading(table: Table, station: Station, temperature: int)
    ensures var one := Stats(1, Wrap64(temperature), temperature, temperature);
            Merge(table, Summary([Row(station, temperature)])) ==
            table[station := if station in table then Combine(table[station], one) else one]
  {
    var row := Row(station, temperature);
    assert Stations([row]) == {station};
    assert Readings([row], station) == [temperature];
    assert Sum([temperature]) == temperature && Wrap64(1) == 1;
  }

  class Aggregation {
    var cells: map<Station, Cell>
    ghost var View: Table         // the values the cells hold
    ghost var Repr: set<object>   // every object a change to this map may touch

    ghost predicate Valid()
      reads this, Repr
    {
      && this in Repr
      && View.Keys == cells.Keys
      && (forall station | station in cells ::
            cells[station] in Repr && cells[station].Value() == View[station])
      && (forall a, b | a in cells && b in cells && a != b :: cells[a] != cells[b])
    }

    constructor ()
      ensures Valid() && fresh(Repr) && View == map[]
    {
      cells, View, Repr := map[], map[], {this};
    }

    /**
      Folds one reading into its station's cell, adding the cell when the station is new: the
      map that summarized the rows read so far then summarizes them and this one.
     */
    method Observe(row: Row, ghost read: seq<Row>)
      requires Valid() && View == Summary(read)
      modifies Repr
      ensures Valid() && fresh(Repr - old(Repr))
      ensures View == Summary(read + [row])
    {
      var Row(station, temperature) := row;
      MergeOneReading(View, station, temperature);
      SummaryOfAppend(read, [row]);
      if station in cells {
        Fold(station, Stats(1, Wrap64(temperature), temperature, temperature));
      } else {
        Add(station, Stats(1, Wrap64(temperature), temperature, temperature));
      }
    }

    /** Gives a new station a cell of its own. */
    method Add(station: Station, value: Stats)
      requires Valid() && station !in cells
      modifies this
      ensures Valid() && fresh(Repr - old(Repr))
      ensures View == old(View)[station := value] && cells.Keys == old(cells.Keys) + {station}
    {
      var cell := new Cell(value);
      cells, View, Repr := cells[station := cell], View[station := value], Repr + {cell};
    }

    /** Folds an observation into the cell a station already has. */
    method Fold(station: Station, observed: Stats)
      requires Valid() && station in cells
      modifies Repr
      ensures Valid() && Repr == old(Repr) && cells == old(cells)
      ensures View == old(View)[station := Combine(old(View)[station], observed)]
    {
      var current := cells[station];
      current.Absorb(observed);
      View := View[station := current.Value()];
      assert forall other | other in cells && other != station :: cells[other].Value() == old(cells[other].Value());
    }

    method MergeOne(station: Station, observed: Stats)
      requires Valid()
      modifies Repr
      ensures Valid() && fresh(Repr - old(Repr))
      ensures View == old(View)[station := if station in old(View) then Combine(old(View)[station], observed) else observed]
    {
      if station !in cells {
        Add(station, observed);
      } else {
        Fold(station, observed);
      }
    }

    /**
      Folds every aggregate of `source` into this map.  The source and its cells keep their
      values, and no cell of it becomes a cell of this map.
     */
    method MergeFrom(source: Aggregation)
      requires Valid() && source.Valid() && Repr !! source.Repr
      modifies Repr
      ensures Valid() && fresh(Repr - old(Repr))
      ensures View == Merge(old(View), source.View)
      ensures source.Valid() && Repr !! source.Repr
    {
      var todo := source.cells.Keys;
      ghost var before := View;
      ghost var done: set<Station> := {};
      while todo != {}
        invariant source.Valid() && Repr !! source.Repr
        invariant Valid() && fresh(Repr - old(Repr))
        invariant done !! todo && done + todo == source.View.Keys
        invariant View == Merge(before, Restrict(source.View, done))
        decreases todo
      {
        var station :| station in todo;
        MergeNext(before, source.View, done, station);
        todo, done := todo - {station}, done + {station};
        var observed := source.cells[station].Value();
        MergeOne(station, observed);
      }
      assert Restrict(source.View, done) == source.View;
    }
  }

  ghost function Restrict(table: Table, stations: set<Station>): Table {
    map station | station in table && station in stations :: table[station]
  }

  lemma MergeNext(before: Table, added: Table, done: set<Station>, station: Station)
    requires station in added && station !in done
    ensures var merged := Merge(before, Restrict(added, done));
            Merge(before, Restrict(added, done + {station})) ==
            merged[station := if station in merged then Combine(merged[station], added[station]) else added[station]]
  {
  }
}
