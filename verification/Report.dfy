/** The official report: rounded means, tenths, and stations in byte order. */
module Report {
  import opened Wrappers
  import opened Sequences
  import opened Aggregates
  import opened Measurements
  import opened Ranges
  import Decimal
  import Utf8

  // ----- The mean -----

  /**
    The mean in int64 arithmetic: twice the sum plus the count, divided by twice the count.  The
    machine's quotient is rounded toward zero and corrected for negative numerators.
   */
  function RoundTowardPositive(sum: int, count: int): int
    requires Wrap64(2 * count) != 0
  {
    var numerator := Wrap64(Wrap64(2 * sum) + count);
    var denominator := Wrap64(2 * count);
    var quotient := TruncatingDiv(numerator, denominator);
    var remainder := numerator - quotient * denominator;
    if numerator < 0 && remainder != 0 then quotient - 1 else quotient
  }

  /** No intermediate value of the mean leaves the int64 range. */
  predicate MeanFits(sum: int, count: int) {
    0 < 2 * count < TWO_63 && -TWO_63 <= 2 * sum + count < TWO_63
  }

  lemma WrapKeeps(x: int)
    requires -TWO_63 <= x < TWO_63
    ensures Wrap64(x) == x
  {
  }

  /** The floor of the wrapped numerator. */
  lemma WrappedMeanBounds(sum: int, count: int)
    requires 0 < 2 * count < TWO_63
    ensures Wrap64(2 * count) == 2 * count
    ensures var m := RoundTowardPositive(sum, count);
            2 * count * m <= Wrap64(2 * sum + count) < 2 * count * (m + 1)
  {
    WrapKeeps(2 * count);
    WrapKeeps(count);
    WrapAbsorbs(2 * sum, count);
    FloorOfTruncated(Wrap64(2 * sum + count), 2 * count);
  }

  lemma RoundedMeanBounds(sum: int, count: int)
    requires MeanFits(sum, count)
    ensures Wrap64(2 * count) == 2 * count
    ensures var m := RoundTowardPositive(sum, count);
            2 * count * m <= 2 * sum + count < 2 * count * (m + 1)
  {
    WrappedMeanBounds(sum, count);
    WrapKeeps(2 * sum + count);
  }

  lemma FloorOfTruncated(n: int, d: int)
    requires d > 0
    ensures var q := TruncatingDiv(n, d);
            var m := if n < 0 && n - q * d != 0 then q - 1 else q;
            d * m <= n < d * (m + 1)
  {
  }

  lemma ProductAsReal(a: int, b: int)
    ensures (a * b) as real == a as real * b as real
  {
  }

  lemma ProductsOfReals(x: real, y: real, c: real)
    requires c > 0.0
    ensures x <= y <==> x * c <= y * c
  {
  }

  lemma QuotientTimesDivisor(a: real, c: real)
    requires c > 0.0
    ensures a / c * c == a
  {
  }

  lemma QuotientBounds(s: real, c: real, r: real, p: real)
    requires c > 0.0 && r * c == p && 2.0 * p <= 2.0 * s + c < 2.0 * p + 2.0 * c
    ensures r <= s / c + 0.5 < r + 1.0
  {
    var mean := s / c;
    QuotientTimesDivisor(s, c);
    assert (mean + 0.5) * c == mean * c + 0.5 * c;
    assert (r + 1.0) * c == r * c + c;
    ProductsOfReals(r, mean + 0.5, c);
    ProductsOfReals(r + 1.0, mean + 0.5, c);
  }

  lemma NearestUnit(sum: int, count: int, m: int)
    requires count > 0 && 2 * count * m <= 2 * sum + count < 2 * count * (m + 1)
    ensures m as real <= sum as real / count as real + 0.5 < m as real + 1.0
  {
    ProductAsReal(m, count);
    var p := m * count;
    assert 2 * count * m == 2 * p && 2 * count * (m + 1) == 2 * p + 2 * count;
    QuotientBounds(sum as real, count as real, m as real, p as real);
  }

  /** The printed mean is the true mean rounded to the nearest unit, halves upward. */
  lemma MeanIsRoundedHalfUp(sum: int, count: int)
    requires MeanFits(sum, count)
    ensures Wrap64(2 * count) == 2 * count
    ensures var mean, m := sum as real / count as real, RoundTowardPositive(sum, count);
            m == (mean + 0.5).Floor && mean - 0.5 < m as real <= mean + 0.5
  {
    RoundedMeanBounds(sum, count);
    NearestUnit(sum, count, RoundTowardPositive(sum, count));
  }

  /** It is that exactly when the numerator fits: a wrapped numerator always gives another number. */
  lemma MeanIsRightIff(sum: int, count: int)
    requires 0 < 2 * count < TWO_63
    ensures Wrap64(2 * count) == 2 * count
    ensures RoundTowardPositive(sum, count) == (sum as real / count as real + 0.5).Floor <==> MeanFits(sum, count)
  {
    WrappedMeanBounds(sum, count);
    if MeanFits(sum, count) {
      MeanIsRoundedHalfUp(sum, count);
    } else {
      var m := (sum as real / count as real + 0.5).Floor;
      TrueMeanBounds(sum, count);
      WrapMovesFar(2 * sum + count);
      Distribute(2 * count, m);
    }
  }

  lemma WrapMovesFar(n: int)
    requires !(-TWO_63 <= n < TWO_63)
    ensures Wrap64(n) - n >= TWO_64 || n - Wrap64(n) >= TWO_64
  {
  }

  lemma Distribute(d: int, m: int)
    ensures d * (m + 1) == d * m + d
  {
  }

  lemma StoredSumSuffices(sum: int, count: int)
    requires Wrap64(2 * count) != 0
    ensures RoundTowardPositive(Wrap64(sum), count) == RoundTowardPositive(sum, count)
  {
    WrapAbsorbs(sum, sum);
    assert sum + sum == 2 * sum;
  }

  /**
    The mean printed for the aggregate of some readings, whose sum may itself have wrapped, is their
    true mean rounded half up exactly if twice their exact sum plus their number fits in an int64.
   */
  lemma PrintedMeanIsRightIff(temps: seq<int>)
    requires temps != [] && 2 * |temps| < TWO_63
    ensures var stats, sum := StatsOf(temps), Sum(temps);
            && Wrap64(2 * stats.count) != 0
            && (RoundTowardPositive(stats.sum, stats.count) == (sum as real / |temps| as real + 0.5).Floor <==>
                  -TWO_63 <= 2 * sum + |temps| < TWO_63)
  {
    WrapKeeps(|temps|);
    MeanIsRightIff(Sum(temps), |temps|);
    StoredSumSuffices(Sum(temps), |temps|);
  }

  /** The true rounded mean is the quotient of the exact numerator. */
  lemma TrueMeanBounds(sum: int, count: int)
    requires count > 0
    ensures var m := (sum as real / count as real + 0.5).Floor;
            2 * count * m <= 2 * sum + count < 2 * count * (m + 1)
  {
    var q := FloorOfDivision(2 * sum + count, 2 * count);
    NearestUnit(sum, count, q);
  }

  lemma FloorOfDivision(n: int, d: int) returns (q: int)
    requires d > 0
    ensures d * q <= n < d * (q + 1)
  {
    FloorOfTruncated(n, d);
    var t := TruncatingDiv(n, d);
    q := if n < 0 && n - t * d != 0 then t - 1 else t;
  }

  lemma {:induction false} SumBounds(temps: seq<int>, lo: int, hi: int)
    requires forall t | t in temps :: lo <= t <= hi
    ensures lo * |temps| <= Sum(temps) <= hi * |temps|
  {
    if temps != [] {
      assert temps[0] in temps && forall t | t in temps[1..] :: t in temps;
      SumBounds(temps[1..], lo, hi);
      OneMoreTime(lo, |temps[1..]|);
      OneMoreTime(hi, |temps[1..]|);
    }
  }

  lemma OneMoreTime(x: int, n: nat)
    ensures x * (n + 1) == x * n + x
  {
  }

  lemma MeanBetween(sum: int, count: int, lo: int, hi: int, m: int)
    requires count > 0 && lo * count <= sum <= hi * count
    requires 2 * count * m <= 2 * sum + count < 2 * count * (m + 1)
    ensures lo <= m <= hi
  {
    if m + 1 <= lo {
      ProductsAscend(2 * count, m + 1, lo);
    } else if hi + 1 <= m {
      ProductsAscend(2 * count, hi + 1, m);
    }
  }

  /**
    Whenever twice the sum of some readings plus their number fits in an int64, the mean printed for
    their aggregate is their true mean rounded half up and lies between their extremes.
   */
  lemma ReportedMean(temps: seq<int>)
    requires temps != [] && 2 * |temps| < TWO_63
    ensures Wrap64(2 * StatsOf(temps).count) != 0
    ensures var stats := StatsOf(temps);
            MeanFits(Sum(temps), |temps|) ==>
              && stats == Stats(|temps|, Sum(temps), Least(temps), Greatest(temps))
              && stats.min <= RoundTowardPositive(stats.sum, stats.count) <= stats.max
              && RoundTowardPositive(stats.sum, stats.count) == (Sum(temps) as real / |temps| as real + 0.5).Floor
  {
    WrapKeeps(|temps|);
    DoubleIsNotZero(|temps|);
    if MeanFits(Sum(temps), |temps|) {
      WrapKeeps(Sum(temps));
      SumBounds(temps, Least(temps), Greatest(temps));
      MeanOfSum(Sum(temps), |temps|, Least(temps), Greatest(temps));
    }
  }

  /** Short of 2^63 / 1999 readings it fits. */
  lemma FewReadingsFit(temps: seq<int>)
    requires temps != [] && 1999 * |temps| < TWO_63
    requires forall t | t in temps :: -999 <= t <= 999
    ensures MeanFits(Sum(temps), |temps|)
  {
    SumBounds(temps, -999, 999);
  }

  lemma MeanOfSum(sum: int, count: int, lo: int, hi: int)
    requires MeanFits(sum, count) && lo * count <= sum <= hi * count
    ensures Wrap64(2 * count) != 0
    ensures lo <= RoundTowardPositive(sum, count) <= hi
    ensures RoundTowardPositive(sum, count) == (sum as real / count as real + 0.5).Floor
  {
    RoundedMeanBounds(sum, count);
    MeanIsRoundedHalfUp(sum, count);
    MeanBetween(sum, count, lo, hi, RoundTowardPositive(sum, count));
  }

  lemma {:induction false} ReadingsAreTenths(content: seq<byte>, station: Station)
    requires Rows(content).Ok?
    ensures forall t | t in Readings(Rows(content).value, station) :: -999 <= t <= 999
    ensures |Readings(Rows(content).value, station)| <= |content|
    decreases |content|
  {
    if content != [] {
      ReadingsAreTenths(AfterLine(content), station);
      FirstReading(FirstRow(content).value, Rows(AfterLine(content)).value, station);
    }
  }

  lemma FirstReading(row: Row, rest: seq<Row>, station: Station)
    ensures Readings([row] + rest, station)
            == (if row.station == station then [row.temperature] else []) + Readings(rest, station)
  {
    ReadingsAppend([row], rest, station);
    assert Readings([row], station) == if row.station == station then [row.temperature] else [];
  }

  lemma ReadingsAreFew(content: seq<byte>, station: Station)
    requires Rows(content).Ok? && |content| < TWO_63
    ensures 2 * |Readings(Rows(content).value, station)| < TWO_63
  {
    RowsTakeSixBytes(content);
    FewerReadings(Rows(content).value, station);
  }

  /** So for every station of every readable file that an int64 can measure. */
  lemma PrintedMeanOfStationIsRightIff(content: seq<byte>, station: Station)
    requires Rows(content).Ok? && |content| < TWO_63 && station in Stations(Rows(content).value)
    ensures var stats, temps := Summary(Rows(content).value)[station], Readings(Rows(content).value, station);
            && temps != [] && Wrap64(2 * stats.count) != 0
            && (RoundTowardPositive(stats.sum, stats.count) == (Sum(temps) as real / |temps| as real + 0.5).Floor <==>
                  -TWO_63 <= 2 * Sum(temps) + |temps| < TWO_63)
  {
    StationsHaveReadings(Rows(content).value, station);
    ReadingsAreFew(content, station);
    PrintedMeanIsRightIff(Readings(Rows(content).value, station));
  }

  /**
    Each station of a readable file is printed with a minimum and maximum among its readings.  While
    twice their sum plus their number fits in an int64 the mean is theirs, rounded half up, and never
    falls outside; fewer than 2^63 / 1999 bytes of input see to that.
   */
  lemma ReportedMeanOfStation(content: seq<byte>, station: Station)
    requires Rows(content).Ok? && |content| < TWO_63
    requires station in Stations(Rows(content).value)
    ensures var stats := Summary(Rows(content).value)[station];
            var temps := Readings(Rows(content).value, station);
            && temps != [] && Wrap64(2 * stats.count) != 0
            && stats.min in temps && stats.max in temps
            && (forall t | t in temps :: stats.min <= t <= stats.max)
            && (MeanFits(Sum(temps), |temps|) ==>
                  && stats.min <= RoundTowardPositive(stats.sum, stats.count) <= stats.max
                  && RoundTowardPositive(stats.sum, stats.count) == (Sum(temps) as real / |temps| as real + 0.5).Floor)
            && (1999 * |content| < TWO_63 ==> MeanFits(Sum(temps), |temps|))
  {
    var temps := Readings(Rows(content).value, station);
    StationsHaveReadings(Rows(content).value, station);
    ReadingsAreTenths(content, station);
    ReadingsAreFew(content, station);
    ReportedMean(temps);
    if 1999 * |content| < TWO_63 {
      FewReadingsFit(temps);
    }
  }

  const HOT: seq<byte> := [97, 59, 57, 57, 46, 57, 10]

  lemma HotReads()
    ensures ReadsAs(HOT, Row([97], 999))
  {
    forall rest: seq<byte>
      ensures FirstRow(HOT + rest) == Ok(Row([97], 999)) && AfterLine(HOT + rest) == rest
    {
      var s, line := HOT + rest, HOT[..6];
      assert s[6] == NEWLINE && IndexByte(s, NEWLINE) == 6;
      assert s[..6] == line == [97, 59, 57, 57, 46, 57];
      assert line[1] == SEMICOLON && IndexByte(line, SEMICOLON) == 1;
      assert line[2..] == [57, 57, 46, 57] && line[..1] == [97];
    }
  }

  lemma {:induction false} HotReadings(n: nat)
    ensures var temps := Readings(Repeated(Row([97], 999), n), [97]); |temps| == n && Sum(temps) == 999 * n
  {
    if n > 0 {
      var row, rest := Row([97], 999), Repeated(Row([97], 999), n - 1);
      HotReadings(n - 1);
      FirstReading(row, rest, [97]);
      assert ([999] + Readings(rest, [97]))[1..] == Readings(rest, [97]);
    }
  }

  /** There is a readable file whose report shows a wrong mean. */
  lemma SomeReadableFileHasWrongMean() returns (content: seq<byte>, station: Station)
    ensures |content| < TWO_63 && Rows(content).Ok? && station in Stations(Rows(content).value)
    ensures var stats, temps := Summary(Rows(content).value)[station], Readings(Rows(content).value, station);
            && temps != [] && Wrap64(2 * stats.count) != 0
            && RoundTowardPositive(stats.sum, stats.count) != (Sum(temps) as real / |temps| as real + 0.5).Floor
  {
    var n := TWO_63 / 1999 + 1;
    station, content := [97], Copies(HOT, n);
    HotReads();
    CopiesRead(HOT, Row([97], 999), n);
    CopiesLength(HOT, n);
    HotReadings(n);
    StationsHaveReadings(Rows(content).value, station);
    PrintedMeanOfStationIsRightIff(content, station);
  }

  // ----- Tenths -----

  function FormatTenths(value: int): string {
    if value == 0 then "0.0"
    else
      var magnitude := if value < 0 then -value else value;
      (if value < 0 then "-" else "") + Decimal.Digits(magnitude / 10) + "." + Decimal.Digits(magnitude % 10)
  }

  lemma TwoDigits(n: nat)
    requires 10 <= n < 100
    ensures Decimal.Digits(n) == [Decimal.DigitChar(n / 10), Decimal.DigitChar(n % 10)]
  {
  }

  /** The bytes of the magnitude of a temperature: one or two digits, a point and a digit. */
  function TenthsBytes(magnitude: int): seq<byte>
    requires 0 <= magnitude < 1000
  {
    (if magnitude < 100 then [] else [48 + magnitude / 100]) + [48 + magnitude / 10 % 10, POINT, 48 + magnitude % 10]
  }

  lemma DigitsOfTenths(magnitude: int)
    requires 0 <= magnitude < 1000
    ensures magnitude == magnitude / 100 * 100 + magnitude / 10 % 10 * 10 + magnitude % 10
    ensures magnitude < 100 ==> magnitude / 100 == 0
  {
  }

  /** A sign byte changes nothing but the sign. */
  lemma ParseSigned(b: seq<byte>)
    requires b != [] && b[0] != MINUS
    ensures ParseTemperature([MINUS] + b) ==
            match ParseTemperature(b) case Some(t) => Some(-t) case None => None
  {
    assert ([MINUS] + b)[1..] == b;
  }

  lemma ParseTenths(magnitude: int)
    requires 0 <= magnitude < 1000
    ensures ParseTemperature(TenthsBytes(magnitude)) == Some(magnitude)
    ensures ParseTemperature([MINUS] + TenthsBytes(magnitude)) == Some(-magnitude)
  {
    DigitsOfTenths(magnitude);
    ParseSigned(TenthsBytes(magnitude));
  }

  lemma FormattedBytes(value: int)
    requires -999 <= value <= 999
    ensures Utf8.Encode(FormatTenths(value)) ==
            if value < 0 then [MINUS] + TenthsBytes(-value) else TenthsBytes(value)
  {
    var magnitude := if value < 0 then -value else value;
    if magnitude >= 100 {
      TwoDigits(magnitude / 10);
    }
    var digits := Decimal.Digits(magnitude / 10) + "." + Decimal.Digits(magnitude % 10);
    assert FormatTenths(value) == (if value < 0 then "-" else "") + digits;
    Utf8.AsciiBytes(digits);
    assert Utf8.Encode(digits) == TenthsBytes(magnitude);
    if value < 0 {
      Utf8.AsciiBytes("-");
      Utf8.EncodeAppends("-", digits);
    } else {
      assert "" + digits == digits;
    }
  }

  /** Formatting and parsing are inverse on every temperature a file can hold. */
  lemma ParseFormatted(value: int)
    requires -999 <= value <= 999
    ensures FormatTenths(value) != "" && ParseTemperature(Utf8.Encode(FormatTenths(value))) == Some(value)
  {
    FormattedBytes(value);
    ParseTenths(if value < 0 then -value else value);
  }

  // ----- The whole report -----

  predicate StationLe(a: Station, b: Station) {
    LexLe(a, b)
  }

  lemma StationOrder()
    ensures Order(StationLe)
  {
    forall a: Station, b: Station
      ensures StationLe(a, b) || StationLe(b, a)
      ensures StationLe(a, b) && StationLe(b, a) ==> a == b
    {
      LexTotal(a, b);
    }
    forall a: Station, b: Station, c: Station | StationLe(a, b) && StationLe(b, c)
      ensures StationLe(a, c)
    {
      LexTransitive(a, b, c);
    }
    forall a: Station
      ensures StationLe(a, a)
    {
      LexTotal(a, a);
    }
  }

  /** Every station of the table once, in byte order. */
  ghost predicate Listing(table: Table, stations: seq<Station>) {
    Sorted(stations, StationLe) && multiset(stations) == multiset(table.Keys)
  }

  function Entry(station: Station, value: Stats): seq<byte>
    requires Wrap64(2 * value.count) != 0
  {
    station + Utf8.Encode("=" + FormatTenths(value.min)
                          + "/" + FormatTenths(RoundTowardPositive(value.sum, value.count))
                          + "/" + FormatTenths(value.max))
  }

  predicate Printable(table: Table) {
    forall station | station in table :: Wrap64(2 * table[station].count) != 0
  }

  /** The entries of some stations, in their order. */
  function EntriesOf(table: Table, stations: seq<Station>): (entries: seq<seq<byte>>)
    requires Printable(table) && forall s | s in stations :: s in table
    ensures |entries| == |stations|
    ensures forall k | 0 <= k < |stations| :: stations[k] in stations && entries[k] == Entry(stations[k], table[stations[k]])
  {
    seq(|stations|, k requires 0 <= k < |stations| => assert stations[k] in stations; Entry(stations[k], table[stations[k]]))
  }

  /** A comma and a blank between each two. */
  function Separated(parts: seq<seq<byte>>): seq<byte> {
    if parts == [] then []
    else if |parts| == 1 then parts[0]
    else parts[0] + [44, 32] + Separated(parts[1..])
  }

  lemma {:induction false} SeparatedGrows(parts: seq<seq<byte>>, last: seq<byte>)
    ensures Separated(parts + [last]) == Separated(parts) + (if parts == [] then [] else [44, 32]) + last
  {
    if parts != [] {
      SeparatedGrows(parts[1..], last);
      assert (parts + [last])[1..] == parts[1..] + [last];
    }
  }

  function Rendered(table: Table, stations: seq<Station>): seq<byte>
    requires Printable(table) && forall s | s in stations :: s in table
  {
    Utf8.Encode("{") + Separated(EntriesOf(table, stations)) + Utf8.Encode("}")
  }

  /** The entries of all stations, each once and in byte order. */
  ghost predicate IsReport(table: Table, out: seq<byte>)
    requires Printable(table)
  {
    exists stations ::
      Listing(table, stations) && (forall s | s in stations :: s in table) && out == Rendered(table, stations)
  }

  /** The keys of the map, in the arbitrary order a range over it yields them. */
  method CollectStations(aggregates: Aggregation) returns (names: seq<Station>)
    requires aggregates.Valid()
    ensures multiset(names) == multiset(aggregates.View.Keys)
  {
    names := [];
    var todo := aggregates.cells.Keys;
    while todo != {}
      invariant todo <= aggregates.cells.Keys
      invariant multiset(names) + multiset(todo) == multiset(aggregates.cells.Keys)
      decreases todo
    {
      var name :| name in todo;
      names, todo := names + [name], todo - {name};
    }
  }

  lemma SortedNamesAreListing(table: Table, names: seq<Station>)
    requires multiset(names) == multiset(table.Keys)
    ensures Listing(table, Sort(names, StationLe)) && forall s | s in Sort(names, StationLe) :: s in table
  {
    StationOrder();
    SortSorts(names, StationLe);
    SameMembersOfSet(Sort(names, StationLe), table.Keys);
  }

  lemma RenderedIsReport(table: Table, stations: seq<Station>)
    requires Printable(table) && Listing(table, stations) && forall s | s in stations :: s in table
    ensures IsReport(table, Rendered(table, stations))
  {
  }

  /** Prints a table: the map is walked in any order, the stations are then sorted. */
  method FormatOfficialResults(aggregates: Aggregation) returns (out: seq<byte>)
    requires aggregates.Valid() && Printable(aggregates.View)
    ensures IsReport(aggregates.View, out)
  {
    var names := CollectStations(aggregates);
    var sorted := Sort(names, StationLe);
    SortedNamesAreListing(aggregates.View, names);
    var parts := JoinEntries(aggregates, sorted);
    RenderedIsReport(aggregates.View, sorted);
    out := Utf8.Encode("{") + parts + Utf8.Encode("}");
  }

  lemma SeparatedOneMore(parts: seq<seq<byte>>, i: nat)
    requires i < |parts|
    ensures Separated(parts[..i + 1]) == Separated(parts[..i]) + (if i == 0 then [] else [44, 32]) + parts[i]
  {
    SeparatedGrows(parts[..i], parts[i]);
    assert parts[..i + 1] == parts[..i] + [parts[i]];
  }

  lemma Comma()
    ensures Utf8.Encode(", ") == [44, 32]
  {
    Utf8.AsciiBytes(", ");
  }

  method JoinEntries(aggregates: Aggregation, stations: seq<Station>) returns (parts: seq<byte>)
    requires aggregates.Valid() && Printable(aggregates.View)
    requires forall s | s in stations :: s in aggregates.View
    ensures parts == Separated(EntriesOf(aggregates.View, stations))
  {
    ghost var entries := EntriesOf(aggregates.View, stations);
    parts := [];
    for i := 0 to |stations|
      invariant parts == Separated(entries[..i])
    {
      SeparatedOneMore(entries, i);
      Comma();
      var value := aggregates.cells[stations[i]].Value();
      parts := parts + (if i == 0 then [] else Utf8.Encode(", ")) + Entry(stations[i], value);
    }
    assert entries[..|stations|] == entries;
  }

  lemma SameMembersOfSet(s: seq<Station>, keys: set<Station>)
    requires multiset(s) == multiset(keys)
    ensures forall x :: x in s <==> x in keys
  {
    forall x
      ensures x in s <==> x in keys
    {
      assert x in s <==> x in multiset(s);
    }
  }

  /** A table has one report, whatever order the map is walked in. */
  lemma ReportIsDetermined(table: Table, a: seq<byte>, b: seq<byte>)
    requires Printable(table) && IsReport(table, a) && IsReport(table, b)
    ensures a == b
  {
    var s :| Listing(table, s) && (forall x | x in s :: x in table) && a == Rendered(table, s);
    var t :| Listing(table, t) && (forall x | x in t :: x in table) && b == Rendered(table, t);
    StationOrder();
    SortedIsUnique(s, t, StationLe);
  }

  /** The table of any readable file can be printed: no count is or wraps to zero. */
  lemma ReadableIsPrintable(content: seq<byte>)
    requires Rows(content).Ok? && |content| < TWO_63
    ensures Printable(Summary(Rows(content).value))
  {
    var table := Summary(Rows(content).value);
    forall station | station in table
      ensures Wrap64(2 * table[station].count) != 0
    {
      StationsHaveReadings(Rows(content).value, station);
      ReadingsAreTenths(content, station);
      WrapKeeps(|Readings(Rows(content).value, station)|);
      DoubleIsNotZero(table[station].count);
    }
  }

  lemma DoubleIsNotZero(n: int)
    requires 0 < n < TWO_63
    ensures Wrap64(2 * n) != 0
  {
  }
}
