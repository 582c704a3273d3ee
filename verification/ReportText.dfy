/** The report's bytes: a brace, the entries in byte order, comma and blank between them, a brace. */
module ReportText {
  import opened Wrappers
  import opened Sequences
  import opened Aggregates
  import opened Measurements
  import opened Ranges
  import opened Report
  import Utf8

  /** A sign, one or two digits, a point and one digit. */
  predicate Shows(text: seq<byte>, t: int) {
    var m := if t < 0 then -t else t;
    && m < 1000
    && text == (if t < 0 then [45] else []) + (if m >= 100 then [48 + m / 100] else []) + [48 + m / 10 % 10, 46, 48 + m % 10]
  }

  lemma PrintedShows(t: int)
    requires -999 <= t <= 999
    ensures Shows(Utf8.Encode(FormatTenths(t)), t)
  {
    FormattedBytes(t);
    DigitsOfTenths(if t < 0 then -t else t);
  }

  /** Station, equals sign, least reading, slash, mean rounded half up, slash, greatest reading. */
  ghost predicate ShowsReadings(entry: seq<byte>, station: Station, temps: seq<int>) {
    exists least, mean, greatest, lo, hi :: ShowsAs(entry, station, temps, least, mean, greatest, lo, hi)
  }

  predicate ShowsAs(entry: seq<byte>, station: Station, temps: seq<int>, least: seq<byte>, mean: seq<byte>, greatest: seq<byte>,
                    lo: int, hi: int) {
    && entry == station + [61] + least + [47] + mean + [47] + greatest
    && temps != [] && Shows(mean, (Sum(temps) as real / |temps| as real + 0.5).Floor)
    && Shows(least, lo) && Shows(greatest, hi)
    && lo in temps && hi in temps && forall t | t in temps :: lo <= t <= hi
  }

  lemma EncodedParts(a: string, b: string, c: string, d: string, e: string, f: string)
    ensures Utf8.Encode(a + b + c + d + e + f)
            == Utf8.Encode(a) + Utf8.Encode(b) + Utf8.Encode(c) + Utf8.Encode(d) + Utf8.Encode(e) + Utf8.Encode(f)
  {
    Utf8.EncodeAppends(a, b);
    Utf8.EncodeAppends(a + b, c);
    Utf8.EncodeAppends(a + b + c, d);
    Utf8.EncodeAppends(a + b + c + d, e);
    Utf8.EncodeAppends(a + b + c + d + e, f);
  }

  lemma Punctuation()
    ensures Utf8.Encode("=") == [61] && Utf8.Encode("/") == [47] && Utf8.Encode(", ") == [44, 32]
    ensures Utf8.Encode("{") == [123] && Utf8.Encode("}") == [125]
  {
    Utf8.AsciiBytes("=");
    Utf8.AsciiBytes("/");
    Utf8.AsciiBytes(", ");
    Utf8.AsciiBytes("{");
    Utf8.AsciiBytes("}");
  }

  lemma JoinedBehind(station: seq<byte>, a: seq<byte>, b: seq<byte>, c: seq<byte>, d: seq<byte>, e: seq<byte>, f: seq<byte>)
    ensures station + (a + b + c + d + e + f) == station + a + b + c + d + e + f
  {
  }

  lemma EntryBytes(station: Station, value: Stats)
    requires Wrap64(2 * value.count) != 0
    ensures Entry(station, value) ==
            station + [61] + Utf8.Encode(FormatTenths(value.min))
            + [47] + Utf8.Encode(FormatTenths(RoundTowardPositive(value.sum, value.count)))
            + [47] + Utf8.Encode(FormatTenths(value.max))
  {
    var least, mean, greatest := FormatTenths(value.min), FormatTenths(RoundTowardPositive(value.sum, value.count)), FormatTenths(value.max);
    EncodedParts("=", least, "/", mean, "/", greatest);
    Punctuation();
    JoinedBehind(station, [61], Utf8.Encode(least), [47], Utf8.Encode(mean), [47], Utf8.Encode(greatest));
  }

  lemma ShowsAre(entry: seq<byte>, station: Station, temps: seq<int>, stats: Stats, m: int)
    requires temps != [] && stats.min in temps && stats.max in temps && forall t | t in temps :: -999 <= t <= 999
    requires (forall t | t in temps :: stats.min <= t <= stats.max) && stats.min <= m <= stats.max
    requires m == (Sum(temps) as real / |temps| as real + 0.5).Floor
    requires entry == station + [61] + Utf8.Encode(FormatTenths(stats.min)) + [47] + Utf8.Encode(FormatTenths(m))
                      + [47] + Utf8.Encode(FormatTenths(stats.max))
    ensures ShowsReadings(entry, station, temps)
  {
    PrintedShows(stats.min);
    PrintedShows(m);
    PrintedShows(stats.max);
    assert ShowsAs(entry, station, temps, Utf8.Encode(FormatTenths(stats.min)), Utf8.Encode(FormatTenths(m)),
                   Utf8.Encode(FormatTenths(stats.max)), stats.min, stats.max);
  }

  lemma EntryShows(content: seq<byte>, station: Station)
    requires Rows(content).Ok? && |content| < TWO_63 && station in Stations(Rows(content).value)
    requires MeanFits(Sum(Readings(Rows(content).value, station)), |Readings(Rows(content).value, station)|)
    ensures Wrap64(2 * Summary(Rows(content).value)[station].count) != 0
    ensures ShowsReadings(Entry(station, Summary(Rows(content).value)[station]), station, Readings(Rows(content).value, station))
  {
    var stats, temps := Summary(Rows(content).value)[station], Readings(Rows(content).value, station);
    ReportedMeanOfStation(content, station);
    ReadingsAreTenths(content, station);
    EntryBytes(station, stats);
    ShowsAre(Entry(station, stats), station, temps, stats, RoundTowardPositive(stats.sum, stats.count));
  }

  // ----- All entries -----

  function Preceded(entry: seq<byte>): seq<byte> {
    [44, 32] + entry
  }

  lemma {:induction false} SeparatedIsFlat(parts: seq<seq<byte>>)
    requires parts != []
    ensures [44, 32] + Separated(parts) == FlatMap(parts, Preceded)
  {
    var front, last := parts[..|parts| - 1], parts[|parts| - 1];
    SeparatedGrows(front, last);
    assert parts == front + [last];
    if front == [] {
      assert FlatMap(front, Preceded) == [];
    } else {
      SeparatedIsFlat(front);
      assert [44, 32] + (Separated(front) + [44, 32] + last) == ([44, 32] + Separated(front)) + ([44, 32] + last);
    }
  }

  /** These stations, each once and in byte order, and for each what it shows. */
  ghost predicate ReportsStations(out: seq<byte>, body: seq<byte>, stations: seq<Station>, entries: seq<seq<byte>>, rows: seq<Row>) {
    && |entries| == |stations| && out == [123] + body + [125]
    && (if entries == [] then body == [] else [44, 32] + body == FlatMap(entries, Preceded))
    && (forall i, j | 0 <= i < j < |stations| :: LexBefore(stations[i], stations[j]))
    && (forall s :: s in stations <==> exists row :: row in rows && row.station == s)
    && forall k | 0 <= k < |stations| :: ShowsReadings(entries[k], stations[k], Readings(rows, stations[k]))
  }

  lemma OnceEach(stations: seq<Station>, keys: set<Station>, i: nat, j: nat)
    requires multiset(stations) == multiset(keys) && i < j < |stations|
    ensures stations[i] != stations[j]
  {
    OccursTwice(stations, i, j);
    assert multiset(keys)[stations[i]] <= 1;
  }

  lemma ListingIsInByteOrder(table: Table, stations: seq<Station>)
    requires Listing(table, stations)
    ensures forall i, j | 0 <= i < j < |stations| :: LexBefore(stations[i], stations[j])
  {
    forall i, j | 0 <= i < j < |stations|
      ensures LexBefore(stations[i], stations[j])
    {
      OnceEach(stations, table.Keys, i, j);
      assert StationLe(stations[i], stations[j]);
      LexIsBefore(stations[i], stations[j]);
    }
  }

  /**
    The report of a readable file, while the numerators of its means fit in an int64, is an opening
    brace, an entry for every station in byte order, and a closing brace; each entry shows the least,
    the mean and the greatest of the station's readings.
   */
  lemma ReportShows(content: seq<byte>, out: seq<byte>) returns (body: seq<byte>, stations: seq<Station>, entries: seq<seq<byte>>)
    requires Rows(content).Ok? && |content| < TWO_63
    requires forall s | s in Stations(Rows(content).value) ::
               MeanFits(Sum(Readings(Rows(content).value, s)), |Readings(Rows(content).value, s)|)
    requires Printable(Summary(Rows(content).value)) && IsReport(Summary(Rows(content).value), out)
    ensures ReportsStations(out, body, stations, entries, Rows(content).value)
  {
    var table := Summary(Rows(content).value);
    stations :| Listing(table, stations) && (forall s | s in stations :: s in table) && out == Rendered(table, stations);
    ListingIsInByteOrder(table, stations);
    SameMembersOfSet(stations, table.Keys);
    entries := EntriesOf(table, stations);
    body := Separated(entries);
    RenderedIsBraced(table, stations);
    if entries != [] {
      SeparatedIsFlat(entries);
    }
    EntriesShow(content, stations, entries);
    StationsAreThoseOfRows(Rows(content).value, stations);
  }

  lemma RenderedIsBraced(table: Table, stations: seq<Station>)
    requires Printable(table) && (forall s | s in stations :: s in table)
    ensures Rendered(table, stations) == [123] + Separated(EntriesOf(table, stations)) + [125]
  {
    Punctuation();
  }

  lemma EntriesShow(content: seq<byte>, stations: seq<Station>, entries: seq<seq<byte>>)
    requires Rows(content).Ok? && |content| < TWO_63
    requires Printable(Summary(Rows(content).value)) && forall s | s in stations :: s in Summary(Rows(content).value)
    requires forall s | s in stations ::
               s in Stations(Rows(content).value) && MeanFits(Sum(Readings(Rows(content).value, s)), |Readings(Rows(content).value, s)|)
    requires entries == EntriesOf(Summary(Rows(content).value), stations)
    ensures forall k | 0 <= k < |stations| :: ShowsReadings(entries[k], stations[k], Readings(Rows(content).value, stations[k]))
  {
    forall k | 0 <= k < |stations|
      ensures ShowsReadings(entries[k], stations[k], Readings(Rows(content).value, stations[k]))
    {
      assert stations[k] in stations;
      EntryShows(content, stations[k]);
    }
  }

  lemma StationsAreThoseOfRows(rows: seq<Row>, stations: seq<Station>)
    requires forall s :: s in stations <==> s in Stations(rows)
    ensures forall s :: s in stations <==> exists row :: row in rows && row.station == s
  {
  }
}
