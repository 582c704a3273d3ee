/**
  A file of 2^63 - 1 bytes, the largest there is.

  It is the one size at which the offsets of three or more workers overflow and can still be read at.
  Every other worker then starts over at the first line, so rows are counted more than once.
 */
module LargestFile {
  import opened Wrappers
  import opened Aggregates
  import opened Measurements
  import opened Ranges

  const LARGEST: int := TWO_63 - 1

  // ----- Walking over boundaries that go back and forth -----

  /** Counts something between two positions. */
  type Count = (int, int) -> nat

  ghost predicate Additive(content: seq<byte>, c: Count) {
    forall x, y, z | x <= y <= z && LineStart(content, x) && LineStart(content, y) && LineStart(content, z) ::
      c(x, z) == c(x, y) + c(y, z)
  }

  /** What is counted along the ranges kept from the first k pairs of boundaries. */
  function Walked(c: Count, bounds: seq<int>, k: nat): nat
    requires k < |bounds|
  {
    if k == 0 then 0
    else Walked(c, bounds, k - 1) + if bounds[k - 1] < bounds[k] then c(bounds[k - 1], bounds[k]) else 0
  }

  ghost predicate LineStarts(content: seq<byte>, bounds: seq<int>) {
    forall w | 0 <= w < |bounds| :: LineStart(content, bounds[w])
  }

  /** What lies between the first and the highest boundary is counted at least once. */
  lemma {:induction false} WalkedAtLeastOnce(content: seq<byte>, c: Count, bounds: seq<int>, k: nat)
    requires k < |bounds| && LineStarts(content, bounds) && Additive(content, c)
    ensures c(bounds[0], Highest(bounds, k)) <= Walked(c, bounds, k)
  {
    if k == 0 {
      assert c(bounds[0], bounds[0]) == c(bounds[0], bounds[0]) + c(bounds[0], bounds[0]);
    } else {
      WalkedAtLeastOnce(content, c, bounds, k - 1);
      var a, b, h := bounds[k - 1], bounds[k], Highest(bounds, k - 1);
      if h < b {
        assert c(bounds[0], b) == c(bounds[0], h) + c(h, b);
        assert c(a, b) == c(a, h) + c(h, b);
      }
    }
  }

  ghost predicate SixBytesEach(content: seq<byte>, c: Count) {
    forall x, z | x <= z && LineStart(content, x) && LineStart(content, z) :: 6 * c(x, z) <= z - x + 1
  }

  /** With k boundaries up to m, at most k * (m + 1) bytes are walked over. */
  lemma {:induction false} WalkedBound(content: seq<byte>, c: Count, bounds: seq<int>, k: nat, m: nat)
    requires k < |bounds| && LineStarts(content, bounds)
    requires SixBytesEach(content, c)
    requires forall w | 0 <= w <= k :: bounds[w] <= m
    ensures 6 * Walked(c, bounds, k) <= (m + 1) * k
  {
    if k > 0 {
      WalkedBound(content, c, bounds, k - 1, m);
      assert (m + 1) * k == (m + 1) * (k - 1) + (m + 1);
    }
  }

  lemma {:induction false} WalkedSplits(c: Count, bounds: seq<int>, v: nat, k: nat)
    requires v <= k < |bounds|
    ensures Walked(c, bounds, k) == Walked(c, bounds, v) + Walked(c, bounds[v..], k - v)
  {
    if v < k {
      WalkedSplits(c, bounds, v, k - 1);
    }
  }

  /** A walk that goes beyond a stretch, then back before it and on to the end, counts the stretch twice. */
  lemma WalkedTwice(content: seq<byte>, c: Count, bounds: seq<int>, n: nat, e: nat, f: nat)
    requires 3 <= n == |bounds| - 1 && Aligned(content, bounds) && Additive(content, c)
    requires bounds[n] == |content| && bounds[2] == e <= f < bounds[1] && LineStart(content, f)
    requires c(e, f) > 0
    ensures c(0, |content|) < Walked(c, bounds, n)
  {
    var rest := bounds[2..];
    assert forall w | 0 <= w < |rest| :: rest[w] == bounds[w + 2];
    WalkedAtLeastOnce(content, c, rest, n - 2);
    assert Highest(rest, n - 2) == |content| by {
      assert rest[n - 2] == |content|;
    }
    WalkedSplits(c, bounds, 2, n);
    assert Walked(c, bounds, 1) == c(0, bounds[1]);
    assert c(0, bounds[1]) == c(0, e) + c(e, bounds[1]);
    assert c(e, bounds[1]) == c(e, f) + c(f, bounds[1]);
    assert c(0, |content|) == c(0, e) + c(e, |content|);
  }

  // ----- Counting the readings of a station -----

  /** How many readings of a station lie between two line starts of a readable file. */
  ghost function CountIn(content: seq<byte>, x: int, z: int, station: Station): nat {
    |Readings(RowsOr(Rows(Piece(content, ByteRange(x, z)))), station)|
  }

  ghost function Counter(content: seq<byte>, station: Station): Count {
    (x, z) => CountIn(content, x, z, station)
  }

  lemma RowsJoin(s: seq<byte>, a: seq<byte>, b: seq<byte>)
    requires s == a + b && LineStart(s, |a|)
    ensures Joins(Rows(s), Rows(a), Rows(b))
  {
    RowsSplit(s, |a|);
    assert s[..|a|] == a && s[|a|..] == b;
  }

  lemma JoinedCounts(whole: Result<seq<Row>, ReadError>, a: Result<seq<Row>, ReadError>, b: Result<seq<Row>, ReadError>, station: Station)
    requires Joins(whole, a, b) && whole.Ok?
    ensures |Readings(RowsOr(whole), station)| == |Readings(RowsOr(a), station)| + |Readings(RowsOr(b), station)|
  {
    ReadingsAppend(a.value, b.value, station);
  }

  lemma PiecesJoin(content: seq<byte>, x: nat, y: nat, z: nat)
    requires x <= y <= z <= |content| && LineStart(content, y)
    ensures content[x..z] == content[x..y] + content[y..z] && LineStart(content[x..z], |content[x..y]|)
  {
  }

  lemma CounterAdds(content: seq<byte>, station: Station)
    requires Rows(content).Ok?
    ensures Additive(content, Counter(content, station))
  {
    forall x, y, z | x <= y <= z && LineStart(content, x) && LineStart(content, y) && LineStart(content, z)
      ensures CountIn(content, x, z, station) == CountIn(content, x, y, station) + CountIn(content, y, z, station)
    {
      RowsOfPiece(content, x, z);
      PiecesJoin(content, x, y, z);
      RowsJoin(content[x..z], content[x..y], content[y..z]);
      JoinedCounts(Rows(content[x..z]), Rows(content[x..y]), Rows(content[y..z]), station);
    }
  }

  lemma CountBound(content: seq<byte>, x: nat, z: nat, station: Station)
    requires x <= z && LineStart(content, x) && LineStart(content, z) && Rows(content).Ok?
    ensures 6 * CountIn(content, x, z, station) <= z - x + 1
  {
    RowsOfPiece(content, x, z);
    RowsTakeSixBytes(content[x..z]);
    FewerReadings(Rows(content[x..z]).value, station);
  }

  lemma GatherPlusOne(ranges: seq<ByteRange>, r: ByteRange, rows: ByteRange -> seq<Row>, station: Station)
    ensures |Readings(Gather(ranges + [r], rows), station)|
            == |Readings(Gather(ranges, rows), station)| + |Readings(rows(r), station)|
  {
    GatherAppends(ranges, [r], rows);
    assert Gather([r], rows) == rows(r) + Gather([], rows) == rows(r);
    ReadingsAppend(Gather(ranges, rows), rows(r), station);
  }

  lemma {:induction false} GatheredIsWalked(rows: ByteRange -> seq<Row>, c: Count, bounds: seq<int>, k: nat, station: Station)
    requires k < |bounds| && forall x, z :: c(x, z) == |Readings(rows(ByteRange(x, z)), station)|
    ensures |Readings(Gather(Kept(bounds, k), rows), station)| == Walked(c, bounds, k)
  {
    if k > 0 {
      GatheredIsWalked(rows, c, bounds, k - 1, station);
      KeptNext(bounds, k);
      if bounds[k - 1] < bounds[k] {
        GatherPlusOne(Kept(bounds, k - 1), ByteRange(bounds[k - 1], bounds[k]), rows, station);
      }
    }
  }

  lemma KeptNext(bounds: seq<int>, k: nat)
    requires 0 < k < |bounds|
    ensures Kept(bounds, k) ==
            if bounds[k - 1] < bounds[k] then Kept(bounds, k - 1) + [ByteRange(bounds[k - 1], bounds[k])]
            else Kept(bounds, k - 1)
  {
  }

  // ----- The boundaries of the largest file -----

  /** In a readable file the boundary is within a buffer's length of its target. */
  lemma BoundaryIsNear(content: seq<byte>, t: nat)
    requires Rows(content).Ok? && t + MAX_TOKEN <= |content|
    ensures t < NewlineBoundary(content, t) <= t + MAX_TOKEN
  {
    ReadableLinesAreShort(content);
    BoundaryIsNextLineStart(content, t);
    var at := LineOf(content, t);
    var k :| at <= k < at + MAX_TOKEN && content[k] == NEWLINE;
  }

  /** How far the boundaries but the last reach. */
  const REACH: int := TWO_63 / 3 + MAX_TOKEN

  lemma InnerTarget(workers: int, w: int)
    requires 3 <= workers <= 32 && 1 <= w < workers
    ensures 0 <= Target(LARGEST, w, workers) <= TWO_63 / 3
    ensures w == 1 ==> Target(LARGEST, w, workers) > TWO_63 / 64
    ensures w == 2 ==> Target(LARGEST, w, workers) == 0
  {
    LargestSizeTarget(w, workers);
    TargetIsLow(w, workers);
  }

  lemma BoundaryOfTarget(content: seq<byte>, workers: int, w: nat)
    requires |content| == LARGEST && 1 <= w < workers
    ensures Boundaries(content, workers)[w] == NewlineBoundary(content, Target(LARGEST, w, workers))
  {
  }

  lemma InnerBoundary(content: seq<byte>, workers: int, w: nat)
    requires |content| == LARGEST && 3 <= workers <= 32 && w < workers && Rows(content).Ok?
    ensures Boundaries(content, workers)[w] <= REACH
    ensures w == 1 ==> Boundaries(content, workers)[w] > TWO_63 / 64
    ensures w == 2 ==> Boundaries(content, workers)[w] == NewlineBoundary(content, 0)
  {
    if w > 0 {
      InnerTarget(workers, w);
      BoundaryOfTarget(content, workers, w);
      BoundaryIsNear(content, Target(LARGEST, w, workers));
    }
  }

  lemma TargetIsLow(w: int, workers: int)
    requires 3 <= workers <= 32 && 1 <= w < workers
    ensures 0 <= (TWO_63 - w) / workers <= TWO_63 / 3
    ensures w == 1 ==> (TWO_63 - w) / workers > TWO_63 / 64
  {
    ProductsAscend(TWO_63 / 3 + 1, 3, workers);
    QuotientBelow(TWO_63 - w, TWO_63 / 3, workers);
    if w == 1 {
      ProductsAscend(TWO_63 / 64 + 1, workers, 32);
      QuotientAbove(TWO_63 - w, TWO_63 / 64 + 1, workers);
    }
  }

  lemma SomeReading(s: seq<byte>) returns (station: Station)
    requires s != [] && Rows(s).Ok?
    ensures |Readings(RowsOr(Rows(s)), station)| > 0
  {
    var rows := Rows(s).value;
    station := rows[0].station;
    assert rows == [rows[0]] + rows[1..];
  }

  lemma BoundaryStartsLine(content: seq<byte>, t: nat)
    requires t < |content|
    ensures LineStart(content, NewlineBoundary(content, t))
  {
    NewlineSeen(content, t);
  }

  lemma NextLine(content: seq<byte>, t: nat) returns (e: nat)
    requires Rows(content).Ok? && t + MAX_TOKEN <= |content|
    ensures e == NewlineBoundary(content, t) && t < e <= t + MAX_TOKEN && LineStart(content, e)
  {
    BoundaryIsNear(content, t);
    BoundaryStartsLine(content, t);
    e := NewlineBoundary(content, t);
  }

  lemma SecondLine(content: seq<byte>) returns (e: nat, f: nat, station: Station)
    requires |content| == LARGEST && Rows(content).Ok?
    ensures e == NewlineBoundary(content, 0) && e <= f <= 2 * MAX_TOKEN
    ensures LineStart(content, e) && LineStart(content, f) && CountIn(content, e, f, station) > 0
  {
    e := NextLine(content, 0);
    f := NextLine(content, e);
    RowsOfPiece(content, e, f);
    station := SomeReading(content[e..f]);
    assert Piece(content, ByteRange(e, f)) == content[e..f];
  }

  lemma WrapsApart(a: nat, b: nat)
    requires a < b < TWO_64
    ensures Wrap64(a) != Wrap64(b)
  {
  }

  lemma CountsDiffer(content: seq<byte>, workers: int) returns (station: Station)
    requires |content| == LARGEST && 3 <= workers <= 32 && Rows(content).Ok?
    ensures CountIn(content, 0, LARGEST, station)
            < Walked(Counter(content, station), Boundaries(content, workers), workers) < TWO_64
  {
    var bounds := Boundaries(content, workers);
    var e, f;
    e, f, station := SecondLine(content);
    BoundariesAreAligned(content, workers);
    CounterAdds(content, station);
    InnerBoundary(content, workers, 1);
    InnerBoundary(content, workers, 2);
    WalkedTwice(content, Counter(content, station), bounds, workers, e, f);
    WalkIsBounded(content, workers, station);
  }

  lemma CounterIsSixBytesEach(content: seq<byte>, station: Station)
    requires Rows(content).Ok?
    ensures SixBytesEach(content, Counter(content, station))
  {
    forall x, z | x <= z && LineStart(content, x) && LineStart(content, z)
      ensures 6 * CountIn(content, x, z, station) <= z - x + 1
    {
      CountBound(content, x, z, station);
    }
  }

  lemma InnerBoundaries(content: seq<byte>, workers: int)
    requires |content| == LARGEST && 3 <= workers <= 32 && Rows(content).Ok?
    ensures forall w | 0 <= w <= workers - 1 :: Boundaries(content, workers)[w] <= REACH
  {
    forall w | 0 <= w <= workers - 1
      ensures Boundaries(content, workers)[w] <= REACH
    {
      InnerBoundary(content, workers, w);
    }
  }

  lemma WalkIsBounded(content: seq<byte>, workers: int, station: Station)
    requires |content| == LARGEST && 3 <= workers <= 32 && Rows(content).Ok?
    ensures Walked(Counter(content, station), Boundaries(content, workers), workers) < TWO_64
  {
    CounterIsSixBytesEach(content, station);
    InnerBoundaries(content, workers);
    BoundariesAreAligned(content, workers);
    LastStepIsBounded(content, Counter(content, station), Boundaries(content, workers), workers);
  }

  lemma LastStepIsBounded(content: seq<byte>, c: Count, bounds: seq<int>, n: nat)
    requires |content| == LARGEST && 3 <= n <= 32 && |bounds| == n + 1 && LineStarts(content, bounds)
    requires SixBytesEach(content, c) && forall w | 0 <= w <= n - 1 :: bounds[w] <= REACH
    ensures Walked(c, bounds, n) < TWO_64
  {
    WalkedBound(content, c, bounds, n - 1, REACH);
    ProductsAscend(REACH + 1, n - 1, 31);
    var a, b := bounds[n - 1], bounds[n];
    var last := if a < b then c(a, b) else 0;
    LastStep(content, c, a, b);
    SmallSum(Walked(c, bounds, n - 1), last);
  }

  lemma LastStep(content: seq<byte>, c: Count, a: int, b: int)
    requires |content| == LARGEST && SixBytesEach(content, c) && LineStart(content, a) && LineStart(content, b)
    ensures 6 * (if a < b then c(a, b) else 0) <= LARGEST + 1
  {
  }

  lemma SmallSum(walked: nat, last: nat)
    requires 6 * walked <= (REACH + 1) * 31 && 6 * last <= LARGEST + 1
    ensures walked + last < TWO_64
  {
  }

  /** Three or more workers read a readable file of this size without error, and give a wrong table. */
  lemma LargestFileIsMiscounted(content: seq<byte>, workers: int)
    requires |content| == LARGEST && 3 <= workers <= 32 && Rows(content).Ok?
    ensures Summary(Gather(RangesOf(content, workers), PieceRows(content))) != Summary(Rows(content).value)
  {
    var station := CountsDiffer(content, workers);
    GatheredIsWalked(PieceRows(content), Counter(content, station), Boundaries(content, workers), workers, station);
    WholeCount(content, station);
    OtherCounts(Gather(RangesOf(content, workers), PieceRows(content)), Rows(content).value, station);
  }

  lemma WholeCount(content: seq<byte>, station: Station)
    requires Rows(content).Ok?
    ensures CountIn(content, 0, |content|, station) == |Readings(Rows(content).value, station)|
  {
    assert Piece(content, ByteRange(0, |content|)) == content;
  }

  lemma OtherCounts(all: seq<Row>, once: seq<Row>, station: Station)
    requires |Readings(once, station)| < |Readings(all, station)| < TWO_64
    ensures Summary(all) != Summary(once)
  {
    StationsHaveReadings(all, station);
    StationsHaveReadings(once, station);
    WrapsApart(|Readings(once, station)|, |Readings(all, station)|);
    assert station in Summary(all) && Summary(all)[station].count == Wrap64(|Readings(all, station)|);
    assert station in Summary(once) ==> Summary(once)[station].count == Wrap64(|Readings(once, station)|);
  }

  /** `a;10.0` and a newline. */
  const LONGER_ROW: seq<byte> := [97, 59, 49, 48, 46, 48, 10]

  lemma LongerRowReads(rest: seq<byte>)
    ensures FirstRow(LONGER_ROW + rest) == Ok(Row([97], 100)) && AfterLine(LONGER_ROW + rest) == rest
  {
    var s, line := LONGER_ROW + rest, LONGER_ROW[..6];
    assert s[6] == NEWLINE && IndexByte(s, NEWLINE) == 6;
    assert s[..6] == line == [97, 59, 49, 48, 46, 48];
    assert line[1] == SEMICOLON && IndexByte(line, SEMICOLON) == 1;
    assert line[2..] == [49, 48, 46, 48] && line[..1] == [97];
  }

  lemma ReadableCopies(n: nat)
    ensures Rows(Copies(ROW, n)).Ok? && |Copies(ROW, n)| == 6 * n
  {
    RowReads();
    CopiesRead(ROW, Row([97], 10), n);
    CopiesLength(ROW, n);
  }

  lemma ReadableOfLength(n: nat) returns (content: seq<byte>)
    ensures |content| == 7 + 6 * n && Rows(content).Ok?
  {
    var rest := Copies(ROW, n);
    ReadableCopies(n);
    LongerRowBefore(rest);
    content := LONGER_ROW + rest;
  }

  lemma LongerRowBefore(rest: seq<byte>)
    requires Rows(rest).Ok?
    ensures Rows(LONGER_ROW + rest).Ok? && |LONGER_ROW + rest| == 7 + |rest|
  {
    LongerRowReads(rest);
    OneMoreRow(LONGER_ROW + rest, Row([97], 100), rest, Rows(rest).value);
  }

  /** For every number of workers from three on there is a readable file of this size that they miscount. */
  lemma SomeLargestFileIsMiscounted(workers: int) returns (content: seq<byte>)
    requires 3 <= workers <= 32
    ensures |content| == LARGEST && Rows(content).Ok?
    ensures Summary(Gather(RangesOf(content, workers), PieceRows(content))) != Summary(Rows(content).value)
  {
    content := ReadableOfLength(FITTING);
    SixDivides();
    LargestFileIsMiscounted(content, workers);
  }

  const FITTING: nat := 0x1555_5555_5555_5554

  lemma SixDivides()
    ensures 7 + 6 * FITTING == LARGEST
  {
  }
}
