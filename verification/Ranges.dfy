/**
  Cutting a measurement file into byte ranges that begin and end at line starts.

  Byte offsets are int64 in the program, so the product that aims a boundary can wrap around;
  `Target` keeps that.
 */
module Ranges {
  import opened Wrappers
  import opened Aggregates
  import opened Measurements

  datatype ByteRange = ByteRange(start: int, end: int)

  /** Division of signed machine integers: the quotient is rounded toward zero. */
  function TruncatingDiv(a: int, b: int): int
    requires b != 0
  {
    var q := (if a < 0 then -a else a) / (if b < 0 then -b else b);
    if (a < 0) == (b < 0) then q else -q
  }

  /** Where worker w starts looking for its first newline. */
  function Target(size: int, w: int, workers: int): int
    requires workers > 0
  {
    TruncatingDiv(Wrap64(size * w), workers)
  }

  /** The bytes a positioned read of the probe buffer returns: fewer than 128 KiB only at the end. */
  function Probe(content: seq<byte>, target: int): seq<byte> {
    if target < 0 || target >= |content| then []
    else if target + MAX_TOKEN <= |content| then content[target..target + MAX_TOKEN]
    else content[target..]
  }

  /** Just after the first newline of the probe, or the end of the file when the probe has none. */
  function NewlineBoundary(content: seq<byte>, target: int): int {
    var probe := Probe(content, target);
    var newline := IndexByte(probe, NEWLINE);
    if newline == |probe| then |content| else target + newline + 1
  }

  function Boundary(content: seq<byte>, workers: int, w: int): int
    requires workers > 0
  {
    if w == 0 then 0
    else if w == workers then |content|
    else NewlineBoundary(content, Target(|content|, w, workers))
  }

  /** Every aimed position is one the file can be read at. */
  predicate SeeksSucceed(size: int, workers: int)
    requires workers > 0
  {
    forall w | 1 <= w < workers :: Target(size, w, workers) >= 0
  }

  function Boundaries(content: seq<byte>, workers: int): (bounds: seq<int>)
    requires workers > 0
    ensures |bounds| == workers + 1
    ensures forall w | 0 <= w <= workers :: bounds[w] == Boundary(content, workers, w)
  {
    seq(workers + 1, w => Boundary(content, workers, w))
  }

  /** The ranges kept from the first k pairs of neighbouring boundaries: those that are not empty. */
  function Kept(bounds: seq<int>, k: nat): seq<ByteRange>
    requires k < |bounds|
  {
    if k == 0 then []
    else Kept(bounds, k - 1) + if bounds[k - 1] < bounds[k] then [ByteRange(bounds[k - 1], bounds[k])] else []
  }

  function RangesOf(content: seq<byte>, workers: int): seq<ByteRange>
    requires workers > 0
  {
    Kept(Boundaries(content, workers), workers)
  }

  method NewlineAlignedRanges(content: seq<byte>, workers: int) returns (r: Result<seq<ByteRange>, ReadError>)
    requires workers > 0
    ensures !SeeksSucceed(|content|, workers) ==> r == Err(NegativeOffset)
    ensures SeeksSucceed(|content|, workers) ==> r == Ok(RangesOf(content, workers))
  {
    var boundaries := new int[workers + 1](_ => 0);
    boundaries[workers] := |content|;
    for w := 1 to workers
      invariant boundaries[0] == 0 && boundaries[workers] == |content|
      invariant forall v | 1 <= v < w :: Target(|content|, v, workers) >= 0
      invariant forall v | 1 <= v < w :: boundaries[v] == NewlineBoundary(content, Target(|content|, v, workers))
    {
      var target := Target(|content|, w, workers);
      if target < 0 {
        return Err(NegativeOffset);
      }
      boundaries[w] := NewlineBoundary(content, target);
    }
    var ranges := KeepNonEmpty(boundaries);
    assert boundaries[..] == Boundaries(content, workers);
    return Ok(ranges);
  }

  method KeepNonEmpty(boundaries: array<int>) returns (ranges: seq<ByteRange>)
    requires boundaries.Length > 0
    ensures ranges == Kept(boundaries[..], boundaries.Length - 1)
  {
    ranges := [];
    for w := 0 to boundaries.Length - 1
      invariant ranges == Kept(boundaries[..], w)
    {
      if boundaries[w] < boundaries[w + 1] {
        ranges := ranges + [ByteRange(boundaries[w], boundaries[w + 1])];
      }
    }
  }

  // ----- Alignment and coverage, for every content -----

  ghost predicate Aligned(content: seq<byte>, bounds: seq<int>) {
    && bounds != [] && bounds[0] == 0
    && forall w | 0 <= w < |bounds| :: LineStart(content, bounds[w])
  }

  lemma BoundariesAreAligned(content: seq<byte>, workers: int)
    requires workers > 0
    ensures Aligned(content, Boundaries(content, workers))
  {
  }

  lemma {:induction false} KeptAreAligned(content: seq<byte>, bounds: seq<int>, k: nat, r: ByteRange)
    requires Aligned(content, bounds) && k < |bounds| && r in Kept(bounds, k)
    ensures 0 <= r.start < r.end <= |content| && LineStart(content, r.start) && LineStart(content, r.end)
  {
    if r in Kept(bounds, k - 1) {
      KeptAreAligned(content, bounds, k - 1, r);
    }
  }

  /** Whatever the boundaries are, walking from 0 up to the k-th crosses every lower position. */
  lemma {:induction false} KeptCover(bounds: seq<int>, k: nat, p: int) returns (r: ByteRange)
    requires k < |bounds| && bounds[0] <= p < bounds[k]
    ensures r in Kept(bounds, k) && r.start <= p < r.end
  {
    if p < bounds[k - 1] {
      r := KeptCover(bounds, k - 1, p);
    } else {
      r := ByteRange(bounds[k - 1], bounds[k]);
    }
  }

  /** The kept ranges cover every byte, and each begins and ends where a line does. */
  lemma RangesCoverAlignedLines(content: seq<byte>, workers: int, p: nat)
    requires workers > 0 && p < |content|
    ensures exists r | r in RangesOf(content, workers) ::
              r.start <= p < r.end <= |content| && LineStart(content, r.start) && LineStart(content, r.end)
  {
    var bounds := Boundaries(content, workers);
    BoundariesAreAligned(content, workers);
    var r := KeptCover(bounds, workers, p);
    KeptAreAligned(content, bounds, workers, r);
  }

  // ----- Ascending boundaries, when no line fills the scanner's buffer -----

  ghost predicate ShortLines(content: seq<byte>) {
    forall at: nat | LineStart(content, at) && at + MAX_TOKEN <= |content| ::
      exists k :: at <= k < at + MAX_TOKEN && content[k] == NEWLINE
  }

  /** The line start at or before t. */
  function LineOf(content: seq<byte>, t: nat): (at: nat)
    requires t < |content|
    ensures at <= t && LineStart(content, at)
    ensures forall k | at <= k < t :: content[k] != NEWLINE
  {
    if t == 0 || content[t - 1] == NEWLINE then t else LineOf(content, t - 1)
  }

  /** With short lines the probe always sees the newline it looks for, if there is one. */
  lemma BoundaryIsNextLineStart(content: seq<byte>, t: nat)
    requires ShortLines(content) && t < |content|
    ensures var b := NewlineBoundary(content, t);
            t < b <= |content| && (b < |content| ==> content[b - 1] == NEWLINE)
            && forall k | t <= k < b - 1 :: content[k] != NEWLINE
  {
    var at, probe := LineOf(content, t), Probe(content, t);
    var newline := IndexByte(probe, NEWLINE);
    assert forall k | 0 <= k < |probe| :: probe[k] == content[t + k];
    forall k | t <= k < t + newline
      ensures content[k] != NEWLINE
    {
      assert probe[k - t] != NEWLINE;
    }
    if at + MAX_TOKEN <= |content| {
      var k :| at <= k < at + MAX_TOKEN && content[k] == NEWLINE;
      assert probe[k - t] == NEWLINE;
    }
  }

  lemma BoundariesFollowTargets(content: seq<byte>, t: nat, u: nat)
    requires ShortLines(content) && t <= u < |content|
    ensures 0 <= NewlineBoundary(content, t) <= NewlineBoundary(content, u) <= |content|
  {
    BoundaryIsNextLineStart(content, t);
    BoundaryIsNextLineStart(content, u);
    var c := NewlineBoundary(content, u);
    assert c == |content| || content[c - 1] == NEWLINE;
  }

  /** Every product that aims a boundary stays within an int64. */
  predicate OffsetsFit(size: int, workers: int) {
    size * (workers - 1) < TWO_63
  }

  lemma ProductsAscend(a: int, b: int, c: int)
    requires 0 <= a && b <= c
    ensures a * b <= a * c
  {
  }

  lemma QuotientBelow(a: int, b: int, d: int)
    requires 0 <= a && d > 0 && a < d * (b + 1)
    ensures 0 <= a / d <= b
  {
    var q := a / d;
    assert a == d * q + a % d;
    if b + 1 <= q {
      ProductsAscend(d, b + 1, q);
    }
  }

  lemma TargetsAscend(size: int, w: int, v: int, workers: int)
    requires 0 < size && 1 <= w <= v < workers && OffsetsFit(size, workers)
    ensures 0 <= Target(size, w, workers) <= Target(size, v, workers) < size
  {
    ProductsAscend(size, 0, w);
    ProductsAscend(size, w, v);
    ProductsAscend(size, v, workers - 1);
    assert Wrap64(size * w) == size * w && Wrap64(size * v) == size * v;
    var q := size * v / workers;
    assert size * v < workers * (q + 1);
    QuotientBelow(size * w, q, workers);
    assert size * v < workers * (size - 1 + 1);
    QuotientBelow(size * v, size - 1, workers);
  }

  lemma BoundaryAscends(content: seq<byte>, workers: int, w: nat)
    requires content != [] && 0 <= w < workers && OffsetsFit(|content|, workers) && ShortLines(content)
    ensures Boundaries(content, workers)[w] <= Boundaries(content, workers)[w + 1]
  {
    var t, u := Target(|content|, w, workers), Target(|content|, w + 1, workers);
    if 1 <= w {
      TargetsAscend(|content|, w, w, workers);
      BoundariesFollowTargets(content, t, t);
    }
    if w + 1 < workers {
      TargetsAscend(|content|, w + 1, w + 1, workers);
      BoundariesFollowTargets(content, u, u);
      if 1 <= w {
        TargetsAscend(|content|, w, w + 1, workers);
        BoundariesFollowTargets(content, t, u);
      }
    }
  }

  ghost predicate Ascending(bounds: seq<int>) {
    forall w | 0 < w < |bounds| :: bounds[w - 1] <= bounds[w]
  }

  /** A boundary was aimed where the probe holds no newline, and the next one lies before the end. */
  predicate MissesNewline(content: seq<byte>, workers: int, w: nat)
    requires workers > 0
  {
    && 1 <= w < workers && NEWLINE !in Probe(content, Target(|content|, w, workers))
    && Boundary(content, workers, w + 1) < |content|
  }

  lemma NewlineSeen(content: seq<byte>, t: nat)
    requires t < |content|
    ensures var probe := Probe(content, t);
            var n := IndexByte(probe, NEWLINE);
            && t + n <= |content| && (forall k | t <= k < t + n :: content[k] != NEWLINE)
            && (NEWLINE in probe ==> t + n < |content| && content[t + n] == NEWLINE && n < |probe|)
  {
    var probe := Probe(content, t);
    forall k | t <= k < t + IndexByte(probe, NEWLINE)
      ensures content[k] != NEWLINE
    {
      assert probe[k - t] == content[k];
    }
  }

  /** The first newline from t on is n bytes behind it. */
  ghost predicate NewlineAfter(content: seq<byte>, t: nat, n: nat) {
    t + n < |content| && content[t + n] == NEWLINE && forall k | t <= k < t + n :: content[k] != NEWLINE
  }

  lemma NewlinesFollow(content: seq<byte>, t: nat, n: nat, u: nat, m: nat)
    requires t <= u && NewlineAfter(content, t, n) && NewlineAfter(content, u, m)
    ensures t + n <= u + m
  {
  }

  lemma BoundaryFollowsUnlessMissed(content: seq<byte>, t: nat, u: nat)
    requires t <= u < |content| && NEWLINE in Probe(content, t)
    ensures NewlineBoundary(content, t) <= NewlineBoundary(content, u)
  {
    NewlineSeen(content, t);
    NewlineSeen(content, u);
    if NEWLINE in Probe(content, u) {
      NewlinesFollow(content, t, IndexByte(Probe(content, t), NEWLINE), u, IndexByte(Probe(content, u), NEWLINE));
    } else {
      NoNewlineNoIndex(Probe(content, u));
    }
  }

  /** Two neighbouring boundaries go backwards exactly if the first misses the newline that the second finds. */
  lemma GoesBackIff(content: seq<byte>, workers: int, w: nat)
    requires content != [] && 0 <= w < workers && OffsetsFit(|content|, workers)
    ensures Boundaries(content, workers)[w] > Boundaries(content, workers)[w + 1] <==> MissesNewline(content, workers, w)
  {
    if 1 <= w {
      TargetsAscend(|content|, w, w, workers);
      var t := Target(|content|, w, workers);
      if NEWLINE in Probe(content, t) {
        if w + 1 < workers {
          TargetsAscend(|content|, w, w + 1, workers);
          BoundaryFollowsUnlessMissed(content, t, Target(|content|, w + 1, workers));
        }
      } else {
        NoNewlineNoIndex(Probe(content, t));
      }
    }
  }

  lemma NoNewlineNoIndex(s: seq<byte>)
    requires NEWLINE !in s
    ensures IndexByte(s, NEWLINE) == |s|
  {
  }

  /** The boundaries ascend exactly if none misses a newline before the next one. */
  lemma BoundariesAscendIff(content: seq<byte>, workers: int)
    requires content != [] && 0 < workers && OffsetsFit(|content|, workers)
    ensures Ascending(Boundaries(content, workers)) <==> forall w: nat :: !MissesNewline(content, workers, w)
  {
    forall w: nat | w < workers
      ensures Boundaries(content, workers)[w] > Boundaries(content, workers)[w + 1] <==> MissesNewline(content, workers, w)
    {
      GoesBackIff(content, workers, w);
    }
    AscendingIff(Boundaries(content, workers), (w: nat) => MissesNewline(content, workers, w));
  }

  lemma AscendingIff(bounds: seq<int>, back: nat -> bool)
    requires forall w: nat | w + 1 < |bounds| :: bounds[w] > bounds[w + 1] <==> back(w)
    requires forall w: nat | w + 1 >= |bounds| :: !back(w)
    ensures Ascending(bounds) <==> forall w :: !back(w)
  {
    if Ascending(bounds) {
      forall w: nat
        ensures !back(w)
      {
        if w + 1 < |bounds| {
          assert bounds[w + 1 - 1] <= bounds[w + 1];
        }
      }
    } else {
      var v :| 0 < v < |bounds| && bounds[v - 1] > bounds[v];
      assert bounds[v - 1] > bounds[v - 1 + 1];
      assert back(v - 1);
    }
  }

  /** Some byte is in two ranges. */
  ghost predicate Overlap(ranges: seq<ByteRange>) {
    exists i, j, p | 0 <= i < j < |ranges| :: InRange(ranges[i], p) && InRange(ranges[j], p)
  }

  predicate InRange(r: ByteRange, p: int) {
    r.start <= p < r.end
  }

  lemma {:induction false} AscendingKeptAreDisjoint(bounds: seq<int>, k: nat)
    requires Ascending(bounds) && k < |bounds|
    ensures forall r | r in Kept(bounds, k) :: r.end <= bounds[k]
    ensures forall i, j | 0 <= i < j < |Kept(bounds, k)| :: Kept(bounds, k)[i].end <= Kept(bounds, k)[j].start
  {
    if k > 0 {
      AscendingKeptAreDisjoint(bounds, k - 1);
      assert bounds[k - 1] <= bounds[k];
    }
  }

  /** Walking on from the v-th boundary adds to the ranges kept up to there. */
  lemma {:induction false} KeptSplits(bounds: seq<int>, v: nat, k: nat)
    requires v <= k < |bounds|
    ensures Kept(bounds, k) == Kept(bounds, v) + Kept(bounds[v..], k - v)
  {
    if v < k {
      KeptSplits(bounds, v, k - 1);
    }
  }

  lemma BackwardsOverlaps(bounds: seq<int>, v: nat, size: int)
    requires 0 < v < |bounds| && bounds[0] == 0 && bounds[v - 1] == size == bounds[|bounds| - 1] && bounds[v] < size && 0 < size
    ensures Overlap(Kept(bounds, |bounds| - 1))
  {
    var n := |bounds| - 1;
    var r := KeptCover(bounds, v - 1, size - 1);
    var rest := bounds[v..];
    assert rest[0] == bounds[v] && rest[n - v] == bounds[n];
    var s := KeptCover(rest, n - v, size - 1);
    KeptSplits(bounds, v, n);
    BothInRange(Kept(bounds, v), Kept(rest, n - v), r, s, size - 1);
  }

  lemma BothInRange(before: seq<ByteRange>, behind: seq<ByteRange>, r: ByteRange, s: ByteRange, p: int)
    requires r in before && s in behind && InRange(r, p) && InRange(s, p)
    ensures Overlap(before + behind)
  {
    var all := before + behind;
    var i :| 0 <= i < |before| && before[i] == r;
    var j :| 0 <= j < |behind| && behind[j] == s;
    assert all[i] == r && all[|before| + j] == s;
  }

  lemma MissedBoundaries(content: seq<byte>, workers: int, w: nat)
    requires content != [] && 0 < workers && OffsetsFit(|content|, workers) && MissesNewline(content, workers, w)
    ensures var bounds := Boundaries(content, workers);
            bounds[0] == 0 && bounds[w] == |content| == bounds[workers] && bounds[w + 1] < |content|
  {
    TargetsAscend(|content|, w, w, workers);
    NoNewlineNoIndex(Probe(content, Target(|content|, w, workers)));
  }

  lemma BackwardsAt(bounds: seq<int>, w: nat, workers: nat, size: int)
    requires w < workers == |bounds| - 1 && 0 < size
    requires bounds[0] == 0 && bounds[w] == size == bounds[workers] && bounds[w + 1] < size
    ensures Overlap(Kept(bounds, workers))
  {
    BackwardsOverlaps(bounds, w + 1, size);
  }

  lemma MissOverlaps(content: seq<byte>, workers: int, w: nat)
    requires content != [] && 0 < workers && OffsetsFit(|content|, workers) && MissesNewline(content, workers, w)
    ensures Overlap(RangesOf(content, workers))
  {
    MissedBoundaries(content, workers, w);
    BackwardsAt(Boundaries(content, workers), w, workers, |content|);
  }

  /** So some byte is read twice exactly if a boundary misses a newline that the next one finds. */
  lemma RangesOverlapIff(content: seq<byte>, workers: int)
    requires content != [] && 0 < workers && OffsetsFit(|content|, workers)
    ensures Overlap(RangesOf(content, workers)) <==> exists w: nat :: MissesNewline(content, workers, w)
  {
    if w: nat :| MissesNewline(content, workers, w) {
      MissOverlaps(content, workers, w);
    } else {
      BoundariesAscendIff(content, workers);
      AscendingKeptAreDisjoint(Boundaries(content, workers), workers);
    }
  }

  /** A file of one line of almost 300000 bytes and a short one: with 32 workers its ranges overlap. */
  lemma LongLineMakesRangesOverlap() returns (content: seq<byte>)
    ensures |content| == 300000 && OffsetsFit(|content|, 32)
    ensures exists w: nat :: MissesNewline(content, 32, w)
    ensures !Ascending(Boundaries(content, 32)) && Overlap(RangesOf(content, 32))
  {
    content := seq(300000, k => if k == 299990 then NEWLINE else 97);
    var t, u := Target(300000, 18, 32), Target(300000, 19, 32);
    assert t == 168750 && u == 178125;
    assert forall k | 0 <= k < |Probe(content, t)| :: Probe(content, t)[k] == content[t + k];
    assert Probe(content, u)[299990 - u] == content[299990];
    NewlineSeen(content, u);
    assert MissesNewline(content, 32, 18);
    BoundariesAscendIff(content, 32);
    RangesOverlapIff(content, 32);
  }

  /** With short lines the boundaries never go backwards, so the ranges are disjoint. */
  lemma BoundariesAscend(content: seq<byte>, workers: int)
    requires content != [] && 0 < workers && OffsetsFit(|content|, workers) && ShortLines(content)
    ensures Ascending(Boundaries(content, workers))
  {
    forall w | 0 < w <= workers
      ensures Boundaries(content, workers)[w - 1] <= Boundaries(content, workers)[w]
    {
      BoundaryAscends(content, workers, w - 1);
    }
  }

  lemma SmallOffsetsCanBeRead(size: int, workers: int)
    requires 0 < size && 0 < workers && OffsetsFit(size, workers)
    ensures SeeksSucceed(size, workers)
  {
    forall w | 1 <= w < workers
      ensures Target(size, w, workers) >= 0
    {
      TargetsAscend(size, w, w, workers);
    }
  }

  // ----- What the ranges of a file read, taken together -----

  function Piece(content: seq<byte>, r: ByteRange): seq<byte> {
    if 0 <= r.start <= r.end <= |content| then content[r.start..r.end] else []
  }

  function RowsOr(r: Result<seq<Row>, ReadError>): seq<Row> {
    if r.Ok? then r.value else []
  }

  ghost function PieceRows(content: seq<byte>): ByteRange -> seq<Row> {
    r => RowsOr(Rows(Piece(content, r)))
  }

  lemma NextPiece(content: seq<byte>, a: nat, b: nat)
    requires a <= b && LineStart(content, a) && LineStart(content, b)
    ensures Joins(Rows(content[..b]), Rows(content[..a]), Rows(content[a..b]))
  {
    assert LineStart(content[..b], a);
    RowsSplit(content[..b], a);
    assert content[..b][..a] == content[..a] && content[..b][a..] == content[a..b];
  }

  lemma KeptAppends(content: seq<byte>, bounds: seq<int>, k: nat)
    requires 0 < k < |bounds| && 0 <= bounds[k - 1] <= bounds[k] <= |content|
    ensures Gather(Kept(bounds, k), PieceRows(content)) ==
            Gather(Kept(bounds, k - 1), PieceRows(content)) + RowsOr(Rows(content[bounds[k - 1]..bounds[k]]))
  {
    var a, b := bounds[k - 1], bounds[k];
    var r := ByteRange(a, b);
    if a < b {
      GatherAppends(Kept(bounds, k - 1), [r], PieceRows(content));
      assert Gather([r], PieceRows(content)) == PieceRows(content)(r) + Gather([], PieceRows(content));
      assert PieceRows(content)(r) + [] == PieceRows(content)(r);
    } else {
      assert content[a..b] == [];
      assert Kept(bounds, k) == Kept(bounds, k - 1);
    }
  }

  /** Ascending boundaries cut a readable file into pieces whose rows, in order, are the file's rows. */
  lemma {:induction false} PiecesHoldTheRows(content: seq<byte>, bounds: seq<int>, k: nat)
    requires Aligned(content, bounds) && Ascending(bounds) && k < |bounds| && Rows(content).Ok?
    ensures Rows(content[..bounds[k]]).Ok?
    ensures Gather(Kept(bounds, k), PieceRows(content)) == Rows(content[..bounds[k]]).value
  {
    if k == 0 {
      assert content[..bounds[0]] == [];
    } else {
      PiecesHoldTheRows(content, bounds, k - 1);
      KeptAppends(content, bounds, k);
      NextPiece(content, bounds[k - 1], bounds[k]);
      RowsSplit(content, bounds[k]);
    }
  }

  lemma ReadableLinesAreShort(content: seq<byte>)
    requires Rows(content).Ok?
    ensures ShortLines(content)
  {
    forall at: nat | LineStart(content, at) && at + MAX_TOKEN <= |content|
      ensures exists k :: at <= k < at + MAX_TOKEN && content[k] == NEWLINE
    {
      ReadableLineIsShort(content, at);
    }
  }

  /** A readable file is split without loss or overlap: its ranges hold its rows in order. */
  lemma ReadableFileIsPartitioned(content: seq<byte>, workers: int)
    requires workers > 0 && content != [] && OffsetsFit(|content|, workers) && Rows(content).Ok?
    ensures Gather(RangesOf(content, workers), PieceRows(content)) == Rows(content).value
  {
    ReadableLinesAreShort(content);
    BoundariesAscend(content, workers);
    BoundariesAreAligned(content, workers);
    PiecesHoldTheRows(content, Boundaries(content, workers), workers);
    assert content[..|content|] == content;
  }

  /** The highest of the boundaries up to the k-th. */
  function Highest(bounds: seq<int>, k: nat): (h: int)
    requires k < |bounds|
    ensures forall w | 0 <= w <= k :: bounds[w] <= h
    ensures h in bounds
  {
    if k == 0 || Highest(bounds, k - 1) <= bounds[k] then bounds[k] else Highest(bounds, k - 1)
  }

  /** Readable ranges make all that they cover readable, in whatever order the boundaries come. */
  lemma {:induction false} ReadablePieces(content: seq<byte>, bounds: seq<int>, k: nat)
    requires Aligned(content, bounds) && k < |bounds|
    requires forall r | r in Kept(bounds, k) :: Rows(Piece(content, r)).Ok?
    ensures Rows(content[..Highest(bounds, k)]).Ok?
  {
    if k == 0 {
      assert content[..bounds[0]] == [];
    } else {
      ReadablePieces(content, bounds, k - 1);
      var a, b, h := bounds[k - 1], bounds[k], Highest(bounds, k - 1);
      if h < b {
        assert ByteRange(a, b) in Kept(bounds, k);
        ReadableOn(content, a, h, b);
      }
    }
  }

  lemma ReadableOn(content: seq<byte>, a: nat, h: nat, b: nat)
    requires a <= h <= b && LineStart(content, a) && LineStart(content, h) && LineStart(content, b)
    requires Rows(content[..h]).Ok? && Rows(Piece(content, ByteRange(a, b))).Ok?
    ensures Rows(content[..b]).Ok?
  {
    NextPiece(content, a, h);
    NextPiece(content, a, b);
  }

  /** A line that fills the scanner's buffer without a newline starts at `at`. */
  predicate LongLineAt(s: seq<byte>, at: nat) {
    LineStart(s, at) && at + MAX_TOKEN <= |s| && forall k | at <= k < at + MAX_TOKEN :: s[k] != NEWLINE
  }

  lemma LongLineIsUnreadable(s: seq<byte>, at: nat)
    requires LongLineAt(s, at)
    ensures Rows(s).Err?
  {
    if Rows(s).Ok? {
      ReadableLineIsShort(s, at);
    }
  }

  lemma LongLineInPiece(content: seq<byte>, start: nat, end: nat, at: nat)
    requires LongLineAt(content, at) && start <= at && at + MAX_TOKEN <= end <= |content|
    ensures LongLineAt(content[start..end], at - start)
  {
  }

  lemma FindLongLine(content: seq<byte>) returns (at: nat)
    requires !ShortLines(content)
    ensures LongLineAt(content, at)
  {
    at :| LineStart(content, at) && at + MAX_TOKEN <= |content|
      && !exists k :: at <= k < at + MAX_TOKEN && content[k] == NEWLINE;
    assert forall k | at <= k < at + MAX_TOKEN :: content[k] != NEWLINE;
  }

  /** A line start or the end of the file behind the line's start is behind all of the line. */
  lemma AlignedBehind(content: seq<byte>, at: nat, end: nat)
    requires LongLineAt(content, at) && at < end <= |content| && (LineStart(content, end) || end == |content|)
    ensures at + MAX_TOKEN <= end
  {
    assert end < |content| ==> content[end - 1] == NEWLINE;
  }

  /** A line too long for the scanner lies whole inside one range, which is then unreadable. */
  lemma LongLineIsInOnePiece(content: seq<byte>, bounds: seq<int>, k: nat)
    requires Aligned(content, bounds) && k < |bounds| && bounds[k] == |content| && !ShortLines(content)
    ensures exists r | r in Kept(bounds, k) :: Rows(Piece(content, r)).Err?
  {
    var at := FindLongLine(content);
    var r := KeptCover(bounds, k, at);
    KeptAreAligned(content, bounds, k, r);
    AlignedBehind(content, at, r.end);
    LongLineInPiece(content, r.start, r.end, at);
    LongLineIsUnreadable(content[r.start..r.end], at - r.start);
  }

  /**
    An unreadable file has an unreadable range, also when a line too long for the scanner sends
    the boundaries backwards.
   */
  lemma UnreadableFileHasUnreadablePiece(content: seq<byte>, workers: int)
    requires workers > 0 && Rows(content).Err?
    ensures exists r | r in RangesOf(content, workers) :: Rows(Piece(content, r)).Err?
  {
    var bounds := Boundaries(content, workers);
    BoundariesAreAligned(content, workers);
    assert Highest(bounds, workers) == |content|;
    assert content[..|content|] == content;
    if forall r | r in RangesOf(content, workers) :: Rows(Piece(content, r)).Ok? {
      ReadablePieces(content, bounds, workers);
    }
  }

  // ----- Files too large for int64 offset arithmetic -----

  /**
    Past the int64 bound some aimed position wraps to a negative one and the file cannot be read
    there (file sizes in the last 32 bytes below 2^63 excepted).
   */
  lemma OverflowMakesNegativeTarget(size: int, workers: int, w: int)
    requires 1 <= w < workers <= 32 && 0 < size <= TWO_63 - 32
    requires size * w >= TWO_63
    ensures !SeeksSucceed(size, workers)
    decreases w
  {
    if w > 1 && size * (w - 1) >= TWO_63 {
      OverflowMakesNegativeTarget(size, workers, w - 1);
    } else {
      assert size * w == size * (w - 1) + size;
      var wrapped := Wrap64(size * w);
      assert wrapped == size * w - TWO_64 <= -32;
      assert -wrapped / workers >= 1 by {
        QuotientAtLeastOne(-wrapped, workers);
      }
      assert Target(size, w, workers) < 0;
    }
  }

  lemma QuotientAtLeastOne(a: int, d: int)
    requires 0 < d <= a
    ensures a / d >= 1
  {
    assert a == d * (a / d) + a % d;
  }

  lemma WrapShifts(h: int, y: int)
    requires -TWO_63 <= y < TWO_63
    ensures Wrap64(h * TWO_64 + y) == y
  {
    assert (h * TWO_64 + y + TWO_63) % TWO_64 == (y + TWO_63) % TWO_64;
  }

  /** Just below 2^63 an even worker aims slightly below zero and an odd one as if it were alone. */
  lemma NearLimitTarget(j: nat, h: nat, workers: int)
    requires 1 <= j < 32 && workers <= 32
    ensures 2 * h < workers ==> Wrap64((TWO_63 - j) * (2 * h)) == -(2 * h * j)
    ensures 2 * h + 1 < workers ==> Wrap64((TWO_63 - j) * (2 * h + 1)) == TWO_63 - (2 * h + 1) * j
  {
    if 2 * h < workers {
      ProductsAscend(h, 0, j);
      ProductsAscend(h, j, 32);
      assert (TWO_63 - j) * (2 * h) == h * TWO_64 + -(2 * h * j);
      WrapShifts(h, -(2 * h * j));
      if 2 * h + 1 < workers {
        assert (TWO_63 - j) * (2 * h + 1) == h * TWO_64 + (TWO_63 - (2 * h + 1) * j);
        WrapShifts(h, TWO_63 - (2 * h + 1) * j);
      }
    }
  }

  lemma NearLimitIsNegative(j: nat, workers: int)
    requires 2 <= j < 32 && 3 <= workers <= 32
    ensures !SeeksSucceed(TWO_63 - j, workers)
  {
    var h := (workers - 1) / 2;
    NearLimitTarget(j, h, workers);
    ProductsAscend(2 * h, 2, j);
    assert 2 * h * j >= workers;
    QuotientAtLeastOne(2 * h * j, workers);
    assert Target(TWO_63 - j, 2 * h, workers) < 0;
  }

  lemma LargestSizeTarget(w: int, workers: int)
    requires 1 <= w < workers <= 32
    ensures Target(TWO_63 - 1, w, workers) == if w % 2 == 0 then 0 else (TWO_63 - w) / workers
  {
    var h := w / 2;
    NearLimitTarget(1, h, workers);
    if w % 2 == 0 {
      assert w == 2 * h && Wrap64((TWO_63 - 1) * w) == -w;
      SmallQuotient(w, workers);
    } else {
      assert w == 2 * h + 1 && Wrap64((TWO_63 - 1) * w) == TWO_63 - w;
    }
  }

  lemma SmallQuotient(a: int, d: int)
    requires 0 < a < d
    ensures TruncatingDiv(-a, d) == 0
  {
    QuotientBelow(a, 0, d);
  }

  lemma QuotientAbove(a: int, b: int, d: int)
    requires 0 < d && d * b <= a
    ensures b <= a / d
  {
    var q := a / d;
    assert a == d * q + a % d;
    if q + 1 <= b {
      ProductsAscend(d, q + 1, b);
    }
  }

  lemma LargestCanBeRead(workers: int)
    requires 1 <= workers <= 32
    ensures SeeksSucceed(TWO_63 - 1, workers)
  {
    var size := TWO_63 - 1;
    forall w | 1 <= w < workers
      ensures Target(size, w, workers) >= 0
    {
      LargestSizeTarget(w, workers);
    }
  }

  /** Reading at the aimed offsets fails exactly when they overflow, except for the largest size there is. */
  lemma SeeksSucceedIff(size: nat, workers: int)
    requires size < TWO_63 && 1 <= workers <= 32
    ensures SeeksSucceed(size, workers) <==> OffsetsFit(size, workers) || size == TWO_63 - 1
  {
    if size == 0 {
    } else if OffsetsFit(size, workers) {
      SmallOffsetsCanBeRead(size, workers);
    } else if size == TWO_63 - 1 {
      LargestCanBeRead(workers);
    } else if size <= TWO_63 - 32 {
      OverflowMakesNegativeTarget(size, workers, workers - 1);
    } else {
      NearLimitIsNegative(TWO_63 - size, workers);
    }
  }
}
