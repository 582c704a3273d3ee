/**
  Aggregating a file by concurrent readers of its ranges.

  The scheduler is nondeterministic: at every turn either some reader still running finishes and
  sends its result, or the caller receives the next result of the channel.  Whatever it chooses,
  the file aggregates as one sequential pass would, as long as the offsets it is cut at fit.
 */
module ParallelAggregation {
  import opened Wrappers
  import opened Sequences
  import opened Aggregates
  import opened Measurements
  import opened Ranges
  import LargestFile

  const MAX_WORKERS: int := 32

  type Delivery = Result<Aggregation, ReadError>

  /** A reader's result tells whether its range is readable and, if so, summarizes its rows. */
  ghost predicate Delivers(content: seq<byte>, r: ByteRange, result: Delivery)
    reads if result.Ok? then {result.value} + result.value.Repr else {}
  {
    if result.Ok? then
      && Rows(Piece(content, r)).Ok?
      && result.value.Valid()
      && result.value.View == Summary(PieceRows(content)(r))
    else
      Rows(Piece(content, r)) == Err(result.error)
  }

  ghost predicate Readable(content: seq<byte>, ranges: seq<ByteRange>) {
    forall q | q in ranges :: Rows(Piece(content, q)).Ok?
  }

  /** The channel holds the results of the ranges sent, apart from the aggregation being merged. */
  ghost predicate InFlight(content: seq<byte>, merged: Aggregation, channel: seq<Delivery>, sent: seq<ByteRange>)
    reads *
  {
    && merged.Valid() && |sent| == |channel|
    && (forall k | 0 <= k < |channel| :: Delivers(content, sent[k], channel[k]))
    && (forall k | 0 <= k < |channel| && channel[k].Ok? :: channel[k].value.Repr !! merged.Repr)
  }

  /** A reader finishes its range and sends what it found. */
  method SendOne(content: seq<byte>, q: ByteRange, merged: Aggregation, channel: seq<Delivery>, ghost sent: seq<ByteRange>)
    returns (more: seq<Delivery>)
    requires InFlight(content, merged, channel, sent)
    ensures InFlight(content, merged, more, sent + [q])
    ensures |more| == |channel| + 1
  {
    var result := AggregateReader(Piece(content, q));
    more := channel + [result];
  }

  /** The caller receives the result at the head of the channel and folds it in. */
  method ReceiveOne(ghost content: seq<byte>, merged: Aggregation, channel: seq<Delivery>,
                    ghost sent: seq<ByteRange>, ghost received: seq<ByteRange>)
    requires InFlight(content, merged, channel, sent) && channel != [] && channel[0].Ok?
    requires merged.View == Summary(Gather(received, PieceRows(content)))
    modifies merged.Repr
    ensures InFlight(content, merged, channel[1..], sent[1..]) && fresh(merged.Repr - old(merged.Repr))
    ensures merged.View == Summary(Gather(received + [sent[0]], PieceRows(content)))
  {
    merged.MergeFrom(channel[0].value);
    GatherOneMore(content, received, sent[0]);
  }

  lemma GatherOneMore(content: seq<byte>, received: seq<ByteRange>, q: ByteRange)
    ensures Summary(Gather(received + [q], PieceRows(content))) ==
            Merge(Summary(Gather(received, PieceRows(content))), Summary(PieceRows(content)(q)))
  {
    var rows := PieceRows(content);
    GatherAppends(received, [q], rows);
    assert Gather([q], rows) == rows(q) + Gather([], rows) == rows(q);
    SummaryOfAppend(Gather(received, rows), rows(q));
  }

  method RunReaders(content: seq<byte>, ranges: seq<ByteRange>) returns (r: Delivery)
    ensures r.Ok? ==> Readable(content, ranges) && r.value.Valid() && fresh(r.value.Repr)
    ensures r.Ok? ==> r.value.View == Summary(Gather(ranges, PieceRows(content)))
    ensures r.Err? ==> exists q | q in ranges :: Rows(Piece(content, q)) == Err(r.error)
  {
    var merged := new Aggregation();
    var running := ranges;
    var channel: seq<Delivery> := [];
    ghost var sent: seq<ByteRange>, received: seq<ByteRange> := [], [];
    while running != [] || channel != []
      invariant InFlight(content, merged, channel, sent) && fresh(merged.Repr)
      invariant merged.View == Summary(Gather(received, PieceRows(content)))
      invariant Readable(content, received) && Accounted(ranges, running, sent, received)
      decreases |running|, |channel|
    {
      if {
        case running != [] =>
          var i :| 0 <= i < |running|;
          channel := SendOne(content, running[i], merged, channel, sent);
          Sent(ranges, running, sent, received, i);
          sent, running := sent + [running[i]], running[..i] + running[i + 1..];
        case channel != [] =>
          Received(ranges, running, sent, received);
          if channel[0].Err? {
            return Err(channel[0].error);
          }
          ReceiveOne(content, merged, channel, sent, received);
          received := received + [sent[0]];
          channel, sent := channel[1..], sent[1..];
      }
    }
    AllReceived(content, ranges, sent, received);
    return Ok(merged);
  }

  /** Every range is being read, waiting in the channel or received, and is so exactly once. */
  ghost predicate Accounted(ranges: seq<ByteRange>, running: seq<ByteRange>, sent: seq<ByteRange>, received: seq<ByteRange>) {
    multiset(running) + multiset(sent) + multiset(received) == multiset(ranges)
  }

  lemma Sent(ranges: seq<ByteRange>, running: seq<ByteRange>, sent: seq<ByteRange>, received: seq<ByteRange>, i: nat)
    requires i < |running| && Accounted(ranges, running, sent, received)
    ensures Accounted(ranges, running[..i] + running[i + 1..], sent + [running[i]], received)
  {
    TakeOut(running, i);
  }

  lemma Received(ranges: seq<ByteRange>, running: seq<ByteRange>, sent: seq<ByteRange>, received: seq<ByteRange>)
    requires sent != [] && Accounted(ranges, running, sent, received)
    ensures Accounted(ranges, running, sent[1..], received + [sent[0]]) && sent[0] in ranges
  {
    TakeOut(sent, 0);
    assert sent[0] in multiset(ranges);
  }

  lemma AllReceived(content: seq<byte>, ranges: seq<ByteRange>, sent: seq<ByteRange>, received: seq<ByteRange>)
    requires sent == [] && Accounted(ranges, [], sent, received) && Readable(content, received)
    ensures Readable(content, ranges)
    ensures Summary(Gather(received, PieceRows(content))) == Summary(Gather(ranges, PieceRows(content)))
  {
    assert multiset(received) == multiset(ranges);
    ArrivalOrderIrrelevant(received, ranges, PieceRows(content));
    SameMembers(received, ranges);
  }

  /** Whether every product that aims a boundary fits, or wraps to one that can be read at all the same. */
  predicate CanBeAimed(size: int, workers: int) {
    OffsetsFit(size, workers) || size == TWO_63 - 1
  }

  /**
    Up to the size where the offset arithmetic overflows, the file aggregates exactly when one
    sequential pass over it does, and to the same table, for every worker count and every order
    in which results arrive.  Past that size every read with that many workers fails, except at the
    very largest: there it fails only if the sequential pass does, but the table is another one.
   */
  method AggregateFile(content: seq<byte>, workers: int) returns (r: Delivery)
    requires |content| < TWO_63
    ensures !(1 <= workers <= MAX_WORKERS) ==> r == Err(InvalidWorkers)
    ensures 1 <= workers <= MAX_WORKERS && CanBeAimed(|content|, workers) ==> (r.Ok? <==> Rows(content).Ok?)
    ensures 1 <= workers <= MAX_WORKERS && !CanBeAimed(|content|, workers) ==> r == Err(NegativeOffset)
    ensures r.Ok? ==> r.value.Valid() && fresh(r.value.Repr)
    ensures r.Ok? ==> (r.value.View == Summary(Rows(content).value) <==> OffsetsFit(|content|, workers))
  {
    if workers < 1 || workers > MAX_WORKERS {
      return Err(InvalidWorkers);
    }
    if workers == 1 || |content| == 0 {
      r := AggregateReader(content);
      return;
    }
    SeeksSucceedIff(|content|, workers);
    var ranges := NewlineAlignedRanges(content, workers);
    if ranges.Err? {
      return Err(ranges.error);
    }
    r := RunReaders(content, ranges.value);
    RangesReadWhatTheFileReads(content, workers);
    if Rows(content).Ok? && !OffsetsFit(|content|, workers) {
      FewWorkersFit(|content|, workers);
      LargestFile.LargestFileIsMiscounted(content, workers);
    }
  }

  lemma FewWorkersFit(size: nat, workers: int)
    requires size < TWO_63 && 1 <= workers && !OffsetsFit(size, workers)
    ensures workers >= 3
  {
  }

  /** The ranges of a file are all readable exactly when the file is, and then hold its rows in order. */
  lemma RangesReadWhatTheFileReads(content: seq<byte>, workers: int)
    requires workers > 0 && content != []
    ensures Rows(content).Ok? <==> Readable(content, RangesOf(content, workers))
    ensures Rows(content).Ok? && OffsetsFit(|content|, workers) ==>
              Gather(RangesOf(content, workers), PieceRows(content)) == Rows(content).value
  {
    if Rows(content).Ok? {
      if OffsetsFit(|content|, workers) {
        ReadableFileIsPartitioned(content, workers);
      }
      BoundariesAreAligned(content, workers);
      forall q | q in RangesOf(content, workers)
        ensures Rows(Piece(content, q)).Ok?
      {
        KeptAreAligned(content, Boundaries(content, workers), workers, q);
        RowsOfPiece(content, q.start, q.end);
      }
    } else {
      UnreadableFileHasUnreadablePiece(content, workers);
    }
  }

  // ----- A readable file that is too large -----

  /** There is a readable file, well within the int64 sizes, that 32 workers refuse. */
  lemma SomeReadableFileIsTooLarge() returns (content: seq<byte>)
    ensures |content| <= TWO_63 - 32 && Rows(content).Ok? && !OffsetsFit(|content|, MAX_WORKERS)
  {
    var n := TWO_63 / 186 + 1;
    RowReads();
    CopiesRead(ROW, Row([97], 10), n);
    CopiesLength(ROW, n);
    content := Copies(ROW, n);
  }
}
