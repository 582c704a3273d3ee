/** A source file with an index of its line starts, read in windows of lines. */
module Documents {
  import opened Wrappers
  import opened Utf8
  import opened TextLines

  const MAX_WINDOW: nat := 1000
  const MAX_SHOWN: nat := 8000

  datatype Document = Document(blob: string, text: seq<byte>, offsets: seq<nat>, binary: bool)

  predicate StartsLine(text: seq<byte>, p: nat) {
    p == 0 || (p < |text| && text[p - 1] == LF)
  }

  /** `offsets` lists every line start once, in ascending order; an empty text has one, at 0. */
  ghost predicate Indexes(offsets: seq<nat>, text: seq<byte>) {
    && (forall i, j | 0 <= i < j < |offsets| :: offsets[i] < offsets[j])
    && (forall p: nat :: p in offsets <==> StartsLine(text, p))
  }

  lemma DecodesIffUtf8(bytes: seq<byte>)
    ensures Decode(bytes).None? <==> forall s :: bytes != Encode(s)
  {
    if Decode(bytes).Some? {
      EncodeDecode(bytes);
    } else {
      forall s
        ensures bytes != Encode(s)
      {
        DecodeEncode(s);
      }
    }
  }

  function OffsetsUpTo(text: seq<byte>, n: nat): seq<nat>
    requires n <= |text|
  {
    if n == 0 then [0]
    else OffsetsUpTo(text, n - 1) + if text[n - 1] == LF && n < |text| then [n] else []
  }

  /** The document made of a file's bytes: one with a NUL byte or outside UTF-8 keeps no text. */
  function Built(blob: string, bytes: seq<byte>): Document {
    var binary := 0 in bytes || Decode(bytes).None?;
    var text := if binary then [] else bytes;
    Document(blob, text, OffsetsUpTo(text, |text|), binary)
  }

  /** There is one such list of line starts. */
  lemma IndexIsUnique(a: seq<nat>, b: seq<nat>, text: seq<byte>)
    requires Indexes(a, text) && Indexes(b, text)
    ensures a == b
  {
    AscendingAreEqual(a, b);
  }

  predicate Ascending(s: seq<nat>) {
    forall i, j | 0 <= i < j < |s| :: s[i] < s[j]
  }

  lemma TailMember(s: seq<nat>, p: nat)
    requires s != [] && Ascending(s)
    ensures p in s[1..] <==> p in s && p != s[0]
  {
    assert s == [s[0]] + s[1..];
    forall k | 0 < k < |s|
      ensures s[k] > s[0]
    {
    }
  }

  lemma BothEmptyOrNot(a: seq<nat>, b: seq<nat>)
    requires forall p: nat :: p in a <==> p in b
    ensures a == [] <==> b == []
  {
    if a != [] {
      assert a[0] in a;
    }
    if b != [] {
      assert b[0] in b;
    }
  }

  lemma {:induction false} AscendingAreEqual(a: seq<nat>, b: seq<nat>)
    requires Ascending(a) && Ascending(b) && forall p: nat :: p in a <==> p in b
    ensures a == b
  {
    BothEmptyOrNot(a, b);
    if a != [] {
      assert a[0] in b && b[0] in a;
      assert a[0] == b[0];
      forall p: nat
        ensures p in a[1..] <==> p in b[1..]
      {
        TailMember(a, p);
        TailMember(b, p);
      }
      AscendingAreEqual(a[1..], b[1..]);
      assert a == [a[0]] + a[1..] && b == [b[0]] + b[1..];
    }
  }

  /** The line starts up to i. */
  ghost predicate IndexesUpTo(offsets: seq<nat>, text: seq<byte>, i: nat) {
    && (forall k, l | 0 <= k < l < |offsets| :: offsets[k] < offsets[l])
    && (forall k | 0 <= k < |offsets| :: offsets[k] <= i && StartsLine(text, offsets[k]))
    && (forall p: nat | p <= i && StartsLine(text, p) :: p in offsets)
  }

  lemma OffsetsOneMore(text: seq<byte>, i: nat)
    requires i < |text|
    ensures OffsetsUpTo(text, i + 1) == OffsetsUpTo(text, i) + if StartsLine(text, i + 1) then [i + 1] else []
  {
  }

  lemma {:induction false} OffsetsStartLines(text: seq<byte>, i: nat)
    requires i <= |text|
    ensures var offsets := OffsetsUpTo(text, i); forall k | 0 <= k < |offsets| :: offsets[k] <= i && StartsLine(text, offsets[k])
  {
    if i > 0 {
      OffsetsStartLines(text, i - 1);
      OffsetsOneMore(text, i - 1);
    }
  }

  lemma {:induction false} OffsetsAscend(text: seq<byte>, i: nat)
    requires i <= |text|
    ensures var offsets := OffsetsUpTo(text, i); forall k, l | 0 <= k < l < |offsets| :: offsets[k] < offsets[l]
  {
    if i > 0 {
      OffsetsAscend(text, i - 1);
      OffsetsStartLines(text, i - 1);
      OffsetsOneMore(text, i - 1);
    }
  }

  lemma {:induction false} OffsetsMissNone(text: seq<byte>, i: nat, p: nat)
    requires p <= i <= |text| && StartsLine(text, p)
    ensures p in OffsetsUpTo(text, i)
  {
    if i > p {
      OffsetsMissNone(text, i - 1, p);
    }
  }

  lemma OffsetsIndexUpTo(text: seq<byte>, i: nat)
    requires i <= |text|
    ensures IndexesUpTo(OffsetsUpTo(text, i), text, i)
  {
    OffsetsStartLines(text, i);
    OffsetsAscend(text, i);
    forall p: nat | p <= i && StartsLine(text, p)
      ensures p in OffsetsUpTo(text, i)
    {
      OffsetsMissNone(text, i, p);
    }
  }

  lemma BuiltIndexes(blob: string, bytes: seq<byte>)
    ensures var doc := Built(blob, bytes); Indexes(doc.offsets, doc.text)
  {
    var text := Built(blob, bytes).text;
    OffsetsIndexUpTo(text, |text|);
  }

  method New(blob: string, bytes: seq<byte>) returns (doc: Document)
    ensures doc == Built(blob, bytes)
    ensures Indexes(doc.offsets, doc.text)
    ensures doc.binary <==> 0 in bytes || forall s :: bytes != Encode(s)
    ensures doc.text == if doc.binary then [] else bytes
  {
    DecodesIffUtf8(bytes);
    var binary := 0 in bytes || Decode(bytes).None?;
    var text := if binary then [] else bytes;
    var offsets := IndexLines(text);
    doc := Document(blob, text, offsets, binary);
  }

  method IndexLines(text: seq<byte>) returns (offsets: seq<nat>)
    ensures Indexes(offsets, text) && offsets == OffsetsUpTo(text, |text|)
  {
    offsets := [0];
    for i := 0 to |text|
      invariant offsets == OffsetsUpTo(text, i)
      invariant forall k, l | 0 <= k < l < |offsets| :: offsets[k] < offsets[l]
      invariant forall k | 0 <= k < |offsets| :: offsets[k] <= i && StartsLine(text, offsets[k])
      invariant forall p: nat | p <= i && StartsLine(text, p) :: p in offsets
    {
      if text[i] == LF && i + 1 < |text| {
        offsets := offsets + [i + 1];
      }
    }
  }

  // ----- Segments -----

  /** The k-th line with its newline, cut out of the text by the offsets. */
  function Segment(doc: Document, k: nat): seq<byte>
    requires k < |doc.offsets|
  {
    var end := if k + 1 < |doc.offsets| then doc.offsets[k + 1] else |doc.text|;
    if doc.offsets[k] <= end <= |doc.text| then doc.text[doc.offsets[k]..end] else []
  }

  function SegmentsFrom(doc: Document, k: nat): seq<seq<byte>>
    requires k <= |doc.offsets|
    decreases |doc.offsets| - k
  {
    if k == |doc.offsets| then [] else [Segment(doc, k)] + SegmentsFrom(doc, k + 1)
  }

  lemma FirstOffset(doc: Document)
    requires Indexes(doc.offsets, doc.text)
    ensures doc.offsets != [] && doc.offsets[0] == 0
  {
    assert StartsLine(doc.text, 0);
    var i :| 0 <= i < |doc.offsets| && doc.offsets[i] == 0;
    assert forall j | 0 < j < |doc.offsets| :: doc.offsets[0] < doc.offsets[j];
  }

  lemma SegmentEnd(doc: Document, k: nat)
    requires Indexes(doc.offsets, doc.text) && doc.text != [] && k < |doc.offsets|
    ensures doc.offsets[k] < |doc.text|
    ensures FirstEnd(doc.text[doc.offsets[k]..], LF) == |Segment(doc, k)|
    ensures doc.text[doc.offsets[k]..][..|Segment(doc, k)|] == Segment(doc, k)
    ensures doc.offsets[k] + |Segment(doc, k)| == if k + 1 < |doc.offsets| then doc.offsets[k + 1] else |doc.text|
  {
    var text, at := doc.text, doc.offsets[k];
    assert at in doc.offsets;
    assert StartsLine(text, at);
    var n := FirstEnd(text[at..], LF);
    if k + 1 < |doc.offsets| {
      var next := doc.offsets[k + 1];
      assert next in doc.offsets;
      assert StartsLine(text, next) && at < next;
      assert text[at..][next - 1 - at] == LF;
    }
    if at + n < |text| {
      assert text[at..][n - 1] == LF;
      assert StartsLine(text, at + n);
      var j :| 0 <= j < |doc.offsets| && doc.offsets[j] == at + n;
      assert j > k;
    }
  }

  lemma {:induction false} SegmentsAtOffsets(doc: Document, k: nat)
    requires Indexes(doc.offsets, doc.text) && doc.text != [] && k < |doc.offsets|
    ensures doc.offsets[k] < |doc.text|
    ensures Segments(doc.text[doc.offsets[k]..], LF) == SegmentsFrom(doc, k)
    decreases |doc.offsets| - k
  {
    SegmentEnd(doc, k);
    var rest := doc.text[doc.offsets[k]..];
    var n := |Segment(doc, k)|;
    if k + 1 < |doc.offsets| {
      SegmentsAtOffsets(doc, k + 1);
      assert rest[n..] == doc.text[doc.offsets[k + 1]..];
    } else {
      assert rest[n..] == [];
      assert SegmentsFrom(doc, k + 1) == [];
    }
  }

  lemma {:induction false} SegmentsFromAt(doc: Document, k: nat, i: nat)
    requires k <= i < |doc.offsets|
    ensures |SegmentsFrom(doc, k)| == |doc.offsets| - k && SegmentsFrom(doc, k)[i - k] == Segment(doc, i)
    decreases |doc.offsets| - k
  {
    if k < i {
      SegmentsFromAt(doc, k + 1, i);
    } else if k + 1 < |doc.offsets| {
      SegmentsFromAt(doc, k + 1, k + 1);
    }
  }

  /**
    The slices between consecutive offsets are the lines of the text, in order and with their
    newlines, and concatenate back to it.
   */
  lemma SlicesAreLines(doc: Document)
    requires Indexes(doc.offsets, doc.text)
    ensures doc.text != [] ==> SegmentsFrom(doc, 0) == Segments(doc.text, LF)
    ensures Flatten(SegmentsFrom(doc, 0)) == doc.text
  {
    FirstOffset(doc);
    if doc.text != [] {
      SegmentsAtOffsets(doc, 0);
      assert doc.text[0..] == doc.text;
      SegmentsJoin(doc.text, LF);
    } else {
      assert forall j | 0 <= j < |doc.offsets| :: StartsLine(doc.text, doc.offsets[j]);
      assert Segment(doc, 0) == [];
      assert SegmentsFrom(doc, 1) == [];
      var none: seq<byte> := [];
      assert SegmentsFrom(doc, 0) == [none] && Flatten([none]) == none + Flatten([]);
    }
  }

  // ----- Windows -----

  /** A line as shown: without trailing line ends, and at most 8000 characters of it. */
  function Shown(doc: Document, k: nat): seq<byte>
    requires k < |doc.offsets|
  {
    TakeChars(TrimEnd(Segment(doc, k), CR, LF), MAX_SHOWN)
  }

  function Lesser(a: nat, b: nat): nat {
    if a < b then a else b
  }

  /** `count` lines from the 1-based line `start`, at most 1000 of them. */
  function Lines(doc: Document, start: nat, count: nat): (lines: seq<seq<byte>>)
    ensures |lines| <= MAX_WINDOW
  {
    var first := Lesser(if start == 0 then 0 else start - 1, |doc.offsets|);
    var end := Lesser(first + Lesser(count, MAX_WINDOW), |doc.offsets|);
    seq(end - first, i requires 0 <= i < end - first => Shown(doc, first + i))
  }

  function AllLines(doc: Document): seq<seq<byte>> {
    seq(|doc.offsets|, i requires 0 <= i < |doc.offsets| => Shown(doc, i))
  }

  /** The first k pages of `count` lines each. */
  function Pages(doc: Document, count: nat, k: nat): seq<seq<byte>> {
    if k == 0 then [] else Pages(doc, count, k - 1) + Lines(doc, (k - 1) * count + 1, count)
  }

  lemma WindowOfLines(doc: Document, a: nat, count: nat)
    requires count <= MAX_WINDOW
    ensures Lines(doc, a + 1, count) == AllLines(doc)[Lesser(a, |doc.offsets|)..Lesser(a + count, |doc.offsets|)]
  {
    var window, first, end := Lines(doc, a + 1, count), Lesser(a, |doc.offsets|), Lesser(a + count, |doc.offsets|);
    assert |window| == end - first;
    forall i | 0 <= i < end - first
      ensures window[i] == AllLines(doc)[first..end][i]
    {
      assert window[i] == Shown(doc, first + i);
    }
  }

  /** Consecutive windows of the same size, up to 1000 lines, tile the list of lines. */
  lemma {:induction false} PagesTileLines(doc: Document, count: nat, k: nat)
    requires 1 <= count <= MAX_WINDOW
    ensures Pages(doc, count, k) == AllLines(doc)[..Lesser(k * count, |doc.offsets|)]
  {
    if k > 0 {
      PagesTileLines(doc, count, k - 1);
      var a := (k - 1) * count;
      assert k * count == a + count;
      WindowOfLines(doc, a, count);
      PrefixThenWindow(AllLines(doc), Lesser(a, |doc.offsets|), Lesser(a + count, |doc.offsets|));
    }
  }

  lemma PrefixThenWindow<T>(s: seq<T>, a: nat, b: nat)
    requires a <= b <= |s|
    ensures s[..a] + s[a..b] == s[..b]
  {
  }

  /**
    The k-th line that a search sees in a text (`str::lines`, numbered from 1) is the one the
    document shows when asked for line k, cut and trimmed for display; there are as many of both.
   */
  lemma SearchLineIsDocumentLine(doc: Document, text: string, k: nat)
    requires doc.text == Encode(text) && Indexes(doc.offsets, doc.text)
    requires k < |StrLines(text, '\n', '\r')|
    ensures |StrLines(text, '\n', '\r')| == |doc.offsets|
    ensures Lines(doc, k + 1, 1) == [Encode(Take(TrimEnd(StrLines(text, '\n', '\r')[k], '\r', '\n'), MAX_SHOWN))]
  {
    SegmentIsEncoded(doc, text, k);
    var segment := Segments(text, '\n')[k];
    TrimEndEncoded(segment);
    TrimStripped(segment, '\n', '\r');
    TakeCharsEncoded(TrimEnd(segment, '\r', '\n'), MAX_SHOWN);
    OneLineWindow(doc, k);
  }

  lemma SegmentIsEncoded(doc: Document, text: string, k: nat)
    requires doc.text == Encode(text) && Indexes(doc.offsets, doc.text) && k < |Segments(text, '\n')|
    ensures |Segments(text, '\n')| == |doc.offsets| && Segment(doc, k) == Encode(Segments(text, '\n')[k])
  {
    SlicesAreLines(doc);
    SegmentsEncoded(text);
    FirstOffset(doc);
    SegmentsFromAt(doc, 0, 0);
    SegmentsFromAt(doc, 0, k);
  }

  lemma OneLineWindow(doc: Document, k: nat)
    requires k < |doc.offsets|
    ensures Lines(doc, k + 1, 1) == [Shown(doc, k)]
  {
  }
}
