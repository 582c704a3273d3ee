/**
  UTF-8 (RFC 3629): the bytes of a string, decoding, and the fact that every ASCII byte of an
  encoding is a whole character, so text can be cut at ASCII bytes.
 */
module Utf8 {
  import opened Wrappers
  import Sequences

  function Width(c: char): (n: nat)
    ensures 1 <= n <= 4
  {
    if c as int < 0x80 then 1 else if c as int < 0x800 then 2 else if c as int < 0x10000 then 3 else 4
  }

  /** The marked code point bits of the i-th byte. */
  function ByteAt(c: char, i: nat): byte
    requires i < Width(c)
  {
    var n, width := c as int, Width(c);
    if i == 0 then if width == 1 then n else if width == 2 then 0xC0 + n / 64 else if width == 3 then 0xE0 + n / 4096 else 0xF0 + n / 262144
    else if i == width - 1 then 0x80 + n % 64
    else if i == width - 2 then 0x80 + n / 64 % 64
    else 0x80 + n / 4096 % 64
  }

  function EncodeChar(c: char): (bytes: seq<byte>)
    ensures |bytes| == Width(c)
  {
    seq(Width(c), i requires 0 <= i < Width(c) => ByteAt(c, i))
  }

  function Encode(text: string): (bytes: seq<byte>)
    ensures |bytes| >= |text|
  {
    if text == "" then [] else EncodeChar(text[0]) + Encode(text[1..])
  }

  function EncodeAll(parts: seq<string>): (r: seq<seq<byte>>)
    ensures |r| == |parts| && forall k | 0 <= k < |r| :: r[k] == Encode(parts[k])
  {
    seq(|parts|, k requires 0 <= k < |parts| => Encode(parts[k]))
  }

  function ByteLength(text: string): nat {
    |Encode(text)|
  }

  /** The six bits a continuation byte carries. */
  function Low(b: byte): int {
    b - 0x80
  }

  /** The code point written by the first n bytes, whether or not they are well formed. */
  function CodePoint(bytes: seq<byte>, n: int): int
    requires 1 <= n <= 4 && n <= |bytes|
  {
    var a: int := bytes[0];
    var b: int := if n > 1 then Low(bytes[1]) else 0;
    var c: int := if n > 2 then Low(bytes[2]) else 0;
    var d: int := if n > 3 then Low(bytes[3]) else 0;
    if n == 1 then a
    else if n == 2 then (a - 0xC0) * 64 + b
    else if n == 3 then (a - 0xE0) * 4096 + b * 64 + c
    else (a - 0xF0) * 262144 + b * 4096 + c * 64 + d
  }

  function WidthFromLead(b: byte): int {
    if b < 0x80 then 1 else if b < 0xE0 then 2 else if b < 0xF0 then 3 else 4
  }

  predicate Scalar(n: int) {
    0 <= n < 0xD800 || 0xE000 <= n < 0x110000
  }

  /** The bytes begin with the character. */
  predicate Begins(bytes: seq<byte>, c: char) {
    Width(c) <= |bytes| && forall k | 0 <= k < Width(c) :: bytes[k] == ByteAt(c, k)
  }

  /** Decoding rejects whatever is not exactly the encoding of a character. */
  function DecodeChar(bytes: seq<byte>): Option<char>
    requires bytes != []
  {
    var n := WidthFromLead(bytes[0]);
    if n > |bytes| then None
    else
      var code := CodePoint(bytes, n);
      if Scalar(code) && Begins(bytes, code as char) then Some(code as char) else None
  }

  function Decode(bytes: seq<byte>): Option<string>
    decreases |bytes|
  {
    if bytes == [] then Some("")
    else
      match DecodeChar(bytes)
      case None => None
      case Some(c) =>
        match Decode(bytes[Width(c)..])
        case None => None
        case Some(rest) => Some([c] + rest)
  }

  lemma SixBitGroups(n: nat)
    ensures n == n / 64 * 64 + n % 64
    ensures n / 64 == n / 4096 * 64 + n / 64 % 64
    ensures n / 4096 == n / 262144 * 64 + n / 4096 % 64
  {
  }

  lemma DecodeEncodedChar(c: char, rest: seq<byte>)
    ensures DecodeChar(EncodeChar(c) + rest) == Some(c)
  {
    var n, e := c as int, EncodeChar(c);
    var bytes := e + rest;
    assert bytes[..|e|] == e;
    SixBitGroups(n);
    assert Scalar(n);
    assert WidthFromLead(e[0]) == |e|;
    assert CodePoint(e, |e|) == n;
    assert forall k | 0 <= k < |e| :: bytes[k] == e[k];
  }

  /** Decoding accepts exactly the encodings of strings and recovers the string. */
  lemma {:induction false} DecodeEncode(text: string)
    ensures Decode(Encode(text)) == Some(text)
  {
    if text != "" {
      var e, rest := EncodeChar(text[0]), Encode(text[1..]);
      DecodeEncodedChar(text[0], rest);
      assert (e + rest)[|e|..] == rest;
      DecodeEncode(text[1..]);
      assert [text[0]] + text[1..] == text;
    }
  }

  lemma DecodedChar(bytes: seq<byte>)
    requires bytes != [] && DecodeChar(bytes).Some?
    ensures var e := EncodeChar(DecodeChar(bytes).value); |e| <= |bytes| && bytes[..|e|] == e
  {
  }

  lemma EncodeFirst(c: char, rest: string)
    ensures Encode([c] + rest) == EncodeChar(c) + Encode(rest)
  {
    assert ([c] + rest)[1..] == rest;
  }

  lemma DecodedParts(bytes: seq<byte>) returns (c: char, rest: seq<byte>)
    requires bytes != [] && Decode(bytes).Some?
    ensures bytes == EncodeChar(c) + rest
    ensures Decode(rest).Some? && Decode(bytes).value == [c] + Decode(rest).value
  {
    c := DecodeChar(bytes).value;
    rest := bytes[Width(c)..];
    DecodedChar(bytes);
  }

  lemma {:induction false} EncodeDecode(bytes: seq<byte>)
    requires Decode(bytes).Some?
    ensures Encode(Decode(bytes).value) == bytes
    decreases |bytes|
  {
    if bytes != [] {
      var c, rest := DecodedParts(bytes);
      EncodeDecode(rest);
      EncodeFirst(c, Decode(rest).value);
    }
  }

  lemma {:induction false} EncodeAppends(a: string, b: string)
    ensures Encode(a + b) == Encode(a) + Encode(b)
  {
    if a == "" {
      assert a + b == b;
    } else {
      EncodeAppends(a[1..], b);
      assert (a + b)[0] == a[0] && (a + b)[1..] == a[1..] + b;
      Sequences.Regroup(EncodeChar(a[0]), Encode(a[1..]), Encode(b));
    }
  }

  /** An ASCII byte at position p of an encoding is a whole character, at some index k of the text. */
  lemma {:induction false} AsciiIsWholeChar(text: string, p: nat) returns (k: nat)
    requires p < |Encode(text)| && Encode(text)[p] < 0x80
    ensures k < |text| && Encode(text[..k]) == Encode(text)[..p] && text[k] as int == Encode(text)[p]
  {
    var e := EncodeChar(text[0]);
    if p < |e| {
      assert e[p] < 0x80;
      k := 0;
    } else {
      k := AsciiIsWholeChar(text[1..], p - |e|);
      k := k + 1;
      assert text[..k][1..] == text[1..][..k - 1];
    }
  }

  lemma EncodeOneMore(text: string, k: nat)
    requires k < |text|
    ensures Encode(text[..k + 1]) == Encode(text[..k]) + EncodeChar(text[k])
  {
    assert text[..k + 1] == text[..k] + [text[k]];
    EncodeAppends(text[..k], [text[k]]);
    assert Encode([text[k]]) == EncodeChar(text[k]) + Encode([]);
  }

  lemma EncodedPrefix(text: string, i: nat, j: nat)
    requires i <= j <= |text|
    ensures Encode(text[..j]) == Encode(text[..i]) + Encode(text[i..j])
  {
    assert text[..j] == text[..i] + text[i..j];
    EncodeAppends(text[..i], text[i..j]);
  }

  /** A slice between two ASCII bytes of an encoding is the encoding of the text between them. */
  lemma SliceAtAscii(text: string, p: nat, q: nat) returns (i: nat, j: nat)
    requires p <= q < |Encode(text)| && Encode(text)[p] < 0x80 && Encode(text)[q] < 0x80
    ensures i <= j <= |text| && Encode(text)[p..q + 1] == Encode(text[i..j])
  {
    var bytes := Encode(text);
    var k;
    i := AsciiIsWholeChar(text, p);
    k := AsciiIsWholeChar(text, q);
    if k < i {
      EncodedPrefix(text, k, i);
    }
    j := k + 1;
    EncodeOneMore(text, k);
    assert EncodeChar(text[k]) == [bytes[q]];
    EncodedPrefix(text, i, j);
    assert bytes[..q + 1] == bytes[..q] + [bytes[q]];
    assert bytes[p..q + 1] == bytes[..q + 1][p..];
  }

  lemma AsciiChar(c: char)
    requires c as int < 0x80
    ensures EncodeChar(c) == [c as int]
  {
  }

  lemma {:induction false} AsciiBytes(s: string)
    requires forall c | c in s :: c as int < 0x80
    ensures |Encode(s)| == |s| && forall k | 0 <= k < |s| :: Encode(s)[k] == s[k] as int
  {
    if s != "" {
      assert s[0] in s && forall c | c in s[1..] :: c in s;
      AsciiBytes(s[1..]);
      AsciiChar(s[0]);
    }
  }
}
