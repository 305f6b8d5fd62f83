/** SLIPFramedDataMessageIOGateway: the framing of RFC 1055. */
module SlipFraming {
  import opened Bytes

  const END: Byte := 192
  const ESC: Byte := 219
  const ESCAPE_END: Byte := 220
  const ESCAPE_ESC: Byte := 221

  // ---- encoding ----

  function EscapedByte(b: Byte): Buffer {
    if b == END then [ESC, ESCAPE_END] else if b == ESC then [ESC, ESCAPE_ESC] else [b]
  }

  function Escaped(s: Buffer): Buffer {
    if |s| == 0 then [] else Escaped(s[..|s| - 1]) + EscapedByte(s[|s| - 1])
  }

  function Encoded(s: Buffer): Buffer {
    [END] + Escaped(s) + [END]
  }

  const MAX_CHUNK: nat := (TWO32 - 1) / 2

  lemma {:induction false} EscapedSize(s: Buffer)
    ensures |s| <= |Escaped(s)| <= 2 * |s|
  {
    if |s| > 0 { EscapedSize(s[..|s| - 1]); }
  }

  lemma {:induction false} EscapedGrows(s: Buffer, i: nat)
    requires i <= |s|
    ensures |Escaped(s[..i])| <= |Escaped(s)|
    decreases |s|
  {
    if i < |s| {
      EscapedGrows(s[..|s| - 1], i);
      assert s[..|s| - 1][..i] == s[..i];
    } else {
      assert s[..i] == s;
    }
  }

  lemma EscapedStep(s: Buffer, i: nat)
    requires i < |s|
    ensures Escaped(s[..i + 1]) == Escaped(s[..i]) + EscapedByte(s[i])
  {
    assert s[..i + 1][..i] == s[..i];
  }

  /** The size is computed first, in 32 bits, and then filled exactly. */
  method SLIPEncodeBytes(bytes: Buffer) returns (r: Result<Buffer>)
    ensures r == if |bytes| < MAX_CHUNK then Ok(Encoded(bytes)) else Err
    ensures r.Ok? ==> |r.value| < TWO32
  {
    hide Escaped;
    if |bytes| >= MAX_CHUNK { return Err; }
    EscapedSize(bytes);
    var numSLIPBytes := CountSLIPBytes(bytes);
    var buf := new Byte[numSLIPBytes];
    FillSLIPBytes(buf, bytes);
    r := Ok(buf[..]);
  }

  method CountSLIPBytes(bytes: Buffer) returns (n: nat)
    ensures n == |Encoded(bytes)|
  {
    hide Escaped;
    n := 2;
    EscapedNothing();
    for i := 0 to |bytes|
      invariant n == 2 + |Escaped(bytes[..i])|
    {
      EscapedStep(bytes, i);
      n := n + (if bytes[i] == END || bytes[i] == ESC then 2 else 1);
    }
    assert bytes[..|bytes|] == bytes;
  }

  lemma EscapedNothing()
    ensures Escaped([]) == []
  {
  }

  method FillSLIPBytes(buf: array<Byte>, bytes: Buffer)
    requires buf.Length == |Encoded(bytes)|
    modifies buf
    ensures buf[..] == Encoded(bytes)
  {
    hide Escaped, EscapedByte;
    buf[0] := END;
    var out := 1;
    EscapedNothing();
    EscapedGrows(bytes, 0);
    for i := 0 to |bytes|
      invariant out == 1 + |Escaped(bytes[..i])| < buf.Length
      invariant buf[..out] == [END] + Escaped(bytes[..i])
    {
      EscapedStep(bytes, i);
      EscapedGrows(bytes, i + 1);
      out := PutEscaped(buf, out, bytes[i]);
    }
    assert bytes[..|bytes|] == bytes;
    buf[out] := END;
    assert buf[..] == buf[..out] + [END];
  }

  method PutEscaped(buf: array<Byte>, out: nat, b: Byte) returns (out': nat)
    requires out + |EscapedByte(b)| < buf.Length
    modifies buf
    ensures out' == out + |EscapedByte(b)|
    ensures buf[..out'] == old(buf[..out]) + EscapedByte(b)
  {
    if b == END {
      buf[out], buf[out + 1] := ESC, ESCAPE_END;
      out' := out + 2;
    } else if b == ESC {
      buf[out], buf[out + 1] := ESC, ESCAPE_ESC;
      out' := out + 2;
    } else {
      buf[out] := b;
      out' := out + 1;
    }
  }

  // ---- decoding ----

  /** The decoder's flag, the bytes of the current frame, and the frames flushed so far. */
  datatype Decoder = Decoder(escape: bool, pending: Buffer, frames: seq<Buffer>)

  /** FlushCurrentIncomingSLIPFrame(): empty frames are dropped. */
  function Flush(d: Decoder): Decoder {
    if d.pending == [] then d else d.(pending := [], frames := d.frames + [d.pending])
  }

  function Step(d: Decoder, b: Byte): Decoder {
    if d.escape then
      (if b == END then Flush(d)
       else if b == ESCAPE_END then d.(pending := d.pending + [END])
       else if b == ESCAPE_ESC then d.(pending := d.pending + [ESC])
       else d.(pending := d.pending + [b])).(escape := false)
    else
      (if b == END then Flush(d)
       else if b == ESC then d
       else d.(pending := d.pending + [b])).(escape := b == ESC)
  }

  function Feed(d: Decoder, s: Buffer): Decoder
    decreases |s|
  {
    if |s| == 0 then d else Step(Feed(d, s[..|s| - 1]), s[|s| - 1])
  }

  lemma {:induction false} FeedAppend(d: Decoder, a: Buffer, b: Buffer)
    ensures Feed(d, a + b) == Feed(Feed(d, a), b)
    decreases |b|
  {
    hide Step;
    if |b| == 0 {
      assert a + b == a;
    } else {
      var n := |b| - 1;
      FeedAppend(d, a, b[..n]);
      assert (a + b)[..|a| + n] == a + b[..n];
    }
  }

  lemma FeedOne(d: Decoder, b: Byte)
    ensures Feed(d, [b]) == Step(d, b)
  {
    hide Step;
    assert [b][..0] == [];
    assert Feed(d, []) == d;
  }

  lemma FeedEscapedByte(d: Decoder, b: Byte)
    requires !d.escape
    ensures Feed(d, EscapedByte(b)) == d.(pending := d.pending + [b])
  {
    hide Feed;
    var s := EscapedByte(b);
    if |s| == 2 {
      assert s == [s[0]] + [s[1]];
      FeedAppend(d, [s[0]], [s[1]]);
      FeedOne(d, s[0]);
      FeedOne(Step(d, s[0]), s[1]);
    } else {
      FeedOne(d, b);
    }
  }

  lemma {:induction false} FeedEscaped(d: Decoder, s: Buffer)
    requires !d.escape
    ensures Feed(d, Escaped(s)) == d.(pending := d.pending + s)
    decreases |s|
  {
    hide Step, EscapedByte;
    if |s| == 0 {
      assert d.pending + s == d.pending;
    } else {
      var n := |s| - 1;
      FeedEscaped(d, s[..n]);
      FeedAppend(d, Escaped(s[..n]), EscapedByte(s[n]));
      FeedEscapedByte(d.(pending := d.pending + s[..n]), s[n]);
      assert d.pending + s[..n] + [s[n]] == d.pending + s;
    }
  }

  /** From any state, even in the middle of an escape sequence, an encoded chunk is delivered as the last frame; what
      was pending before comes out as a frame of its own. */
  lemma FeedEncoded(d: Decoder, s: Buffer)
    ensures Feed(d, Encoded(s)) ==
      Decoder(false, [], d.frames + (if d.pending == [] then [] else [d.pending]) + (if s == [] then [] else [s]))
  {
    hide Escaped, Feed;
    FeedAppend(d, [END] + Escaped(s), [END]);
    FeedAppend(d, [END], Escaped(s));
    FeedOne(d, END);
    var d1 := Step(d, END);
    assert d1 == Decoder(false, [], d.frames + (if d.pending == [] then [] else [d.pending]));
    FeedEscaped(d1, s);
    assert [] + s == s;
    FeedOne(d1.(pending := s), END);
  }

  function Stream(chunks: seq<Buffer>): Buffer
    decreases |chunks|
  {
    if |chunks| == 0 then [] else Stream(chunks[..|chunks| - 1]) + Encoded(chunks[|chunks| - 1])
  }

  function NonEmpty(chunks: seq<Buffer>): seq<Buffer>
    decreases |chunks|
  {
    if |chunks| == 0 then []
    else
      var n := |chunks| - 1;
      NonEmpty(chunks[..n]) + (if chunks[n] == [] then [] else [chunks[n]])
  }

  lemma {:induction false} StreamDecodes(frames: seq<Buffer>, chunks: seq<Buffer>)
    ensures Feed(Decoder(false, [], frames), Stream(chunks)) == Decoder(false, [], frames + NonEmpty(chunks))
    decreases |chunks|
  {
    hide Encoded, Step;
    if |chunks| == 0 {
      assert frames + [] == frames;
    } else {
      var n := |chunks| - 1;
      StreamDecodes(frames, chunks[..n]);
      FeedAppend(Decoder(false, [], frames), Stream(chunks[..n]), Encoded(chunks[n]));
      FeedEncoded(Decoder(false, [], frames + NonEmpty(chunks[..n])), chunks[n]);
      assert frames + NonEmpty(chunks[..n]) + [] + (if chunks[n] == [] then [] else [chunks[n]])
        == frames + NonEmpty(chunks);
    }
  }

  function FeedReads(d: Decoder, pieces: seq<Buffer>): Decoder
    decreases |pieces|
  {
    if |pieces| == 0 then d else FeedReads(Feed(d, pieces[0]), pieces[1..])
  }

  lemma {:induction false} ReadsDoNotMatter(d: Decoder, pieces: seq<Buffer>)
    ensures FeedReads(d, pieces) == Feed(d, Concat(pieces))
    decreases |pieces|
  {
    hide Step;
    if |pieces| > 0 {
      ReadsDoNotMatter(Feed(d, pieces[0]), pieces[1..]);
      FeedAppend(d, pieces[0], Concat(pieces[1..]));
    }
  }

  /** Encoded chunks, split into reads in any way, decode to exactly the non-empty chunks in order. */
  lemma DecodesExactlyTheChunks(chunks: seq<Buffer>, pieces: seq<Buffer>)
    requires Concat(pieces) == Stream(chunks)
    ensures FeedReads(Decoder(false, [], []), pieces) == Decoder(false, [], NonEmpty(chunks))
  {
    ReadsDoNotMatter(Decoder(false, [], []), pieces);
    StreamDecodes([], chunks);
    assert [] + NonEmpty(chunks) == NonEmpty(chunks);
  }

  // ---- arbitrary bytes ----

  /** What an octet after an ESC stands for; RFC 1055 lets a wrong one through. */
  function AfterEscape(b: Byte): Byte {
    if b == 220 then 192 else if b == 221 then 219 else b
  }

  /** What a segment without END stands for; an ESC at its end stands for nothing. */
  function Unescaped(s: Buffer): Buffer {
    if |s| == 0 then []
    else if s[0] != 219 then [s[0]] + Unescaped(s[1..])
    else if |s| == 1 then []
    else [AfterEscape(s[1])] + Unescaped(s[2..])
  }

  /** Where the first END is. */
  function FirstEnd(s: Buffer): (k: nat)
    ensures k <= |s| && (k < |s| ==> s[k] == 192) && 192 !in s[..k]
  {
    if |s| == 0 || s[0] == 192 then 0
    else
      assert s[..1 + FirstEnd(s[1..])] == [s[0]] + s[1..][..FirstEnd(s[1..])];
      1 + FirstEnd(s[1..])
  }

  datatype Segments = Segments(complete: seq<Buffer>, rest: Buffer)

  /** A stream is segments, each of which ends with an END, and the beginning of another one; empty ones mean
      nothing. */
  function SegmentsOf(s: Buffer): Segments
    decreases |s|
  {
    var k := FirstEnd(s);
    if k == |s| then Segments([], s)
    else
      var tail := SegmentsOf(s[k + 1..]);
      var first := Unescaped(s[..k]);
      Segments((if first == [] then [] else [first]) + tail.complete, tail.rest)
  }

  lemma {:induction false} FeedSegment(d: Decoder, s: Buffer)
    requires !d.escape && 192 !in s
    ensures Feed(d, s).pending == d.pending + Unescaped(s) && Feed(d, s).frames == d.frames
    decreases |s|
  {
    hide Feed;
    if |s| == 0 {
      FeedNone(d);
      assert d.pending + [] == d.pending;
    } else if s[0] != 219 {
      assert s == [s[0]] + s[1..];
      FeedAppend(d, [s[0]], s[1..]);
      FeedOne(d, s[0]);
      FeedSegment(Step(d, s[0]), s[1..]);
      assert d.pending + [s[0]] + Unescaped(s[1..]) == d.pending + ([s[0]] + Unescaped(s[1..]));
    } else if |s| == 1 {
      assert s == [219];
      FeedOne(d, 219);
      assert d.pending + [] == d.pending;
    } else {
      assert s == [219] + ([s[1]] + s[2..]);
      FeedAppend(d, [219], [s[1]] + s[2..]);
      FeedOne(d, 219);
      var d1 := Step(d, 219);
      FeedAppend(d1, [s[1]], s[2..]);
      FeedOne(d1, s[1]);
      FeedSegment(Step(d1, s[1]), s[2..]);
      var c := AfterEscape(s[1]);
      assert d.pending + [c] + Unescaped(s[2..]) == d.pending + ([c] + Unescaped(s[2..]));
    }
  }

  lemma FeedNone(d: Decoder)
    ensures Feed(d, []) == d
  {
  }

  /** Whatever the bytes are, the decoder hands over exactly what their segments stand for. */
  lemma {:induction false} DecodesTheSegments(d: Decoder, s: Buffer)
    requires !d.escape && d.pending == []
    ensures Feed(d, s).frames == d.frames + SegmentsOf(s).complete
    ensures Feed(d, s).pending == Unescaped(SegmentsOf(s).rest)
    decreases |s|
  {
    hide Feed, Unescaped, SegmentsOf, FirstEnd, Step;
    var k := FirstEnd(s);
    FeedSegment(d, s[..k]);
    SegmentsStep(s);
    if k == |s| {
      assert s[..k] == s;
      assert [] + Unescaped(s) == Unescaped(s) && d.frames + [] == d.frames;
    } else {
      var d1, tail, first := Feed(d, s[..k]), s[k + 1..], Unescaped(s[..k]);
      assert [] + first == first;
      assert s == s[..k] + ([192] + tail);
      FeedAppend(d, s[..k], [192] + tail);
      FeedAppend(d1, [192], tail);
      FeedOne(d1, 192);
      SegmentEnds(d1);
      DecodesTheSegments(Step(d1, 192), tail);
      var more := if first == [] then [] else [first];
      assert (d.frames + more) + SegmentsOf(tail).complete == d.frames + (more + SegmentsOf(tail).complete);
    }
  }

  lemma SegmentsStep(s: Buffer)
    ensures var k := FirstEnd(s);
      if k == |s| then SegmentsOf(s) == Segments([], s)
      else
        var tail, first := SegmentsOf(s[k + 1..]), Unescaped(s[..k]);
        SegmentsOf(s) == Segments((if first == [] then [] else [first]) + tail.complete, tail.rest)
  {
    hide Unescaped, FirstEnd;
  }

  lemma SegmentEnds(d: Decoder)
    ensures Step(d, 192) == Decoder(false, [], d.frames + (if d.pending == [] then [] else [d.pending]))
  {
    assert d.frames + [] == d.frames;
  }

  /** The bytes of a chunk on the wire: END at both ends and nowhere between them, with END and ESC replaced. */
  lemma {:induction false} EncodedImage(s: Buffer)
    ensures Encoded(s) == [192] + Escaped(s) + [192] && 192 !in Escaped(s)
    ensures |s| > 0 ==>
      var b := s[|s| - 1];
      Escaped(s) == Escaped(s[..|s| - 1])
        + (if b == 192 then [219, 220] else if b == 219 then [219, 221] else [b])
  {
    if |s| > 0 { EncodedImage(s[..|s| - 1]); }
  }

  class SLIPFramedDataMessageIOGateway {
    var lastReceivedCharWasEscape: bool
    var pendingBuffer: Buffer
    var pendingMessage: seq<Buffer>

    function Abs(): Decoder
      reads this
    {
      Decoder(lastReceivedCharWasEscape, pendingBuffer, pendingMessage)
    }

    constructor ()
      ensures Abs() == Decoder(false, [], [])
    {
      lastReceivedCharWasEscape, pendingBuffer, pendingMessage := false, [], [];
    }

    method FlushCurrentIncomingSLIPFrame()
      modifies this`pendingBuffer, this`pendingMessage
      ensures Abs() == Flush(old(Abs()))
    {
      if |pendingBuffer| > 0 {
        pendingMessage := pendingMessage + [pendingBuffer];
        pendingBuffer := [];
      }
    }

    /** Raw bytes from the superclass. */
    method MessageReceivedFromGateway(buf: Buffer)
      modifies this
      ensures Abs() == Feed(old(Abs()), buf)
    {
      for i := 0 to |buf|
        invariant Abs() == Feed(old(Abs()), buf[..i])
      {
        var b := buf[i];
        assert buf[..i + 1][..i] == buf[..i];
        if lastReceivedCharWasEscape {
          if b == END {
            FlushCurrentIncomingSLIPFrame();
          } else if b == ESCAPE_END {
            pendingBuffer := pendingBuffer + [END];
          } else if b == ESCAPE_ESC {
            pendingBuffer := pendingBuffer + [ESC];
          } else {
            pendingBuffer := pendingBuffer + [b];
          }
          lastReceivedCharWasEscape := false;
        } else {
          if b == END {
            FlushCurrentIncomingSLIPFrame();
          } else if b != ESC {
            pendingBuffer := pendingBuffer + [b];
          }
          lastReceivedCharWasEscape := b == ESC;
        }
      }
      assert buf[..|buf|] == buf;
    }
  }
}
