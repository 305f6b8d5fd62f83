/** WebSocketMessageIOGateway after the handshake: the incremental frame parser, the execution of received frames and
    the frame writer (sections 5.2 to 5.5 of RFC 6455). */
module WebSocketFraming {
  import opened Bytes

  const OPCODE_CONTINUATION: nat := 0
  const OPCODE_TEXT: nat := 1
  const OPCODE_BINARY: nat := 2
  const OPCODE_CLOSE: nat := 8
  const OPCODE_PING: nat := 9
  const OPCODE_PONG: nat := 10

  const MAX_HEADER_SIZE: nat := 14
  const MAX_PAYLOAD_SIZE: nat := 10 * 1024 * 1024

  // ---- big-endian words ----

  function ToBE(n: nat, k: nat): (s: Buffer)
    ensures |s| == k
    decreases k, n
  {
    if k == 0 then [] else ToBE(n / 256, k - 1) + [n % 256]
  }

  function FromBE(s: Buffer): nat {
    if |s| == 0 then 0 else 256 * FromBE(s[..|s| - 1]) + s[|s| - 1]
  }

  lemma {:induction false} FromBEToBE(n: nat, k: nat)
    requires n < Pow256(k)
    ensures FromBE(ToBE(n, k)) == n
    decreases k
  {
    if k > 0 {
      assert n / 256 < Pow256(k - 1);
      FromBEToBE(n / 256, k - 1);
      assert ToBE(n, k)[..k - 1] == ToBE(n / 256, k - 1);
    }
  }

  // ---- masking ----

  function XorBits(a: nat, b: nat, bits: nat): nat
    decreases bits
  {
    if bits == 0 then 0 else (a + b) % 2 + 2 * XorBits(a / 2, b / 2, bits - 1)
  }

  function Pow2(k: nat): (r: nat)
    ensures r > 0
  {
    if k == 0 then 1 else 2 * Pow2(k - 1)
  }

  lemma {:induction false} XorBitsTwice(a: nat, b: nat, bits: nat)
    requires a < Pow2(bits)
    ensures XorBits(a, b, bits) < Pow2(bits)
    ensures XorBits(XorBits(a, b, bits), b, bits) == a
    decreases bits
  {
    if bits > 0 {
      assert a / 2 < Pow2(bits - 1);
      XorBitsTwice(a / 2, b / 2, bits - 1);
      XorLowBit(a, b, XorBits(a / 2, b / 2, bits - 1));
    }
  }

  lemma XorLowBit(a: nat, b: nat, high: nat)
    ensures var x := (a + b) % 2 + 2 * high; x / 2 == high && (x + b) % 2 == a % 2
  {
  }

  lemma ByteRange()
    ensures Pow2(8) == 256
  {
    assert Pow2(4) == 16;
  }

  /** Exclusive or of two octets. */
  function Xor(a: Byte, b: Byte): Byte {
    ByteRange();
    XorBitsTwice(a, b, 8);
    XorBits(a, b, 8)
  }

  lemma XorTwice(a: Byte, b: Byte)
    ensures Xor(Xor(a, b), b) == a
  {
    ByteRange();
    XorBitsTwice(a, b, 8);
  }

  /** Bit k of a number. */
  function Bit(n: nat, k: nat): nat
    decreases k
  {
    if k == 0 then n % 2 else Bit(n / 2, k - 1)
  }

  lemma {:induction false} XorBitAt(a: nat, b: nat, bits: nat, k: nat)
    requires k < bits
    ensures Bit(XorBits(a, b, bits), k) == (Bit(a, k) + Bit(b, k)) % 2
    decreases bits
  {
    hide XorBits, Bit;
    var x, high := XorBits(a, b, bits), XorBits(a / 2, b / 2, bits - 1);
    XorStep(a, b, bits);
    BitStep(x, k);
    BitStep(a, k);
    BitStep(b, k);
    if k > 0 {
      XorLowBit(a, b, high);
      XorBitAt(a / 2, b / 2, bits - 1, k - 1);
    } else {
      Parity(a, b, high);
    }
  }

  lemma XorStep(a: nat, b: nat, bits: nat)
    requires bits > 0
    ensures XorBits(a, b, bits) == (a + b) % 2 + 2 * XorBits(a / 2, b / 2, bits - 1)
  {
  }

  lemma BitStep(n: nat, k: nat)
    ensures Bit(n, k) == if k == 0 then n % 2 else Bit(n / 2, k - 1)
  {
  }

  lemma Parity(a: nat, b: nat, high: nat)
    ensures ((a + b) % 2 + 2 * high) % 2 == (a % 2 + b % 2) % 2
  {
  }

  /** Masking inverts exactly those bits of an octet that are set in its octet of the key. */
  lemma MaskedBits(key: Buffer, s: Buffer, i: nat, k: nat)
    requires |key| == 4 && i < |s| && k < 8
    ensures Bit(Masked(key, s)[i], k) == (Bit(s[i], k) + Bit(key[i % 4], k)) % 2
  {
    hide XorBits, Bit;
    XorBitAt(s[i], key[i % 4], 8, k);
  }

  /** The transformation of section 5.3: octet i is combined with octet i MOD 4 of the key. */
  function Masked(key: Buffer, s: Buffer): (r: Buffer)
    requires |key| == 4
    ensures |r| == |s|
  {
    seq(|s|, i requires 0 <= i < |s| => Xor(s[i], key[i % 4]))
  }

  lemma MaskedTwice(key: Buffer, s: Buffer)
    requires |key| == 4
    ensures Masked(key, Masked(key, s)) == s
  {
    forall i | 0 <= i < |s| ensures Masked(key, Masked(key, s))[i] == s[i] { XorTwice(s[i], key[i % 4]); }
  }

  // ---- frames ----

  /** The three ways to write a payload length. */
  datatype Form = Short | Medium | Long

  /** A frame; key is empty in an unmasked frame. */
  datatype Frame = Frame(fin: bool, opcode: nat, form: Form, key: Buffer, payload: Buffer)

  predicate Fits(form: Form, n: nat) {
    match form
    case Short => n <= 125
    case Medium => n <= 65535
    case Long => n <= MAX_PAYLOAD_SIZE
  }

  predicate WellFormed(f: Frame) {
    f.opcode < 16 && |f.key| in {0, 4} && Fits(f.form, |f.payload|)
  }

  function ExtendedLength(f: Frame): Buffer {
    match f.form
    case Short => []
    case Medium => ToBE(|f.payload|, 2)
    case Long => ToBE(|f.payload|, 8)
  }

  function FirstByte(f: Frame): Byte
    requires WellFormed(f)
  {
    (if f.fin then 128 else 0) + f.opcode
  }

  function SecondByte(f: Frame): Byte
    requires WellFormed(f)
  {
    (if f.key == [] then 0 else 128) + (match f.form case Short => |f.payload| case Medium => 126 case Long => 127)
  }

  function PayloadOnWire(f: Frame): Buffer
    requires WellFormed(f)
  {
    if f.key == [] then f.payload else Masked(f.key, f.payload)
  }

  function FrameBytes(f: Frame): Buffer
    requires WellFormed(f)
  {
    [FirstByte(f), SecondByte(f)] + ((ExtendedLength(f) + f.key) + PayloadOnWire(f))
  }

  // ---- the parser ----

  datatype Executed = Executed(opcode: nat, payload: Buffer)

  /** The gateway's receive state.  The payload buffer has payloadSize bytes, of which those in payload have been
      read. */
  datatype Rx = Rx(isClient: bool, header: Buffer, headerSize: nat, payload: Option<Buffer>, payloadSize: nat,
                   mask: Buffer, firstByteToMask: nat, opCode: nat, inputClosed: bool, failed: bool,
                   executed: seq<Executed>)

  function Start(isClient: bool): Rx {
    Rx(isClient, [], 2, None, 0, [0, 0, 0, 0], 0, 0, false, false, [])
  }

  function Collected(o: Option<Buffer>): Buffer {
    if o.Some? then o.value else []
  }

  predicate Shaped(rx: Rx) {
    && |rx.mask| == 4 && |rx.header| <= rx.headerSize && rx.headerSize in {2, 4, 6, 8, 10, 14}
    && (|rx.header| == rx.headerSize && !rx.failed ==> rx.payload.Some? && |rx.payload.value| < rx.payloadSize)
    && rx.firstByteToMask <= |Collected(rx.payload)|
  }

  function ResetHeader(rx: Rx): Rx {
    rx.(header := [], headerSize := 2)
  }

  function Fail(rx: Rx): Rx {
    rx.(failed := true)
  }

  function ExecuteFrame(rx: Rx): Rx {
    rx.(executed := if rx.inputClosed then rx.executed else rx.executed + [Executed(rx.opCode, Collected(rx.payload))],
        inputClosed := rx.inputClosed || rx.opCode == OPCODE_CLOSE,
        payload := None, opCode := 0, firstByteToMask := 0)
  }

  /** The bytes from position first on, combined with the mask. */
  function UnmaskedFrom(s: Buffer, first: nat, mask: Buffer): (r: Buffer)
    requires |mask| == 4 && first <= |s|
    ensures |r| == |s|
  {
    s[..first] + Masked(mask, s[first..])
  }

  /** The last byte of a fragment has been read. */
  function FinishPayload(rx: Rx): Rx
    requires |rx.mask| == 4 && rx.header != [] && rx.payload.Some? && rx.firstByteToMask <= |rx.payload.value|
  {
    var p := rx.payload.value;
    var rx1 := if rx.isClient then rx
               else rx.(payload := Some(UnmaskedFrom(p, rx.firstByteToMask, rx.mask)), firstByteToMask := |p|);
    ResetHeader(if rx.inputClosed || rx.header[0] >= 128 then ExecuteFrame(rx1) else rx1)
  }

  function InitPayload(rx: Rx, n: nat, key: Buffer): Rx
    requires rx.header != []
  {
    var op := if rx.payload.None? then rx.header[0] % 16 else rx.opCode;
    if n == 0 then
      var rx1 := rx.(opCode := op);
      ResetHeader(if rx.header[0] >= 128 then ExecuteFrame(rx1) else rx1)
    else
      rx.(opCode := op, mask := if |key| == 4 then key else [0, 0, 0, 0],
          payload := Some(Collected(rx.payload)), payloadSize := |Collected(rx.payload)| + n)
  }

  function HeaderSizeFor(second: Byte): nat {
    2 + (if second % 128 == 126 then 2 else if second % 128 == 127 then 8 else 0) + (if second >= 128 then 4 else 0)
  }

  /** headerSize bytes of header have been read; after the first two of them more may be needed. */
  function FinishHeader(rx: Rx): Rx
    requires |rx.header| == rx.headerSize && rx.headerSize in {2, 4, 6, 8, 10, 14}
  {
    var h := rx.header;
    if rx.headerSize == 2 then
      if h[0] / 16 % 8 != 0 || rx.isClient == (h[1] >= 128) then Fail(rx)
      else if HeaderSizeFor(h[1]) == 2 then InitPayload(rx, h[1] % 128, [])
      else rx.(headerSize := HeaderSizeFor(h[1]))
    else if rx.headerSize == 6 then InitPayload(rx, h[1] % 128, h[2..6])
    else if rx.headerSize in {4, 8} then InitPayload(rx, FromBE(h[2..4]), h[4..])
    else if FromBE(h[2..10]) > MAX_PAYLOAD_SIZE then Fail(rx)
    else InitPayload(rx, FromBE(h[2..10]), h[10..])
  }

  /** One incoming byte. */
  function Step(rx: Rx, b: Byte): Rx
    requires Shaped(rx)
  {
    if rx.failed then rx
    else if |rx.header| == rx.headerSize then
      var rx1 := rx.(payload := Some(rx.payload.value + [b]));
      if |rx1.payload.value| == rx.payloadSize then FinishPayload(rx1) else rx1
    else
      var rx1 := rx.(header := rx.header + [b]);
      if |rx1.header| == rx1.headerSize then FinishHeader(rx1) else rx1
  }

  /** All that Shaped() demands while a header is complete but not yet acted upon. */
  predicate HeaderComplete(rx: Rx) {
    |rx.mask| == 4 && |rx.header| == rx.headerSize && rx.headerSize in {2, 4, 6, 8, 10, 14}
    && rx.firstByteToMask <= |Collected(rx.payload)|
  }

  lemma InitPayloadShaped(rx: Rx, n: nat, key: Buffer)
    requires HeaderComplete(rx)
    ensures Shaped(InitPayload(rx, n, key))
  {
    hide Shaped, ExecuteFrame;
    if n == 0 {
      var rx1 := rx.(opCode := if rx.payload.None? then rx.header[0] % 16 else rx.opCode);
      ExecuteFrameShaped(rx1);
      ResetShaped(rx1);
      ResetShaped(ExecuteFrame(rx1));
    } else {
      WaitingShaped(InitPayload(rx, n, key), n);
    }
  }

  lemma ExecuteFrameShaped(rx: Rx)
    requires |rx.mask| == 4
    ensures |ExecuteFrame(rx).mask| == 4 && ExecuteFrame(rx).firstByteToMask <= |Collected(ExecuteFrame(rx).payload)|
  {
  }

  lemma ResetShaped(rx: Rx)
    requires |rx.mask| == 4 && rx.firstByteToMask <= |Collected(rx.payload)|
    ensures Shaped(ResetHeader(rx))
  {
  }

  lemma WaitingShaped(rx: Rx, n: nat)
    requires HeaderComplete(rx) && n > 0 && rx.payload.Some? && rx.payloadSize == |rx.payload.value| + n
    ensures Shaped(rx)
  {
  }

  lemma FinishHeaderShaped(rx: Rx)
    requires HeaderComplete(rx)
    ensures Shaped(FinishHeader(rx))
  {
    hide FromBE, InitPayload;
    var h := rx.header;
    if rx.headerSize == 2 {
      InitPayloadShaped(rx, h[1] % 128, []);
    } else if rx.headerSize == 6 {
      InitPayloadShaped(rx, h[1] % 128, h[2..6]);
    } else if rx.headerSize in {4, 8} {
      InitPayloadShaped(rx, FromBE(h[2..4]), h[4..]);
    } else {
      InitPayloadShaped(rx, FromBE(h[2..10]), h[10..]);
    }
  }

  lemma StepShaped(rx: Rx, b: Byte)
    requires Shaped(rx)
    ensures Shaped(Step(rx, b))
  {
    hide FinishHeader, Masked;
    if |rx.header| + 1 == rx.headerSize { FinishHeaderShaped(rx.(header := rx.header + [b])); }
  }

  function Feed(rx: Rx, s: Buffer): (r: Rx)
    requires Shaped(rx)
    ensures Shaped(r)
    decreases |s|
  {
    if |s| == 0 then rx
    else
      StepShaped(rx, s[0]);
      Feed(Step(rx, s[0]), s[1..])
  }

  /** Chunk invariance: how the stream is split does not matter. */
  lemma {:induction false} FeedAppend(rx: Rx, a: Buffer, b: Buffer)
    requires Shaped(rx)
    ensures Feed(rx, a + b) == Feed(Feed(rx, a), b)
    decreases |a|
  {
    hide Step, Shaped;
    if |a| == 0 {
      assert a + b == b;
    } else {
      StepShaped(rx, a[0]);
      FeedAppend(Step(rx, a[0]), a[1..], b);
      assert (a + b)[1..] == a[1..] + b;
    }
  }

  // ---- whole reads ----

  /** What one read of header bytes does. */
  function ReadHeaderBytes(rx: Rx, s: Buffer): Rx
    requires Shaped(rx) && !rx.failed && |rx.header| + |s| <= rx.headerSize && |rx.header| < rx.headerSize
  {
    var rx1 := rx.(header := rx.header + s);
    if |rx1.header| == rx1.headerSize then FinishHeader(rx1) else rx1
  }

  /** What one read of payload bytes does. */
  function ReadPayloadBytes(rx: Rx, s: Buffer): Rx
    requires Shaped(rx) && !rx.failed && |rx.header| == rx.headerSize
    requires |rx.payload.value| + |s| <= rx.payloadSize
  {
    var rx1 := rx.(payload := Some(rx.payload.value + s));
    if |rx1.payload.value| == rx1.payloadSize then FinishPayload(rx1) else rx1
  }

  lemma {:induction false} FeedHeader(rx: Rx, s: Buffer)
    requires Shaped(rx) && !rx.failed && |rx.header| + |s| <= rx.headerSize && |rx.header| < rx.headerSize
    ensures Feed(rx, s) == ReadHeaderBytes(rx, s)
    decreases |s|
  {
    hide FinishHeader, FinishPayload;
    if |s| == 0 {
      assert rx.header + s == rx.header;
    } else if |s| == 1 {
      FeedOne(rx, s[0]);
      assert s == [s[0]];
    } else {
      StepShaped(rx, s[0]);
      FeedHeader(Step(rx, s[0]), s[1..]);
      assert rx.header + s == (rx.header + [s[0]]) + s[1..];
    }
  }

  lemma FeedOne(rx: Rx, b: Byte)
    requires Shaped(rx)
    ensures Feed(rx, [b]) == Step(rx, b)
  {
    hide Step;
    StepShaped(rx, b);
    assert Feed(Step(rx, b), []) == Step(rx, b);
  }

  lemma {:induction false} FeedPayload(rx: Rx, s: Buffer)
    requires Shaped(rx) && !rx.failed && |rx.header| == rx.headerSize
    requires |rx.payload.value| + |s| <= rx.payloadSize
    ensures Feed(rx, s) == ReadPayloadBytes(rx, s)
    decreases |s|
  {
    hide FinishHeader, FinishPayload;
    if |s| == 0 {
      assert rx.payload.value + s == rx.payload.value;
    } else if |s| == 1 {
      FeedOne(rx, s[0]);
      assert s == [s[0]];
    } else {
      StepShaped(rx, s[0]);
      FeedPayload(Step(rx, s[0]), s[1..]);
      assert rx.payload.value + s == (rx.payload.value + [s[0]]) + s[1..];
    }
  }

  // ---- a whole frame ----

  /** The parser stands between two frames. */
  predicate Ready(rx: Rx) {
    Shaped(rx) && !rx.failed && rx.header == [] && rx.headerSize == 2
    && (if rx.isClient then rx.firstByteToMask == 0 else rx.firstByteToMask == |Collected(rx.payload)|)
  }

  // ---- what the parser refuses ----

  lemma {:induction false} FailedForGood(rx: Rx, s: Buffer)
    requires Shaped(rx) && rx.failed
    ensures Feed(rx, s) == rx
    decreases |s|
  {
    hide Shaped;
    if |s| > 0 { FailedForGood(rx, s[1..]); }
  }

  /** The header bytes of a frame make the parser fail, for good and without executing anything, exactly when a reserved
      bit is set, when the mask bit is not what the peer's role demands, or when a 64-bit length exceeds 10 MiB. */
  lemma HeaderFailsIff(rx: Rx, d: Buffer, s: Buffer)
    requires Ready(rx) && |d| >= 2
    requires |d| == 2 + (if d[1] % 128 == 126 then 2 else if d[1] % 128 == 127 then 8 else 0)
                      + (if d[1] >= 128 then 4 else 0)
    ensures Feed(rx, d).failed <==>
      d[0] / 16 % 8 != 0 || (d[1] >= 128) == rx.isClient || (d[1] % 128 == 127 && Length64(d[2..10]) > 10485760)
    ensures Feed(rx, d).failed ==> Feed(rx, d + s) == Feed(rx, d) && Feed(rx, d).executed == rx.executed
  {
    hide Feed, Length64, Ready;
    ReadyIsShaped(rx);
    FirstTwoFailIff(rx, d);
    var rx1 := Feed(rx, d[..2]);
    assert d == d[..2] + d[2..];
    FeedAppend(rx, d[..2], d[2..]);
    if rx1.failed {
      FailedForGood(rx1, d[2..]);
    } else if |d| == 2 {
      assert d[2..] == [];
      FeedNothing(rx1);
    } else {
      RestFailsIff(rx1, d);
    }
    FeedAppend(rx, d, s);
    if Feed(rx, d).failed { FailedForGood(Feed(rx, d), s); }
  }

  lemma FirstTwoFailIff(rx: Rx, d: Buffer)
    requires Ready(rx) && |d| >= 2
    ensures Shaped(rx)
    ensures var rx1 := Feed(rx, d[..2]);
      && (rx1.failed <==> d[0] / 16 % 8 != 0 || (d[1] >= 128) == rx.isClient)
      && (rx1.failed || HeaderSizeFor(d[1]) > 2 ==> rx1.executed == rx.executed)
      && (!rx1.failed && HeaderSizeFor(d[1]) > 2 ==> rx1.header == d[..2] && rx1.headerSize == HeaderSizeFor(d[1]))
  {
    hide Feed, InitPayload;
    var first := d[..2];
    assert [] + first == first;
    FeedHeader(rx, first);
    InitDoesNotFail(rx.(header := first), d[1] % 128, []);
  }

  lemma RestFailsIff(rx: Rx, d: Buffer)
    requires Shaped(rx) && !rx.failed && |d| > 2 && rx.header == d[..2] && rx.headerSize == HeaderSizeFor(d[1]) == |d|
    ensures Feed(rx, d[2..]).failed <==> (d[1] % 128 == 127 && Length64(d[2..10]) > 10485760)
    ensures Feed(rx, d[2..]).failed ==> Feed(rx, d[2..]).executed == rx.executed
  {
    hide Feed, InitPayload, Length64, FromBE;
    assert d[..2] + d[2..] == d;
    FeedHeader(rx, d[2..]);
    var rx1 := rx.(header := d);
    if |d| == 6 {
      InitDoesNotFail(rx1, d[1] % 128, d[2..6]);
    } else if |d| in {4, 8} {
      InitDoesNotFail(rx1, FromBE(d[2..4]), d[4..]);
    } else {
      LengthIsBigEndian(d[2..10]);
      InitDoesNotFail(rx1, FromBE(d[2..10]), d[10..]);
    }
  }

  lemma InitDoesNotFail(rx: Rx, n: nat, key: Buffer)
    requires rx.header != []
    ensures InitPayload(rx, n, key).failed == rx.failed
  {
  }

  /** An unsigned 64-bit number in network byte order. */
  function Length64(s: Buffer): nat
    requires |s| == 8
  {
    Word32(s, 0) * 0x1_0000_0000 + Word32(s, 4)
  }

  lemma LengthIsBigEndian(s: Buffer)
    requires |s| == 8
    ensures FromBE(s) == Length64(s)
  {
    hide FromBE;
    assert s[..8] == s && s[..0] == [];
    FromBESnoc(s, 0);
    NextWord(s, 0);
    NextWord(s, 4);
  }

  lemma NextWord(s: Buffer, n: nat)
    requires n + 4 <= |s|
    ensures FromBE(s[..n + 4]) == FromBE(s[..n]) * 0x1_0000_0000 + Word32(s, n)
  {
    hide FromBE;
    FromBESnoc(s, n);
    FromBESnoc(s, n + 1);
    FromBESnoc(s, n + 2);
    FromBESnoc(s, n + 3);
  }

  /** The 32-bit number in network byte order at position n. */
  function Word32(s: Buffer, n: nat): nat
    requires n + 4 <= |s|
  {
    (s[n] as nat) * 0x1000000 + (s[n + 1] as nat) * 0x10000 + (s[n + 2] as nat) * 0x100 + s[n + 3]
  }

  lemma FromBESnoc(s: Buffer, k: nat)
    requires k < |s|
    ensures FromBE(s[..k + 1]) == 256 * FromBE(s[..k]) + s[k] && FromBE([]) == 0
  {
    assert s[..k + 1][..k] == s[..k];
  }

  /** The effect of a frame on a parser that stands between two frames. */
  function AfterFrame(rx: Rx, f: Frame): Rx {
    var rx1 := rx.(opCode := if rx.payload.None? then f.opcode else rx.opCode);
    var rx2 := if f.payload == [] then rx1
               else
                 var p := Collected(rx.payload) + f.payload;
                 rx1.(payload := Some(p), payloadSize := |p|, mask := if f.key == [] then [0, 0, 0, 0] else f.key,
                      firstByteToMask := if rx.isClient then 0 else |p|);
    if f.fin || (rx.inputClosed && f.payload != []) then ExecuteFrame(rx2) else rx2
  }

  lemma AfterFrameReady(rx: Rx, f: Frame)
    requires Ready(rx) && WellFormed(f)
    ensures Ready(AfterFrame(rx, f))
  {
  }

  /** Sections 5.2 and 5.3: a frame that is masked as it must be is read back exactly. */
  lemma FeedFrame(rx: Rx, f: Frame)
    requires Ready(rx) && WellFormed(f) && rx.isClient == (f.key == [])
    ensures Feed(rx, FrameBytes(f)) == AfterFrame(rx, f)
  {
    hide Feed, FinishHeader, FinishPayload, InitPayload, ExtendedLength, PayloadOnWire, AfterFrame;
    var first, tail, body := [FirstByte(f), SecondByte(f)], ExtendedLength(f) + f.key, PayloadOnWire(f);
    FeedAppend(rx, first, tail + body);
    FeedAppend(Feed(rx, first), tail, body);
    FeedTail(rx, f);
    FeedBody(rx, f);
  }

  /** The header is complete: everything about the payload is known. */
  function HeaderRead(rx: Rx, f: Frame): Rx
    requires WellFormed(f)
  {
    var header := [FirstByte(f), SecondByte(f)] + (ExtendedLength(f) + f.key);
    InitPayload(rx.(header := header, headerSize := |header|), |f.payload|, f.key)
  }

  lemma FirstTwoBytes(rx: Rx, f: Frame)
    requires Ready(rx) && WellFormed(f) && rx.isClient == (f.key == [])
    ensures var rx1 := rx.(header := [FirstByte(f), SecondByte(f)]);
      FinishHeader(rx1) ==
        if ExtendedLength(f) + f.key == [] then HeaderRead(rx, f)
        else rx1.(headerSize := 2 + |ExtendedLength(f)| + |f.key|)
  {
    hide InitPayload, FromBE, ToBE;
    assert FirstByte(f) / 16 % 8 == 0;
    if ExtendedLength(f) + f.key == [] {
      assert f.key == [] && ExtendedLength(f) == [];
      assert rx.(header := [FirstByte(f), SecondByte(f)]).header
        == [FirstByte(f), SecondByte(f)] + (ExtendedLength(f) + f.key);
    }
  }

  lemma FeedTail(rx: Rx, f: Frame)
    requires Ready(rx) && WellFormed(f) && rx.isClient == (f.key == [])
    ensures Feed(Feed(rx, [FirstByte(f), SecondByte(f)]), ExtendedLength(f) + f.key) == HeaderRead(rx, f)
  {
    hide Feed, FinishHeader, FinishPayload, InitPayload, ExtendedLength, HeaderRead;
    var first, tail := [FirstByte(f), SecondByte(f)], ExtendedLength(f) + f.key;
    assert rx.header + first == first;
    FeedHeader(rx, first);
    FirstTwoBytes(rx, f);
    var rx1 := Feed(rx, first);
    if tail == [] {
      FeedNothing(rx1);
    } else {
      FeedHeader(rx1, tail);
      WholeHeader(rx, f);
    }
  }

  lemma FeedNothing(rx: Rx)
    requires Shaped(rx)
    ensures Feed(rx, []) == rx
  {
  }

  lemma WholeHeader(rx: Rx, f: Frame)
    requires WellFormed(f) && ExtendedLength(f) + f.key != [] && rx.isClient == (f.key == [])
    ensures var h := [FirstByte(f), SecondByte(f)] + (ExtendedLength(f) + f.key);
      |h| in {4, 6, 8, 10, 14} && FinishHeader(rx.(header := h, headerSize := |h|)) == HeaderRead(rx, f)
  {
    hide InitPayload, FromBE, ToBE;
    var ext := ExtendedLength(f);
    var h := [FirstByte(f), SecondByte(f)] + (ext + f.key);
    ThreeParts([FirstByte(f), SecondByte(f)], ext, f.key);
    WordSizes(|f.payload|);
    match f.form
    case Short =>
      assert h[2..6] == f.key;
    case Medium =>
      FromBEToBE(|f.payload|, 2);
    case Long =>
      FromBEToBE(|f.payload|, 8);
  }

  lemma ThreeParts(a: Buffer, b: Buffer, c: Buffer)
    ensures var s := a + (b + c); s[|a|..|a| + |b|] == b && s[|a| + |b|..] == c
  {
  }

  lemma WordSizes(n: nat)
    ensures n <= 65535 ==> n < Pow256(2)
    ensures n <= MAX_PAYLOAD_SIZE ==> n < Pow256(8)
  {
    hide Pow256;
    Pow256Step(0); Pow256Step(1); Pow256Step(2); Pow256Step(3);
    Pow256Step(4); Pow256Step(5); Pow256Step(6); Pow256Step(7);
  }

  lemma Pow256Step(k: nat)
    ensures Pow256(0) == 1 && Pow256(k + 1) == 256 * Pow256(k)
  {
  }

  lemma FeedBody(rx: Rx, f: Frame)
    requires Ready(rx) && WellFormed(f) && rx.isClient == (f.key == []) && Shaped(HeaderRead(rx, f))
    ensures Feed(HeaderRead(rx, f), PayloadOnWire(f)) == AfterFrame(rx, f)
  {
    hide Feed, Masked, ExtendedLength;
    var rx1, body := HeaderRead(rx, f), PayloadOnWire(f);
    assert FirstByte(f) % 16 == f.opcode;
    if f.payload == [] {
      FeedNothing(rx1);
    } else {
      FeedPayload(rx1, body);
      var p := Collected(rx.payload);
      if !rx.isClient {
        MaskedTwice(f.key, f.payload);
        SplitAt(p, body);
      }
    }
  }

  // ---- streams of frames ----

  predicate IsControl(f: Frame) {
    f.opcode >= 8
  }

  /** Section 5.4: what a frame does to the data message that is open, if any, and what it completes. */
  function Extend(open: Option<Executed>, f: Frame): Executed {
    if open.None? then Executed(f.opcode, f.payload) else Executed(open.value.opcode, open.value.payload + f.payload)
  }

  /** Section 5.4: the messages that a series of frames makes up; control frames may come between fragments. */
  function Meaning(frames: seq<Frame>, open: Option<Executed>): seq<Executed>
    decreases |frames|
  {
    if |frames| == 0 then []
    else
      var f, rest := frames[0], frames[1..];
      if IsControl(f) then [Executed(f.opcode, f.payload)] + Meaning(rest, open)
      else if f.fin then [Extend(open, f)] + Meaning(rest, None)
      else Meaning(rest, Some(Extend(open, f)))
  }

  /** Sections 5.2 to 5.4: control frames are not fragmented, and a data message starts with a data opcode and goes on
      with continuation frames. */
  predicate Legal(frames: seq<Frame>, open: bool)
    decreases |frames|
  {
    |frames| == 0
    || (var f := frames[0];
        WellFormed(f)
        && (if IsControl(f) then f.fin && Legal(frames[1..], open)
            else (open == (f.opcode == OPCODE_CONTINUATION)) && Legal(frames[1..], !f.fin)))
  }

  function UpToClose(ms: seq<Executed>): seq<Executed> {
    if |ms| == 0 then []
    else if ms[0].opcode == OPCODE_CLOSE then [ms[0]]
    else [ms[0]] + UpToClose(ms[1..])
  }

  function StreamBytes(frames: seq<Frame>): Buffer
    requires forall f <- frames :: WellFormed(f)
  {
    if |frames| == 0 then [] else FrameBytes(frames[0]) + StreamBytes(frames[1..])
  }

  lemma {:induction false} ClosedForGood(rx: Rx, s: Buffer)
    requires Shaped(rx) && rx.inputClosed
    ensures Feed(rx, s).executed == rx.executed && Feed(rx, s).inputClosed
    decreases |s|
  {
    hide FromBE, Masked, Shaped;
    if |s| > 0 {
      StepClosed(rx, s[0]);
      ClosedForGood(Step(rx, s[0]), s[1..]);
    }
  }

  lemma StepClosed(rx: Rx, b: Byte)
    requires Shaped(rx) && rx.inputClosed
    ensures var next := Step(rx, b); Shaped(next) && next.executed == rx.executed && next.inputClosed
  {
    hide FromBE, Masked, Shaped;
    StepShaped(rx, b);
  }

  lemma NoFramesMeanNothing(open: Option<Executed>)
    ensures UpToClose(Meaning([], open)) == []
  {
  }

  lemma ReadyIsShaped(rx: Rx)
    requires Ready(rx)
    ensures Shaped(rx)
  {
  }

  lemma AfterFrameSide(rx: Rx, f: Frame)
    ensures AfterFrame(rx, f).isClient == rx.isClient
  {
  }

  function FeedChunks(rx: Rx, chunks: seq<Buffer>): Rx
    requires Shaped(rx)
    decreases |chunks|
  {
    if |chunks| == 0 then rx else FeedChunks(Feed(rx, chunks[0]), chunks[1..])
  }

  lemma {:induction false} ChunksDoNotMatter(rx: Rx, chunks: seq<Buffer>)
    requires Shaped(rx)
    ensures FeedChunks(rx, chunks) == Feed(rx, Concat(chunks))
    decreases |chunks|
  {
    hide Shaped, Feed;
    if |chunks| == 0 {
      FeedNothing(rx);
    } else {
      ChunksDoNotMatter(Feed(rx, chunks[0]), chunks[1..]);
      FeedAppend(rx, chunks[0], Concat(chunks[1..]));
    }
  }

  function AfterFrames(rx: Rx, frames: seq<Frame>): Rx
    decreases |frames|
  {
    if |frames| == 0 then rx else AfterFrames(AfterFrame(rx, frames[0]), frames[1..])
  }

  function Payloads(frames: seq<Frame>): Buffer {
    if |frames| == 0 then [] else frames[0].payload + Payloads(frames[1..])
  }

  /** Continuation frames, of which the last one and no other is final. */
  predicate Continuation(frames: seq<Frame>) {
    |frames| > 0
    && forall i :: 0 <= i < |frames| ==> frames[i].opcode == OPCODE_CONTINUATION && frames[i].fin == (i == |frames| - 1)
  }

  /** Continuation frames are executed once, under the opcode that was collected with the payload so far, if any. */
  lemma {:induction false} AfterContinuation(rx: Rx, frames: seq<Frame>)
    requires !rx.inputClosed && Continuation(frames)
    ensures AfterFrames(rx, frames).executed ==
      rx.executed + [Executed(if rx.payload.Some? then rx.opCode else 0, Collected(rx.payload) + Payloads(frames))]
    decreases |frames|
  {
    var f, rest := frames[0], frames[1..];
    var next := AfterFrame(rx, f);
    var p := Collected(rx.payload);
    assert p + [] == p;
    if |frames| == 1 {
      assert rest == [] && AfterFrames(next, []) == next;
      assert f.payload + [] == f.payload;
    } else {
      assert forall i :: 0 <= i < |rest| ==> rest[i] == frames[i + 1];
      AfterContinuation(next, rest);
      assert Collected(next.payload) == p + f.payload;
      assert p + (f.payload + Payloads(rest)) == (p + f.payload) + Payloads(rest);
    }
  }

  /** The restriction on first fragments is needed: however many fragments follow, the opcode of a fragmented message
      survives exactly when its first fragment is not empty. */
  lemma FirstFragmentIffNotEmpty(rx: Rx, f: Frame, rest: seq<Frame>)
    requires !rx.inputClosed && rx.payload.None? && !f.fin && 0 < f.opcode < 8 && Continuation(rest)
    ensures f.payload != [] <==>
      AfterFrames(rx, [f] + rest).executed == rx.executed + [Executed(f.opcode, f.payload + Payloads(rest))]
    ensures f.payload == [] ==> AfterFrames(rx, [f] + rest).executed == rx.executed + [Executed(0, Payloads(rest))]
  {
    hide Continuation, Payloads;
    var next := AfterFrame(rx, f);
    assert ([f] + rest)[1..] == rest;
    AfterContinuation(next, rest);
    assert [] + f.payload == f.payload && [] + Payloads(rest) == Payloads(rest);
    var a, b := Executed(f.opcode, f.payload + Payloads(rest)), Executed(0, Payloads(rest));
    assert (rx.executed + [a])[|rx.executed|] == a && (rx.executed + [b])[|rx.executed|] == b;
  }

  // ---- exactly which legal streams are read right ----

  /** A control frame needs that nothing of a data message has been collected; the final fragment of a data message
      needs that its first fragment was not empty. */
  predicate RightFrame(f: Frame, open: bool, emptyFirst: bool, collected: bool) {
    (IsControl(f) ==> !collected) && (!IsControl(f) && f.fin && open ==> !emptyFirst)
  }

  /** A walk over the frames, as far as CLOSE: is a data message open, was its first fragment empty, and has anything of
      it been collected? */
  predicate ReadRight(frames: seq<Frame>, open: bool, emptyFirst: bool, collected: bool)
    decreases |frames|
  {
    |frames| > 0 ==>
      var f, rest := frames[0], frames[1..];
      && RightFrame(f, open, emptyFirst, collected)
      && (f.opcode == OPCODE_CLOSE
          || (if IsControl(f) then ReadRight(rest, open, emptyFirst, collected)
              else if f.fin then ReadRight(rest, false, false, false)
              else if open then ReadRight(rest, true, emptyFirst, collected || f.payload != [])
              else ReadRight(rest, true, f.payload == [], f.payload != [])))
  }

  /** The parser's state, told from the message that is open by section 5.4 and the two flags of the walk. */
  predicate Follows(rx: Rx, open: Option<Executed>, emptyFirst: bool, collected: bool) {
    && Collected(rx.payload) == (if open.Some? then open.value.payload else [])
    && collected == rx.payload.Some?
    && (collected ==> open.Some? && rx.opCode < 8)
    && (open.None? ==> !emptyFirst)
    && (open.Some? ==> 0 < open.value.opcode < 8 && (emptyFirst || collected))
    && (collected ==> rx.opCode == if emptyFirst then 0 else open.value.opcode)
  }

  predicate LegalFrame(f: Frame, open: bool) {
    WellFormed(f) && (if IsControl(f) then f.fin else open == (f.opcode == OPCODE_CONTINUATION))
  }

  /** What a final frame means by section 5.4. */
  function Completed(open: Option<Executed>, f: Frame): Executed {
    if IsControl(f) then Executed(f.opcode, f.payload) else Extend(open, f)
  }

  function NextOpen(open: Option<Executed>, f: Frame): Option<Executed> {
    if IsControl(f) then open else if f.fin then None else Some(Extend(open, f))
  }

  predicate StaysOpen(f: Frame, open: bool) {
    if IsControl(f) then open else !f.fin
  }

  function NextEmptyFirst(f: Frame, open: bool, emptyFirst: bool): bool {
    if IsControl(f) then emptyFirst else if f.fin then false else if open then emptyFirst else f.payload == []
  }

  function NextCollected(f: Frame, open: bool, collected: bool): bool {
    if IsControl(f) then collected else if f.fin then false else (open && collected) || f.payload != []
  }

  /** What a final frame makes the parser execute. */
  function Taken(rx: Rx, f: Frame): Executed {
    Executed(if rx.payload.None? then f.opcode else rx.opCode, Collected(rx.payload) + f.payload)
  }

  lemma AfterAnyFrame(rx: Rx, f: Frame)
    requires !rx.inputClosed
    ensures var next := AfterFrame(rx, f);
      if f.fin then
        && next.executed == rx.executed + [Taken(rx, f)] && next.payload == None
        && next.inputClosed == (Taken(rx, f).opcode == OPCODE_CLOSE)
      else
        && next.executed == rx.executed && !next.inputClosed
        && Collected(next.payload) == Collected(rx.payload) + f.payload
        && next.payload.Some? == (rx.payload.Some? || f.payload != [])
        && next.opCode == Taken(rx, f).opcode
  {
    assert f.payload == [] ==> Collected(rx.payload) + f.payload == Collected(rx.payload);
  }

  /** One final frame is executed as it is meant exactly when the walk approves of it. */
  lemma TakenIff(rx: Rx, f: Frame, open: Option<Executed>, emptyFirst: bool, collected: bool)
    requires Follows(rx, open, emptyFirst, collected) && LegalFrame(f, open.Some?) && f.fin
    ensures Taken(rx, f) == Completed(open, f) <==> RightFrame(f, open.Some?, emptyFirst, collected)
    ensures RightFrame(f, open.Some?, emptyFirst, collected) ==>
      (Taken(rx, f).opcode == OPCODE_CLOSE <==> f.opcode == OPCODE_CLOSE)
  {
    assert [] + f.payload == f.payload;
  }

  lemma FollowsOn(rx: Rx, f: Frame, open: Option<Executed>, emptyFirst: bool, collected: bool)
    requires !rx.inputClosed && Follows(rx, open, emptyFirst, collected) && LegalFrame(f, open.Some?)
    requires RightFrame(f, open.Some?, emptyFirst, collected)
    ensures Follows(AfterFrame(rx, f), NextOpen(open, f), NextEmptyFirst(f, open.Some?, emptyFirst),
                    NextCollected(f, open.Some?, collected))
  {
    hide AfterFrame, WellFormed;
    AfterAnyFrame(rx, f);
    assert [] + f.payload == f.payload;
  }

  lemma ReadRightStep(frames: seq<Frame>, open: bool, emptyFirst: bool, collected: bool)
    requires |frames| > 0
    ensures var f, rest := frames[0], frames[1..];
      ReadRight(frames, open, emptyFirst, collected) <==>
        RightFrame(f, open, emptyFirst, collected)
        && (f.opcode == OPCODE_CLOSE
            || ReadRight(rest, StaysOpen(f, open), NextEmptyFirst(f, open, emptyFirst),
                         NextCollected(f, open, collected)))
  {
  }

  lemma MeaningOn(frames: seq<Frame>, open: Option<Executed>)
    requires |frames| > 0 && Legal(frames, open.Some?)
    ensures var f, rest := frames[0], frames[1..];
      && LegalFrame(f, open.Some?) && NextOpen(open, f).Some? == StaysOpen(f, open.Some?)
      && Legal(rest, StaysOpen(f, open.Some?))
      && Meaning(frames, open) == (if f.fin then [Completed(open, f)] else []) + Meaning(rest, NextOpen(open, f))
  {
    hide WellFormed;
  }

  lemma InitOnlyExecutes(rx: Rx, n: nat, key: Buffer)
    requires rx.header != []
    ensures rx.executed <= InitPayload(rx, n, key).executed
  {
  }

  lemma HeaderOnlyExecutes(rx: Rx)
    requires HeaderComplete(rx)
    ensures rx.executed <= FinishHeader(rx).executed
  {
    hide FromBE, InitPayload;
    forall n: nat, key: Buffer {
      InitOnlyExecutes(rx, n, key);
    }
  }

  lemma StepOnlyExecutes(rx: Rx, b: Byte)
    requires Shaped(rx)
    ensures rx.executed <= Step(rx, b).executed
  {
    hide FinishHeader, UnmaskedFrom;
    if |rx.header| + 1 == rx.headerSize {
      HeaderOnlyExecutes(rx.(header := rx.header + [b]));
    }
  }

  /** What has been executed stays executed, whatever comes next. */
  lemma {:induction false} FeedOnlyExecutes(rx: Rx, s: Buffer)
    requires Shaped(rx)
    ensures rx.executed <= Feed(rx, s).executed
    decreases |s|
  {
    hide Shaped, Step;
    if |s| > 0 {
      StepShaped(rx, s[0]);
      StepOnlyExecutes(rx, s[0]);
      FeedOnlyExecutes(Step(rx, s[0]), s[1..]);
    }
  }

  /** Two series that start with different messages differ, whatever follows; with the same one, the rest decides. */
  lemma FirstDecides(before: seq<Executed>, a: Executed, b: Executed, rest: seq<Executed>, all: seq<Executed>)
    requires before + [a] <= all
    ensures a != b ==> all != before + ([b] + rest)
    ensures a == b ==> (all == before + ([b] + rest) <==> all == before + [a] + rest)
  {
    assert all[|before|] == a && (before + ([b] + rest))[|before|] == b;
    assert before + ([b] + rest) == before + [b] + rest;
  }

  lemma FragmentIsRight(f: Frame, open: bool, emptyFirst: bool, collected: bool)
    requires LegalFrame(f, open) && !f.fin
    ensures RightFrame(f, open, emptyFirst, collected) && f.opcode != OPCODE_CLOSE
  {
  }

  lemma NoFramesAreRight(open: bool, emptyFirst: bool, collected: bool)
    ensures ReadRight([], open, emptyFirst, collected)
  {
  }

  /** A final frame that the walk rejects spoils the series; after one that it approves of, the rest decides. */
  lemma FinalFrameDecides(rx: Rx, f: Frame, open: Option<Executed>, emptyFirst: bool, collected: bool,
                          ms: seq<Executed>, all: seq<Executed>)
    requires Follows(rx, open, emptyFirst, collected) && LegalFrame(f, open.Some?) && f.fin
    requires rx.executed + [Taken(rx, f)] <= all
    requires Taken(rx, f).opcode == OPCODE_CLOSE ==> all == rx.executed + [Taken(rx, f)]
    ensures var right, meant := RightFrame(f, open.Some?, emptyFirst, collected), [Completed(open, f)] + ms;
      if !right then all != rx.executed + UpToClose(meant)
      else if f.opcode == OPCODE_CLOSE then all == rx.executed + UpToClose(meant)
      else
        && Taken(rx, f).opcode != OPCODE_CLOSE
        && (all == rx.executed + UpToClose(meant) <==> all == rx.executed + [Taken(rx, f)] + UpToClose(ms))
  {
    hide WellFormed, Follows, LegalFrame, RightFrame, Taken, Completed, UpToClose;
    TakenIff(rx, f, open, emptyFirst, collected);
    var a, b := Taken(rx, f), Completed(open, f);
    UpToCloseCons(b, ms);
    FirstDecides(rx.executed, a, b, UpToClose(ms), all);
    FirstDecides(rx.executed, a, b, [], all);
    assert [b] + [] == [b];
  }

  /** Whatever has been read so far, a legal series of frames is executed as section 5.4 demands exactly when the walk
      over the frames approves of it. */
  lemma {:induction false} ReadsRightFrom(rx: Rx, frames: seq<Frame>, open: Option<Executed>, emptyFirst: bool,
                                          collected: bool)
    requires Ready(rx) && !rx.inputClosed && Follows(rx, open, emptyFirst, collected) && Legal(frames, open.Some?)
    requires forall f <- frames :: WellFormed(f) && rx.isClient == (f.key == [])
    ensures Feed(rx, StreamBytes(frames)).executed == rx.executed + UpToClose(Meaning(frames, open))
      <==> ReadRight(frames, open.Some?, emptyFirst, collected)
    decreases |frames|
  {
    hide WellFormed, FrameBytes, Feed, AfterFrame, Ready, Legal, LegalFrame, Meaning, UpToClose, Follows, ReadRight,
      RightFrame, Completed, NextOpen, NextEmptyFirst, NextCollected, StaysOpen, Taken, IsControl, Shaped;
    ReadyIsShaped(rx);
    if |frames| == 0 {
      FeedNothing(rx);
      NoFramesMeanNothing(open);
      NoFramesAreRight(open.Some?, emptyFirst, collected);
    } else {
      var f, rest := frames[0], frames[1..];
      MeaningOn(frames, open);
      ReadRightStep(frames, open.Some?, emptyFirst, collected);
      FeedFrame(rx, f);
      FeedAppend(rx, FrameBytes(f), StreamBytes(rest));
      var next := AfterFrame(rx, f);
      AfterAnyFrame(rx, f);
      AfterFrameReady(rx, f);
      AfterFrameSide(rx, f);
      ReadyIsShaped(next);
      FeedOnlyExecutes(next, StreamBytes(rest));
      var thenOpen := NextOpen(open, f);
      var ms, all := Meaning(rest, thenOpen), Feed(next, StreamBytes(rest)).executed;
      if f.fin {
        if next.inputClosed {
          ClosedForGood(next, StreamBytes(rest));
        }
        FinalFrameDecides(rx, f, open, emptyFirst, collected, ms, all);
      } else {
        FragmentIsRight(f, open.Some?, emptyFirst, collected);
        assert [] + ms == ms;
      }
      if RightFrame(f, open.Some?, emptyFirst, collected) && f.opcode != OPCODE_CLOSE {
        FollowsOn(rx, f, open, emptyFirst, collected);
        ReadsRightFrom(next, rest, thenOpen, NextEmptyFirst(f, open.Some?, emptyFirst),
                       NextCollected(f, open.Some?, collected));
      }
    }
  }

  /** Every legal stream, however it is split into reads, is executed as section 5.4 demands, up to the first CLOSE,
      exactly when the walk over its frames approves of it. */
  lemma StreamReadRightIff(isClient: bool, frames: seq<Frame>, chunks: seq<Buffer>)
    requires forall f <- frames :: WellFormed(f) && isClient == (f.key == [])
    requires Legal(frames, false) && Concat(chunks) == StreamBytes(frames)
    ensures FeedChunks(Start(isClient), chunks).executed == UpToClose(Meaning(frames, None))
      <==> ReadRight(frames, false, false, false)
  {
    hide Feed, FeedChunks, WellFormed, Legal, Concat, StreamBytes, Meaning, UpToClose, ReadRight;
    ChunksDoNotMatter(Start(isClient), chunks);
    ReadsRightFrom(Start(isClient), frames, None, false, false);
    assert [] + UpToClose(Meaning(frames, None)) == UpToClose(Meaning(frames, None));
  }

  /** A simple condition that is enough: no control frame inside a fragmented message, and no empty first
      fragment. */
  predicate Supported(frames: seq<Frame>, open: bool)
    decreases |frames|
  {
    |frames| == 0
    || (var f := frames[0];
        (IsControl(f) ==> !open) && (!open && !f.fin ==> f.payload != []) && Supported(frames[1..], !f.fin))
  }

  lemma {:induction false} SupportedIsReadRight(frames: seq<Frame>, open: bool, collected: bool)
    requires Legal(frames, open) && Supported(frames, open) && (collected ==> open)
    ensures ReadRight(frames, open, false, collected)
    decreases |frames|
  {
    hide WellFormed;
    if |frames| > 0 {
      var f := frames[0];
      ReadRightStep(frames, open, false, collected);
      SupportedIsReadRight(frames[1..], StaysOpen(f, open), NextCollected(f, open, collected));
    }
  }

  /** For every stream of frames that is legal and supported, and every split of it into reads, exactly its messages are
      executed, in order, up to the first CLOSE. */
  lemma ExecutesExactlyTheStream(isClient: bool, frames: seq<Frame>, chunks: seq<Buffer>)
    requires forall f <- frames :: WellFormed(f) && isClient == (f.key == [])
    requires Legal(frames, false) && Supported(frames, false) && Concat(chunks) == StreamBytes(frames)
    ensures FeedChunks(Start(isClient), chunks).executed == UpToClose(Meaning(frames, None))
  {
    hide FeedChunks, WellFormed, Legal, Supported, Concat, StreamBytes, Meaning, UpToClose, ReadRight;
    StreamReadRightIff(isClient, frames, chunks);
    SupportedIsReadRight(frames, false, false);
  }

  /** Section 5.4: the message that a series of frames leaves open. */
  function OpenAfter(frames: seq<Frame>, open: Option<Executed>): Option<Executed>
    decreases |frames|
  {
    if |frames| == 0 then open else OpenAfter(frames[1..], NextOpen(open, frames[0]))
  }

  predicate HasBytes(open: Option<Executed>) {
    open.Some? && open.value.payload != []
  }

  lemma {:induction false} ReadRightSnoc(frames: seq<Frame>, f: Frame, open: Option<Executed>, emptyFirst: bool)
    requires IsControl(f) && forall g <- frames :: g.opcode != OPCODE_CLOSE
    ensures ReadRight(frames + [f], open.Some?, emptyFirst, HasBytes(open))
      <==> ReadRight(frames, open.Some?, emptyFirst, HasBytes(open)) && !HasBytes(OpenAfter(frames, open))
    decreases |frames|
  {
    hide ReadRight, RightFrame, IsControl;
    ReadRightStep(frames + [f], open.Some?, emptyFirst, HasBytes(open));
    if |frames| == 0 {
      NoFramesAreRight(open.Some?, emptyFirst, HasBytes(open));
      LastControlFrame(f, open.Some?, emptyFirst, HasBytes(open));
      assert frames + [f] == [f] && [f][1..] == [];
    } else {
      var g := frames[0];
      ReadRightStep(frames, open.Some?, emptyFirst, HasBytes(open));
      FlagsOn(g, open);
      assert (frames + [f])[1..] == frames[1..] + [f];
      ReadRightSnoc(frames[1..], f, NextOpen(open, g), NextEmptyFirst(g, open.Some?, emptyFirst));
    }
  }

  lemma LastControlFrame(f: Frame, open: bool, emptyFirst: bool, collected: bool)
    requires IsControl(f)
    ensures RightFrame(f, open, emptyFirst, collected) <==> !collected
    ensures ReadRight([], StaysOpen(f, open), NextEmptyFirst(f, open, emptyFirst), NextCollected(f, open, collected))
  {
  }

  lemma FlagsOn(f: Frame, open: Option<Executed>)
    ensures NextOpen(open, f).Some? == StaysOpen(f, open.Some?)
    ensures HasBytes(NextOpen(open, f)) == NextCollected(f, open.Some?, HasBytes(open))
  {
  }

  /** The restriction on control frames is needed: a stream that ends with a control frame is executed as section 5.4
      demands exactly when the rest of it is and leaves no message open of which a byte has come. */
  lemma ControlFrameIffNotInside(isClient: bool, frames: seq<Frame>, f: Frame, chunks: seq<Buffer>)
    requires forall g <- frames + [f] :: WellFormed(g) && isClient == (g.key == [])
    requires Legal(frames + [f], false) && IsControl(f) && forall g <- frames :: g.opcode != OPCODE_CLOSE
    requires Concat(chunks) == StreamBytes(frames + [f])
    ensures FeedChunks(Start(isClient), chunks).executed == UpToClose(Meaning(frames + [f], None))
      <==> ReadRight(frames, false, false, false) && !HasBytes(OpenAfter(frames, None))
  {
    hide FeedChunks, WellFormed, Legal, Concat, StreamBytes, Meaning, UpToClose, ReadRight, OpenAfter;
    StreamReadRightIff(isClient, frames + [f], chunks);
    ReadRightSnoc(frames, f, None, false);
  }

  /** A message in two fragments with a control frame between them. */
  function Interrupted(opcode: nat, control: nat, key: Buffer, first: Buffer, second: Buffer): seq<Frame> {
    [Frame(false, opcode, Short, key, first), Frame(true, control, Short, key, []),
     Frame(true, OPCODE_CONTINUATION, Short, key, second)]
  }

  /** Such a stream is legal, and it is read wrong exactly when the control frame is not a CLOSE, which ends the stream,
      or the first fragment is not empty: a PING between two fragments is enough, and so is an empty first fragment. */
  lemma InterruptedIsReadWrong(isClient: bool, opcode: nat, control: nat, key: Buffer, first: Buffer, second: Buffer,
                               chunks: seq<Buffer>)
    requires 0 < opcode < 8 <= control < 16 && |first| <= 125 && |second| <= 125
    requires |key| == (if isClient then 0 else 4)
    ensures var frames := Interrupted(opcode, control, key, first, second);
      && (forall f <- frames :: WellFormed(f) && isClient == (f.key == [])) && Legal(frames, false)
      && (Concat(chunks) == StreamBytes(frames) ==>
            (FeedChunks(Start(isClient), chunks).executed != UpToClose(Meaning(frames, None))
             <==> (control != OPCODE_CLOSE || first != [])))
  {
    hide FeedChunks, Concat, StreamBytes, Meaning, UpToClose, ReadRight;
    var frames := Interrupted(opcode, control, key, first, second);
    assert frames[1..] == [frames[1], frames[2]] && frames[1..][1..] == [frames[2]] && frames[1..][1..][1..] == [];
    assert Legal(frames[1..][1..][1..], false);
    assert Legal(frames[1..][1..], true);
    assert Legal(frames[1..], true);
    if Concat(chunks) == StreamBytes(frames) {
      StreamReadRightIff(isClient, frames, chunks);
      var empty := first == [];
      ReadRightStep(frames, false, false, false);
      ReadRightStep(frames[1..], true, empty, !empty);
      ReadRightStep(frames[1..][1..], true, empty, !empty);
    }
  }

  // ---- the writer ----

  function ShortestForm(n: nat): (form: Form)
    ensures n <= MAX_PAYLOAD_SIZE ==> Fits(form, n)
    ensures forall other: Form :: Fits(other, n) ==> ExtraBytes(form) <= ExtraBytes(other)
  {
    if n > 65535 then Long else if n > 125 then Medium else Short
  }

  function ExtraBytes(form: Form): nat {
    match form
    case Short => 0
    case Medium => 2
    case Long => 8
  }

  /** The byte order of the machine that a gateway runs on. */
  datatype ByteOrder = BigEndian | LittleEndian

  /** What a gateway's frames depend on: its role, its machine, and the pseudo-random word drawn for the k-th frame. */
  datatype Writer = Writer(isClient: bool, order: ByteOrder, random: nat -> nat)

  /** The mask as it is announced to the peer. */
  function Announced(w: Writer, k: nat): (key: Buffer)
    ensures |key| == 4
  {
    ToBE(w.random(k), 4)
  }

  /** The mask as it is applied: the bytes of the word in memory. */
  function Applied(w: Writer, k: nat): (key: Buffer)
    ensures |key| == 4
  {
    if w.order == BigEndian then ToBE(w.random(k), 4) else ToLE(w.random(k), 4)
  }

  function LengthBytes(maskBit: nat, n: nat): Buffer
    requires maskBit in {0, 128}
  {
    if n > 65535 then [maskBit + 127] + ToBE(n, 8) else if n > 125 then [maskBit + 126] + ToBE(n, 2) else [maskBit + n]
  }

  /** CreateReplyFrame(): the k-th frame. */
  function ReplyFrame(w: Writer, k: nat, data: Buffer, opcode: nat): Buffer
    requires opcode < 16
  {
    [128 + opcode]
    + (LengthBytes(if w.isClient then 128 else 0, |data|)
       + (if w.isClient then Announced(w, k) + Masked(Applied(w, k), data) else data))
  }

  /** What the peer makes of the payload. */
  function Received(w: Writer, k: nat, data: Buffer): (r: Buffer)
    ensures |r| == |data|
  {
    if w.isClient then Masked(Announced(w, k), Masked(Applied(w, k), data)) else data
  }

  function AsFrame(w: Writer, k: nat, data: Buffer, opcode: nat): Frame {
    Frame(true, opcode, ShortestForm(|data|), if w.isClient then Announced(w, k) else [], Received(w, k, data))
  }

  /** A gateway's frame is the final frame in the shortest form, masked if and only if it comes from a client. */
  lemma ReplyIsShortestFrame(w: Writer, k: nat, data: Buffer, opcode: nat)
    requires opcode < 16 && |data| <= MAX_PAYLOAD_SIZE
    ensures var f := AsFrame(w, k, data, opcode); WellFormed(f) && ReplyFrame(w, k, data, opcode) == FrameBytes(f)
  {
    hide ToBE, Masked, Announced, Applied;
    var f := AsFrame(w, k, data, opcode);
    if w.isClient {
      MaskedTwice(Announced(w, k), Masked(Applied(w, k), data));
    } else {
      assert ExtendedLength(f) + f.key == ExtendedLength(f);
    }
  }

  /** A 32-bit word in network byte order. */
  function NetworkWord(n: nat): (s: Buffer)
    ensures |s| == 4
  {
    [n / 0x1000000 % 256, n / 0x10000 % 256, n / 0x100 % 256, n % 256]
  }

  lemma NetworkWordIs(n: nat)
    ensures ToBE(n, 4) == NetworkWord(n) && ToBE(n, 8) == NetworkWord(n / 0x1_0000_0000) + NetworkWord(n)
    ensures n <= 65535 ==> ToBE(n, 2) == [n / 256, n % 256]
  {
    hide ToBE, NetworkWord;
    LowWord(n, 0);
    LowWord(n, 4);
    LowWord(n / 0x1_0000_0000, 0);
    assert [] + NetworkWord(n) == NetworkWord(n);
    assert [] + NetworkWord(n / 0x1_0000_0000) == NetworkWord(n / 0x1_0000_0000);
    if n <= 65535 { TwoBytes(n); }
  }

  lemma TwoBytes(n: nat)
    requires n <= 65535
    ensures ToBE(n, 2) == [n / 256, n % 256]
  {
    assert ToBE(n / 256, 1) == ToBE(n / 256 / 256, 0) + [n / 256 % 256];
  }

  lemma LowWord(n: nat, k: nat)
    ensures ToBE(n, k + 4) == ToBE(n / 0x1_0000_0000, k) + NetworkWord(n)
    ensures ToBE(n, 0) == [] && ToBE(n / 0x1_0000_0000, 0) == []
  {
    hide ToBE;
    ToBEStep(n, k + 4);
    ToBEStep(n / 0x100, k + 3);
    ToBEStep(n / 0x10000, k + 2);
    ToBEStep(n / 0x1000000, k + 1);
    Halves(n);
    NoBytes(n);
    NoBytes(n / 0x1_0000_0000);
    var high := ToBE(n / 0x1_0000_0000, k);
    var a, b, c, d := n / 0x1000000 % 256, n / 0x10000 % 256, n / 0x100 % 256, n % 256;
    assert high + [a] + [b] + [c] + [d] == high + [a, b, c, d];
  }

  lemma NoBytes(n: nat)
    ensures ToBE(n, 0) == []
  {
  }

  lemma Halves(n: nat)
    ensures n / 0x100 / 256 == n / 0x10000 && n / 0x10000 / 256 == n / 0x1000000
    ensures n / 0x1000000 / 256 == n / 0x1_0000_0000
  {
  }

  lemma ToBEStep(n: nat, k: nat)
    requires k > 0
    ensures ToBE(n, k) == ToBE(n / 256, k - 1) + [n % 256]
  {
  }

  /** A gateway's frame on the wire: FIN and the opcode, the mask bit and the length in one of three forms in network
      byte order, a client's mask likewise, and the payload, masked with the bytes of the mask as they lie in memory. */
  lemma ReplyImage(w: Writer, k: nat, data: Buffer, opcode: nat)
    requires opcode < 16
    ensures var n, mask, word := |data|, if w.isClient then 128 else 0, w.random(k);
      ReplyFrame(w, k, data, opcode) ==
        [128 + opcode]
        + (if n <= 125 then [mask + n]
           else if n <= 65535 then [mask + 126] + [n / 256, n % 256]
           else [mask + 127] + NetworkWord(n / 0x1_0000_0000) + NetworkWord(n))
        + (if w.isClient then
             NetworkWord(word) + Masked(if w.order == BigEndian then NetworkWord(word) else Word(word), data)
           else data)
  {
    hide ToBE, ToLE, Masked, NetworkWord, Word;
    NetworkWordIs(|data|);
    NetworkWordIs(w.random(k));
    WordIs(w.random(k));
  }

  /** The size that is computed beforehand is the number of bytes written. */
  lemma ReplyFillsSize(w: Writer, k: nat, data: Buffer, opcode: nat)
    requires opcode < 16
    ensures |ReplyFrame(w, k, data, opcode)|
      == 2 + ExtraBytes(ShortestForm(|data|)) + (if w.isClient then 4 else 0) + |data|
  {
  }

  /** A frame reads back at a peer of the other role, whatever the peer has done before. */
  lemma ReplyReadsBack(rx: Rx, w: Writer, k: nat, data: Buffer, opcode: nat)
    requires Ready(rx) && rx.isClient != w.isClient && !rx.inputClosed && rx.payload.None?
    requires opcode < 16 && |data| <= MAX_PAYLOAD_SIZE
    ensures var next := Feed(rx, ReplyFrame(w, k, data, opcode));
      && Ready(next) && next.isClient == rx.isClient && next.payload.None?
      && next.inputClosed == (opcode == OPCODE_CLOSE)
      && next.executed == rx.executed + [Executed(opcode, Received(w, k, data))]
  {
    hide Feed, ReplyFrame, FrameBytes, WellFormed, AfterFrame, Received, Ready;
    var f := AsFrame(w, k, data, opcode);
    ReplyIsShortestFrame(w, k, data, opcode);
    FeedFrame(rx, f);
    AfterFrameReady(rx, f);
    AfterFrameSide(rx, f);
    AfterAnyFrame(rx, f);
    assert [] + f.payload == f.payload;
  }

  lemma {:induction false} XorBitsCommutes(a: nat, b: nat, bits: nat)
    ensures XorBits(a, b, bits) == XorBits(b, a, bits)
    decreases bits
  {
    if bits > 0 { XorBitsCommutes(a / 2, b / 2, bits - 1); }
  }

  lemma XorCancels(a: Byte, m: Byte, k: Byte)
    requires Xor(Xor(a, m), k) == a
    ensures m == k
  {
    hide XorBits;
    XorTwice(Xor(a, m), k);
    assert Xor(a, m) == Xor(a, k);
    XorBitsCommutes(a, m, 8);
    XorBitsCommutes(a, k, 8);
    XorTwice(m, a);
    XorTwice(k, a);
  }

  /** Masking with one key and unmasking with another gives the payload back exactly when the two agree on as many bytes
      as are used. */
  lemma MaskIffKeysAgree(announced: Buffer, used: Buffer, data: Buffer)
    requires |announced| == 4 && |used| == 4
    ensures Masked(announced, Masked(used, data)) == data <==>
      forall i :: 0 <= i < 4 && i < |data| ==> announced[i] == used[i]
  {
    hide Xor;
    var back := Masked(announced, Masked(used, data));
    if back == data {
      forall i | 0 <= i < 4 && i < |data| ensures announced[i] == used[i] {
        assert back[i] == Xor(Xor(data[i], used[i]), announced[i]);
        XorCancels(data[i], used[i], announced[i]);
      }
    }
    if forall i :: 0 <= i < 4 && i < |data| ==> announced[i] == used[i] {
      forall i | 0 <= i < |data| ensures back[i] == data[i] {
        assert announced[i % 4] == used[i % 4];
        XorTwice(data[i], used[i % 4]);
      }
    }
  }

  /** The announced and the applied mask agree where they are used on n bytes. */
  predicate MasksAgree(w: Writer, k: nat, n: nat) {
    w.isClient ==> forall i :: 0 <= i < 4 && i < n ==> Announced(w, k)[i] == Applied(w, k)[i]
  }

  /** The peer executes the payload that was sent exactly when the masks agree; servers do not mask at all. */
  lemma PayloadReadsBackIff(rx: Rx, w: Writer, k: nat, data: Buffer, opcode: nat)
    requires Ready(rx) && rx.isClient != w.isClient && !rx.inputClosed && rx.payload.None?
    requires opcode < 16 && |data| <= MAX_PAYLOAD_SIZE
    ensures Feed(rx, ReplyFrame(w, k, data, opcode)).executed == rx.executed + [Executed(opcode, data)]
      <==> MasksAgree(w, k, |data|)
  {
    hide Feed, ReplyFrame, Masked, Announced, Applied, Ready;
    ReplyReadsBack(rx, w, k, data, opcode);
    if w.isClient { MaskIffKeysAgree(Announced(w, k), Applied(w, k), data); }
    var a, b := Executed(opcode, Received(w, k, data)), Executed(opcode, data);
    assert (rx.executed + [a])[|rx.executed|] == a && (rx.executed + [b])[|rx.executed|] == b;
  }

  lemma {:induction false} LittleIsReversed(n: nat)
    ensures forall i :: 0 <= i < 4 ==> ToLE(n, 4)[i] == ToBE(n, 4)[3 - i]
  {
    var n1 := n / 256; var n2 := n1 / 256; var n3 := n2 / 256;
    assert ToLE(n3, 1) == [n3 % 256] + ToLE(n3 / 256, 0) && ToBE(n3, 1) == ToBE(n3 / 256, 0) + [n3 % 256];
    assert ToLE(n2, 2) == [n2 % 256] + ToLE(n3, 1) && ToBE(n2, 2) == ToBE(n3, 1) + [n2 % 256];
    assert ToLE(n1, 3) == [n1 % 256] + ToLE(n2, 2) && ToBE(n1, 3) == ToBE(n2, 2) + [n1 % 256];
    assert ToLE(n, 4) == [n % 256] + ToLE(n1, 3) && ToBE(n, 4) == ToBE(n1, 3) + [n % 256];
  }

  /** On a big-endian machine the masks always agree; on a little-endian one exactly when the word reads the same in
      both directions, as far as the payload reaches. */
  lemma MasksAgreeIff(w: Writer, k: nat, n: nat)
    requires w.isClient
    ensures var key := Announced(w, k);
      MasksAgree(w, k, n) <==> w.order == BigEndian || ((n >= 1 ==> key[0] == key[3]) && (n >= 2 ==> key[1] == key[2]))
  {
    hide ToBE, ToLE;
    LittleIsReversed(w.random(k));
    var key, used := Announced(w, k), Applied(w, k);
    if w.order == LittleEndian {
      assert used[0] == key[3] && used[1] == key[2] && used[2] == key[1] && used[3] == key[0];
    }
  }

  /** A client on a little-endian machine that draws the word 1 and sends a zero byte: the server executes a one. */
  lemma LittleEndianClientGarbles(rx: Rx)
    requires Ready(rx) && !rx.isClient && !rx.inputClosed && rx.payload.None?
    ensures var w := Writer(true, LittleEndian, (k: nat) => 1);
      Feed(rx, ReplyFrame(w, 0, [0], OPCODE_BINARY)).executed != rx.executed + [Executed(OPCODE_BINARY, [0])]
  {
    hide Ready, Feed, ReplyFrame;
    var w := Writer(true, LittleEndian, (k: nat) => 1);
    PayloadReadsBackIff(rx, w, 0, [0], OPCODE_BINARY);
    LittleIsReversed(1);
    assert Applied(w, 0)[0] == 1;
    assert ToBE(1, 4) == ToBE(0, 3) + [1] && ToBE(0, 3) == ToBE(0, 2) + [0] && ToBE(0, 2) == ToBE(0, 1) + [0];
    assert ToBE(0, 1) == ToBE(0, 0) + [0];
    assert Announced(w, 0)[0] == 0;
  }

  // ---- replies ----

  /** A frame waiting to be written. */
  datatype Outgoing = Outgoing(opcode: nat, data: Buffer)

  /** Section 5.5.3: every PING is answered with a PONG of the same payload. */
  function Pongs(es: seq<Executed>): (q: seq<Outgoing>)
    ensures forall o <- q :: o.opcode == OPCODE_PONG
  {
    if |es| == 0 then []
    else (if es[0].opcode == OPCODE_PING then [Outgoing(OPCODE_PONG, es[0].payload)] else []) + Pongs(es[1..])
  }

  /** One PONG, of opcode 10 and with the same payload, for each PING, of opcode 9, in order. */
  lemma PongsAnswerPings(es: seq<Executed>, e: Executed)
    ensures Pongs([]) == [] && Pongs(es + [e]) == Pongs(es) + (if e.opcode == 9 then [Outgoing(10, e.payload)] else [])
  {
    PongsAppend(es, [e]);
    assert [e][1..] == [];
    assert Pongs([e]) == (if e.opcode == OPCODE_PING then [Outgoing(OPCODE_PONG, e.payload)] else []) + Pongs([]);
  }

  /** Between two moments, the queue q and the history all of everything queued grew by exactly the answers to what was
      executed. */
  predicate Answered(before: seq<Executed>, after: seq<Executed>, q: seq<Outgoing>, q': seq<Outgoing>,
                     all: seq<Outgoing>, all': seq<Outgoing>) {
    before <= after && q' == q + Pongs(after[|before|..]) && all' == all + Pongs(after[|before|..])
  }

  function PongsIn(q: seq<Outgoing>): seq<Outgoing> {
    if |q| == 0 then [] else (if q[0].opcode == OPCODE_PONG then [q[0]] else []) + PongsIn(q[1..])
  }

  lemma {:induction false} PongsInAppend(a: seq<Outgoing>, b: seq<Outgoing>)
    ensures PongsIn(a + b) == PongsIn(a) + PongsIn(b)
    decreases |a|
  {
    if |a| == 0 {
      assert a + b == b;
    } else {
      PongsInAppend(a[1..], b);
      assert (a + b)[1..] == a[1..] + b;
      var first := if a[0].opcode == OPCODE_PONG then [a[0]] else [];
      assert PongsIn(a + b) == first + PongsIn(a[1..] + b);
      assert first + (PongsIn(a[1..]) + PongsIn(b)) == (first + PongsIn(a[1..])) + PongsIn(b);
    }
  }

  lemma {:induction false} AllPongs(q: seq<Outgoing>)
    requires forall o <- q :: o.opcode == OPCODE_PONG
    ensures PongsIn(q) == q
    decreases |q|
  {
    if |q| > 0 {
      AllPongs(q[1..]);
      assert q == [q[0]] + q[1..];
    }
  }

  lemma {:induction false} PongsAppend(a: seq<Executed>, b: seq<Executed>)
    ensures Pongs(a + b) == Pongs(a) + Pongs(b)
    decreases |a|
  {
    if |a| == 0 {
      assert a + b == b;
    } else {
      PongsAppend(a[1..], b);
      assert (a + b)[1..] == a[1..] + b;
      var first := if a[0].opcode == OPCODE_PING then [Outgoing(OPCODE_PONG, a[0].payload)] else [];
      assert Pongs(a + b) == first + Pongs(a[1..] + b);
      assert first + (Pongs(a[1..]) + Pongs(b)) == (first + Pongs(a[1..])) + Pongs(b);
    }
  }

  lemma AnsweredNothing(es: seq<Executed>, q: seq<Outgoing>, all: seq<Outgoing>)
    ensures Answered(es, es, q, q, all, all)
  {
    assert es[|es|..] == [];
  }

  lemma AnsweredOne(es: seq<Executed>, q: seq<Outgoing>, all: seq<Outgoing>, e: Executed)
    ensures e.opcode == OPCODE_PING ==>
      Answered(es, es + [e], q, q + [Outgoing(OPCODE_PONG, e.payload)], all, all + [Outgoing(OPCODE_PONG, e.payload)])
    ensures e.opcode != OPCODE_PING ==> Answered(es, es + [e], q, q, all, all)
  {
    assert (es + [e])[|es|..] == [e] && [e][1..] == [];
    assert Pongs([e]) == (if e.opcode == OPCODE_PING then [Outgoing(OPCODE_PONG, e.payload)] else []) + Pongs([]);
  }

  lemma ShapedProgress(rx: Rx)
    requires Shaped(rx) && !rx.failed
    ensures |rx.header| <= rx.headerSize
    ensures |rx.header| == rx.headerSize ==> rx.payload.Some? && |rx.payload.value| < rx.payloadSize
  {
  }

  lemma AnsweredThen(e1: seq<Executed>, e2: seq<Executed>, e3: seq<Executed>, q1: seq<Outgoing>, q2: seq<Outgoing>,
                     q3: seq<Outgoing>, all1: seq<Outgoing>, all2: seq<Outgoing>, all3: seq<Outgoing>)
    requires Answered(e1, e2, q1, q2, all1, all2) && Answered(e2, e3, q2, q3, all2, all3)
    ensures Answered(e1, e3, q1, q3, all1, all3)
  {
    hide Pongs;
    var a, b := e2[|e1|..], e3[|e2|..];
    assert e3[|e1|..] == a + b;
    PongsAppend(a, b);
    assert (q1 + Pongs(a)) + Pongs(b) == q1 + (Pongs(a) + Pongs(b));
    assert (all1 + Pongs(a)) + Pongs(b) == all1 + (Pongs(a) + Pongs(b));
  }

  predicate Writable(q: seq<Outgoing>) {
    forall o <- q :: o.opcode < 16
  }

  /** The frames of a queue, the first of which is the k-th. */
  function FramesOf(w: Writer, k: nat, q: seq<Outgoing>): Buffer
    requires Writable(q)
    decreases |q|
  {
    if |q| == 0 then [] else ReplyFrame(w, k, q[0].data, q[0].opcode) + FramesOf(w, k + 1, q[1..])
  }

  lemma {:induction false} FramesOfAppend(w: Writer, k: nat, a: seq<Outgoing>, b: seq<Outgoing>)
    requires Writable(a) && Writable(b)
    ensures Writable(a + b) && FramesOf(w, k, a + b) == FramesOf(w, k, a) + FramesOf(w, k + |a|, b)
    decreases |a|
  {
    hide ReplyFrame;
    if |a| == 0 {
      assert a + b == b;
    } else {
      FramesOfAppend(w, k + 1, a[1..], b);
      assert (a + b)[1..] == a[1..] + b;
    }
  }

  lemma FramesOfOne(w: Writer, k: nat, o: Outgoing)
    requires o.opcode < 16
    ensures Writable([o]) && FramesOf(w, k, [o]) == ReplyFrame(w, k, o.data, o.opcode)
  {
    hide ReplyFrame;
    assert [o][1..] == [];
    assert FramesOf(w, k, [o]) == ReplyFrame(w, k, o.data, o.opcode) + FramesOf(w, k + 1, []);
  }

  /** What the peer is to execute. */
  function AsReceived(w: Writer, k: nat, q: seq<Outgoing>): seq<Executed>
    decreases |q|
  {
    if |q| == 0 then [] else [Executed(q[0].opcode, Received(w, k, q[0].data))] + AsReceived(w, k + 1, q[1..])
  }

  function AsSent(q: seq<Outgoing>): seq<Executed> {
    if |q| == 0 then [] else [Executed(q[0].opcode, q[0].data)] + AsSent(q[1..])
  }

  predicate Moderate(q: seq<Outgoing>) {
    forall o <- q :: o.opcode < 16 && |o.data| <= MAX_PAYLOAD_SIZE
  }

  lemma UpToCloseCons(m: Executed, rest: seq<Executed>)
    ensures UpToClose([m] + rest) == if m.opcode == OPCODE_CLOSE then [m] else [m] + UpToClose(rest)
  {
    assert ([m] + rest)[1..] == rest;
  }

  lemma QueueCons(w: Writer, k: nat, q: seq<Outgoing>)
    requires |q| > 0 && Moderate(q)
    ensures Writable(q) && Moderate(q[1..]) && Writable(q[1..])
    ensures FramesOf(w, k, q) == ReplyFrame(w, k, q[0].data, q[0].opcode) + FramesOf(w, k + 1, q[1..])
    ensures AsReceived(w, k, q) == [Executed(q[0].opcode, Received(w, k, q[0].data))] + AsReceived(w, k + 1, q[1..])
  {
    hide ReplyFrame, Received;
  }

  lemma EmptyQueue(w: Writer, k: nat, rx: Rx)
    requires Shaped(rx)
    ensures Writable([]) && Feed(rx, FramesOf(w, k, [])).executed == rx.executed + UpToClose(AsReceived(w, k, []))
  {
    hide Shaped;
    FeedNothing(rx);
    assert rx.executed + [] == rx.executed;
  }

  lemma ExecutedThen(a: seq<Executed>, m: Executed, b: seq<Executed>)
    ensures (a + [m]) + b == a + ([m] + b)
  {
  }

  /** Everything queued is executed by a peer of the other role, in order, up to the first CLOSE. */
  lemma {:induction false} PeerExecutesTheQueue(rx: Rx, w: Writer, k: nat, q: seq<Outgoing>)
    requires Ready(rx) && rx.isClient != w.isClient && !rx.inputClosed && rx.payload.None? && Moderate(q)
    ensures Shaped(rx) && Writable(q)
    ensures Feed(rx, FramesOf(w, k, q)).executed == rx.executed + UpToClose(AsReceived(w, k, q))
    decreases |q|
  {
    hide Ready, Shaped, Feed, ReplyFrame, FramesOf, AsReceived, UpToClose, Received;
    ReadyIsShaped(rx);
    if |q| == 0 {
      EmptyQueue(w, k, rx);
    } else {
      QueueCons(w, k, q);
      var frame, rest := ReplyFrame(w, k, q[0].data, q[0].opcode), FramesOf(w, k + 1, q[1..]);
      var m := Executed(q[0].opcode, Received(w, k, q[0].data));
      ReplyReadsBack(rx, w, k, q[0].data, q[0].opcode);
      FeedAppend(rx, frame, rest);
      var next := Feed(rx, frame);
      UpToCloseCons(m, AsReceived(w, k + 1, q[1..]));
      if next.inputClosed {
        ClosedForGood(next, rest);
      } else {
        PeerExecutesTheQueue(next, w, k + 1, q[1..]);
        ExecutedThen(rx.executed, m, UpToClose(AsReceived(w, k + 1, q[1..])));
      }
    }
  }

  /** A server's queue, or that of a client whose masks agree, is received as it was sent. */
  lemma {:induction false} ReceivedAsSent(w: Writer, k: nat, q: seq<Outgoing>)
    requires forall i :: 0 <= i < |q| ==> MasksAgree(w, k + i, |q[i].data|)
    ensures AsReceived(w, k, q) == AsSent(q)
    decreases |q|
  {
    hide Announced, Applied, Masked;
    if |q| > 0 {
      assert MasksAgree(w, k + 0, |q[0].data|);
      if w.isClient { MaskIffKeysAgree(Announced(w, k), Applied(w, k), q[0].data); }
      forall i | 0 <= i < |q[1..]| ensures MasksAgree(w, k + 1 + i, |q[1..][i].data|) {
        assert MasksAgree(w, k + (i + 1), |q[i + 1].data|);
      }
      ReceivedAsSent(w, k + 1, q[1..]);
    }
  }

  /** Everything that a server queues is executed by the client, in order, up to the first CLOSE. */
  lemma ServerStreamReadsBack(rx: Rx, w: Writer, k: nat, q: seq<Outgoing>)
    requires Ready(rx) && rx.isClient && !w.isClient && !rx.inputClosed && rx.payload.None? && Moderate(q)
    ensures Shaped(rx) && Writable(q) && Feed(rx, FramesOf(w, k, q)).executed == rx.executed + UpToClose(AsSent(q))
  {
    hide Ready, Shaped, Feed, FramesOf, AsReceived, AsSent, UpToClose, Moderate;
    PeerExecutesTheQueue(rx, w, k, q);
    ReceivedAsSent(w, k, q);
  }

  /** What has been written, the output buffer's tail and the queue's frames make up the frames of everything queued. */
  predicate Owes(w: Writer, made: nat, q: seq<Outgoing>, all: seq<Outgoing>, tail: Buffer, wire: Buffer) {
    Writable(all) && Writable(q) && wire + (tail + FramesOf(w, made, q)) == FramesOf(w, 0, all)
  }

  /** The sending side: everything ever queued is on the wire, in the output buffer's tail or in the queue, and the
      PONGs among it are the answers to the PINGs executed. */
  predicate SendState(w: Writer, made: nat, q: seq<Outgoing>, all: seq<Outgoing>, tail: Buffer, wire: Buffer,
                      executed: seq<Executed>) {
    && made <= |all| && q == all[made..]
    && Owes(w, made, q, all, tail, wire)
    && PongsIn(all) == Pongs(executed)
  }

  lemma OwesGrows(w: Writer, made: nat, q: seq<Outgoing>, all: seq<Outgoing>, tail: Buffer, wire: Buffer,
                  more: seq<Outgoing>)
    requires Owes(w, made, q, all, tail, wire) && Writable(more) && made + |q| == |all|
    ensures Owes(w, made, q + more, all + more, tail, wire)
    ensures FramesOf(w, made, q + more) == FramesOf(w, made, q) + FramesOf(w, |all|, more)
  {
    hide FramesOf, Writable;
    FramesOfAppend(w, made, q, more);
    FramesOfAppend(w, 0, all, more);
    Regroup(wire, tail, FramesOf(w, made, q), FramesOf(w, |all|, more));
  }

  lemma SendStateGrows(w: Writer, made: nat, q: seq<Outgoing>, all: seq<Outgoing>, tail: Buffer, wire: Buffer,
                       executed: seq<Executed>, more: seq<Outgoing>, executed': seq<Executed>)
    requires SendState(w, made, q, all, tail, wire, executed) && Writable(more)
    requires Pongs(executed') == Pongs(executed) + PongsIn(more)
    ensures SendState(w, made, q + more, all + more, tail, wire, executed')
  {
    hide FramesOf, Pongs, PongsIn, Writable, Owes;
    OwesGrows(w, made, q, all, tail, wire, more);
    PongsInAppend(all, more);
    SuffixGrows(all, more, made);
  }

  lemma SuffixGrows(all: seq<Outgoing>, more: seq<Outgoing>, made: nat)
    requires made <= |all|
    ensures (all + more)[made..] == all[made..] + more
  {
  }

  lemma Regroup(a: Buffer, b: Buffer, c: Buffer, d: Buffer)
    ensures a + (b + (c + d)) == (a + (b + c)) + d
  {
  }

  lemma SendStateAnswered(w: Writer, made: nat, q: seq<Outgoing>, all: seq<Outgoing>, tail: Buffer, wire: Buffer,
                          e: seq<Executed>, q': seq<Outgoing>, all': seq<Outgoing>, e': seq<Executed>)
    requires SendState(w, made, q, all, tail, wire, e) && Answered(e, e', q, q', all, all')
    ensures SendState(w, made, q', all', tail, wire, e')
  {
    hide Pongs, PongsIn, SendState;
    var since := e'[|e|..];
    assert e' == e + since;
    PongsAppend(e, since);
    AllPongs(Pongs(since));
    SendStateGrows(w, made, q, all, tail, wire, e, Pongs(since), e');
  }

  lemma SendStateMakes(w: Writer, made: nat, q: seq<Outgoing>, all: seq<Outgoing>, wire: Buffer, e: seq<Executed>)
    requires SendState(w, made, q, all, [], wire, e) && |q| > 0
    ensures SendState(w, made + 1, q[1..], all, ReplyFrame(w, made, q[0].data, q[0].opcode), wire, e)
    ensures FramesOf(w, made, q) == ReplyFrame(w, made, q[0].data, q[0].opcode) + FramesOf(w, made + 1, q[1..])
  {
    hide ReplyFrame, Pongs, PongsIn;
    assert q[1..] == all[made + 1..];
    assert [] + FramesOf(w, made, q) == FramesOf(w, made, q);
  }

  lemma SendStateWrites(w: Writer, made: nat, q: seq<Outgoing>, all: seq<Outgoing>, tail: Buffer, wire: Buffer,
                        e: seq<Executed>, n: nat)
    requires SendState(w, made, q, all, tail, wire, e) && n <= |tail|
    ensures SendState(w, made, q, all, tail[n..], wire + tail[..n], e)
    ensures tail[..n] + (tail[n..] + FramesOf(w, made, q)) == tail + FramesOf(w, made, q)
  {
    hide FramesOf, Pongs, PongsIn;
    var f := FramesOf(w, made, q);
    assert tail == tail[..n] + tail[n..];
    WrittenThen(wire, tail[..n], tail[n..] + f, FramesOf(w, 0, all), tail + f);
  }

  // ---- the gateway object ----

  class WebSocketMessageIOGateway {
    const isClient: bool
    const writer: Writer
    const headerBytes: array<Byte>
    var headerBytesReceived: nat
    var headerSize: nat
    var payload: Option<Buffer>
    var payloadSize: nat
    var mask: Buffer
    var firstByteToMask: nat
    var opCode: nat
    var inputClosed: bool
    var failed: bool
    var outgoing: seq<Outgoing>
    var framesMade: nat                 // how many pseudo-random words have been drawn, or would have been
    var outputBuf: Buffer
    var outputBytesWritten: nat
    ghost var executed: seq<Executed>
    ghost var consumed: Buffer          // everything ever read
    ghost var enqueued: seq<Outgoing>   // everything ever queued
    ghost var wire: Buffer              // everything ever written

    ghost predicate Valid()
      reads this, headerBytes
    {
      RecvValid() && SendValid()
    }

    /** No header ever needs more than the 14 bytes reserved for it. */
    ghost predicate InShape()
      reads this`headerBytesReceived, this`headerSize, this`payload, this`payloadSize, this`mask, this`firstByteToMask,
        this`opCode, this`inputClosed, this`failed, this`executed, headerBytes
    {
      headerBytes.Length == MAX_HEADER_SIZE && headerBytesReceived <= headerSize <= MAX_HEADER_SIZE && Shaped(Abs())
    }

    ghost predicate RecvValid()
      reads this`headerBytesReceived, this`headerSize, this`payload, this`payloadSize, this`mask, this`firstByteToMask,
        this`opCode, this`inputClosed, this`failed, this`executed, this`consumed, headerBytes
    {
      InShape() && Abs() == FeedFromStart(isClient, consumed)
    }

    ghost predicate SendValid()
      reads this`outgoing, this`framesMade, this`outputBuf, this`outputBytesWritten, this`executed, this`enqueued,
        this`wire
    {
      outputBytesWritten <= |outputBuf| && writer.isClient == isClient
      && SendState(writer, framesMade, outgoing, enqueued, outputBuf[outputBytesWritten..], wire, executed)
    }

    ghost function Abs(): Rx
      requires headerBytesReceived <= headerBytes.Length
      reads this`headerBytesReceived, this`headerSize, this`payload, this`payloadSize, this`mask, this`firstByteToMask,
        this`opCode, this`inputClosed, this`failed, this`executed, headerBytes
    {
      Rx(isClient, headerBytes[..headerBytesReceived], headerSize, payload, payloadSize, mask, firstByteToMask, opCode,
         inputClosed, failed, executed)
    }

    /** Bytes that are still owed to the peer. */
    ghost function Unsent(): Buffer
      requires outputBytesWritten <= |outputBuf| && Writable(outgoing)
      reads this`outgoing, this`framesMade, this`outputBuf, this`outputBytesWritten
    {
      outputBuf[outputBytesWritten..] + FramesOf(writer, framesMade, outgoing)
    }

    constructor (writer: Writer)
      ensures Valid() && fresh(headerBytes) && this.writer == writer
      ensures isClient == writer.isClient && Abs() == Start(isClient)
      ensures consumed == [] && enqueued == [] && wire == []
    {
      this.isClient, this.writer := writer.isClient, writer;
      headerBytes := new Byte[MAX_HEADER_SIZE];
      headerBytesReceived, headerSize, payload, payloadSize, mask := 0, 2, None, 0, [0, 0, 0, 0];
      firstByteToMask, opCode, inputClosed, failed := 0, 0, false, false;
      outgoing, framesMade, outputBuf, outputBytesWritten, executed := [], 0, [], 0, [];
      consumed, enqueued, wire := [], [], [];
    }

    method ExecuteReceivedFrame()
      requires headerBytesReceived <= headerBytes.Length
      modifies this`payload, this`opCode, this`firstByteToMask, this`inputClosed, this`outgoing, this`enqueued,
        this`executed
      ensures Abs() == ExecuteFrame(old(Abs()))
      ensures Answered(old(executed), executed, old(outgoing), outgoing, old(enqueued), enqueued)
    {
      hide Pongs, Answered;
      AnsweredNothing(executed, outgoing, enqueued);
      if !inputClosed {
        var data := if payload.Some? then payload.value else [];
        AnsweredOne(executed, outgoing, enqueued, Executed(opCode, data));
        if opCode == OPCODE_CLOSE {
          inputClosed := true;
        } else if opCode == OPCODE_PING {
          outgoing := outgoing + [Outgoing(OPCODE_PONG, data)];
          enqueued := enqueued + [Outgoing(OPCODE_PONG, data)];
        }
        executed := executed + [Executed(opCode, data)];
      }
      payload, opCode, firstByteToMask := None, 0, 0;
    }

    method InitializeIncomingPayload(payloadSizeBytes: nat, key: Buffer)
      requires 0 < headerBytesReceived <= headerBytes.Length && HeaderComplete(Abs())
      modifies this`headerBytesReceived, this`headerSize, this`payload, this`payloadSize, this`mask, this`opCode,
        this`firstByteToMask, this`inputClosed, this`outgoing, this`enqueued, this`executed
      ensures headerBytesReceived <= old(headerBytesReceived)
      ensures Abs() == InitPayload(old(Abs()), payloadSizeBytes, key)
      ensures Answered(old(executed), executed, old(outgoing), outgoing, old(enqueued), enqueued)
    {
      hide Answered;
      AnsweredNothing(executed, outgoing, enqueued);
      if payloadSizeBytes == 0 {
        if payload.None? { opCode := headerBytes[0] % 16; }
        if headerBytes[0] >= 128 { ExecuteReceivedFrame(); }
        headerBytesReceived, headerSize := 0, 2;
      } else {
        mask := if |key| == 4 then key else [0, 0, 0, 0];
        if payload.Some? {
          payloadSize := |payload.value| + payloadSizeBytes;
        } else {
          opCode, payload, payloadSize := headerBytes[0] % 16, Some([]), payloadSizeBytes;
        }
      }
    }

    /** The exclusive-or loop over the fragment that was just completed. */
    method UnmaskPayload()
      requires |mask| == 4 && payload.Some? && firstByteToMask <= |payload.value|
      modifies this`payload, this`firstByteToMask
      ensures payload == Some(UnmaskedFrom(old(payload).value, old(firstByteToMask), mask))
      ensures firstByteToMask == |payload.value|
    {
      hide Xor;
      var p, first := payload.value, firstByteToMask;
      var i := first;
      while i < |p|
        invariant first <= i <= |p| && |p| == |old(payload).value|
        invariant forall k :: first <= k < i ==> p[k] == Xor(old(payload).value[k], mask[(k - first) % 4])
        invariant p[..first] == old(payload).value[..first] && p[i..] == old(payload).value[i..]
      {
        assert p[i] == p[i..][0];
        p := p[i := Xor(p[i], mask[(i - first) % 4])];
        i := i + 1;
      }
      assert p == UnmaskedFrom(old(payload).value, first, mask);
      payload, firstByteToMask := Some(p), |p|;
    }

    /** The last payload byte of a frame is in. */
    method CompletePayload()
      requires |mask| == 4 && 0 < headerBytesReceived <= headerBytes.Length && payload.Some?
      requires firstByteToMask <= |payload.value|
      modifies this`headerBytesReceived, this`headerSize, this`payload, this`opCode, this`firstByteToMask,
        this`inputClosed, this`outgoing, this`enqueued, this`executed
      ensures headerBytesReceived == 0
      ensures Abs() == FinishPayload(old(Abs()))
      ensures Answered(old(executed), executed, old(outgoing), outgoing, old(enqueued), enqueued)
    {
      hide Answered, UnmaskedFrom;
      AnsweredNothing(executed, outgoing, enqueued);
      if !isClient { UnmaskPayload(); }
      if inputClosed || headerBytes[0] >= 128 { ExecuteReceivedFrame(); }
      headerBytesReceived, headerSize := 0, 2;
    }

    /** As many header bytes as were asked for are in. */
    method CompleteHeader()
      requires headerBytes.Length == MAX_HEADER_SIZE && headerBytesReceived <= MAX_HEADER_SIZE && HeaderComplete(Abs())
      modifies this`headerBytesReceived, this`headerSize, this`payload, this`payloadSize, this`mask, this`opCode,
        this`firstByteToMask, this`inputClosed, this`outgoing, this`enqueued, this`executed, this`failed
      ensures headerBytesReceived <= old(headerBytesReceived)
      ensures Abs() == FinishHeader(old(Abs()))
      ensures Answered(old(executed), executed, old(outgoing), outgoing, old(enqueued), enqueued)
    {
      hide Answered, InitPayload, FromBE;
      AnsweredNothing(executed, outgoing, enqueued);
      var second := headerBytes[1];
      ghost var h := Abs().header;
      if headerSize == 2 {
        if headerBytes[0] / 16 % 8 != 0 || isClient == (second >= 128) {
          failed := true;
        } else if HeaderSizeFor(second) == 2 {
          InitializeIncomingPayload(second % 128, []);
        } else {
          headerSize := HeaderSizeFor(second);
        }
      } else if headerSize == 6 {
        assert headerBytes[2..6] == h[2..6];
        InitializeIncomingPayload(second % 128, headerBytes[2..6]);
      } else if headerSize == 4 || headerSize == 8 {
        assert headerBytes[2..4] == h[2..4] && headerBytes[4..headerSize] == h[4..];
        InitializeIncomingPayload(FromBE(headerBytes[2..4]), headerBytes[4..headerSize]);
      } else {
        assert headerBytes[2..10] == h[2..10] && headerBytes[10..headerSize] == h[10..];
        if FromBE(headerBytes[2..10]) > MAX_PAYLOAD_SIZE {
          failed := true;
        } else {
          InitializeIncomingPayload(FromBE(headerBytes[2..10]), headerBytes[10..headerSize]);
        }
      }
    }

    /** One read of payload bytes. */
    method ReceivePayload(s: Buffer)
      requires InShape() && !failed && headerBytesReceived == headerSize && |payload.value| + |s| <= payloadSize
      modifies this`headerBytesReceived, this`headerSize, this`payload, this`opCode, this`firstByteToMask,
        this`inputClosed, this`outgoing, this`enqueued, this`executed
      ensures InShape() && Abs() == Feed(old(Abs()), s)
      ensures Answered(old(executed), executed, old(outgoing), outgoing, old(enqueued), enqueued)
    {
      hide Feed, FinishPayload, Answered;
      FeedPayload(Abs(), s);
      AnsweredNothing(executed, outgoing, enqueued);
      payload := Some(payload.value + s);
      if |payload.value| == payloadSize { CompletePayload(); }
    }

    /** One read of header bytes. */
    method ReceiveHeader(s: Buffer)
      requires InShape() && !failed && headerBytesReceived < headerSize && headerBytesReceived + |s| <= headerSize
      modifies this`headerBytesReceived, this`headerSize, this`payload, this`payloadSize, this`mask, this`opCode,
        this`firstByteToMask, this`inputClosed, this`outgoing, this`enqueued, this`executed, this`failed, headerBytes
      ensures InShape() && Abs() == Feed(old(Abs()), s)
      ensures Answered(old(executed), executed, old(outgoing), outgoing, old(enqueued), enqueued)
    {
      hide Feed, FinishHeader, Answered;
      FeedHeader(Abs(), s);
      AnsweredNothing(executed, outgoing, enqueued);
      ghost var rx1 := Abs().(header := Abs().header + s);
      CopyBytes(headerBytes, headerBytesReceived, s);
      headerBytesReceived := headerBytesReceived + |s|;
      assert headerBytes[..headerBytesReceived] == headerBytes[..][..headerBytesReceived] == rx1.header;
      assert Abs() == rx1;
      if headerBytesReceived == headerSize {
        FinishHeaderShaped(Abs());
        CompleteHeader();
      }
    }

    /** One read that does not cross the end of a header or of a payload. */
    method ReceiveSome(available: Buffer) returns (k: nat)
      requires InShape() && !failed && |available| > 0
      modifies this`headerBytesReceived, this`headerSize, this`payload, this`payloadSize, this`mask, this`opCode,
        this`firstByteToMask, this`inputClosed, this`outgoing, this`enqueued, this`executed, this`failed, headerBytes
      ensures InShape() && 0 < k <= |available| && Abs() == Feed(old(Abs()), available[..k])
      ensures Answered(old(executed), executed, old(outgoing), outgoing, old(enqueued), enqueued)
    {
      hide Feed, Answered, Shaped;
      ShapedProgress(Abs());
      k := |available|;
      if headerBytesReceived == headerSize {
        if payloadSize - |payload.value| < k { k := payloadSize - |payload.value|; }
        ReceivePayload(available[..k]);
      } else {
        if headerSize - headerBytesReceived < k { k := headerSize - headerBytesReceived; }
        ReceiveHeader(available[..k]);
      }
    }

    /** Reads what is available, up to maxBytes. */
    method DoInput(available: Buffer, maxBytes: nat) returns (n: nat)
      requires Valid()
      modifies this`headerBytesReceived, this`headerSize, this`payload, this`payloadSize, this`mask, this`opCode,
        this`firstByteToMask, this`inputClosed, this`outgoing, this`enqueued, this`executed, this`failed, this`consumed,
        headerBytes
      ensures Valid() && n <= |available| && n <= maxBytes && consumed == old(consumed) + available[..n]
      ensures !failed ==> n == |available| || n == maxBytes
      ensures Abs() == Feed(old(Abs()), available[..n])
      ensures Answered(old(executed), executed, old(outgoing), outgoing, old(enqueued), enqueued)
    {
      hide Feed, Answered, Shaped, SendState, FeedFromStart;
      n := 0;
      var size := if maxBytes < |available| then maxBytes else |available|;
      FeedNothing(Abs());
      assert available[..0] == [];
      AnsweredNothing(executed, outgoing, enqueued);
      while n < size && !failed
        invariant InShape() && n <= size && consumed == old(consumed)
        invariant Abs() == Feed(old(Abs()), available[..n])
        invariant Answered(old(executed), executed, old(outgoing), outgoing, old(enqueued), enqueued)
        decreases size - n
      {
        ghost var e, q, all := executed, outgoing, enqueued;
        var k := ReceiveSome(available[n..size]);
        AnsweredThen(old(executed), e, executed, old(outgoing), q, outgoing, old(enqueued), all, enqueued);
        ReadOn(old(Abs()), available, n, size, k);
        n := n + k;
      }
      FeedFromStartAppend(isClient, consumed, available[..n]);
      SendStateAnswered(writer, framesMade, old(outgoing), old(enqueued), outputBuf[outputBytesWritten..], wire,
                        old(executed), outgoing, enqueued, executed);
      consumed := consumed + available[..n];
    }

    /** A string or a chunk of raw data from the user. */
    method AddOutgoing(o: Outgoing)
      requires Valid() && o.opcode in {OPCODE_TEXT, OPCODE_BINARY}
      modifies this`outgoing, this`enqueued
      ensures Valid() && enqueued == old(enqueued) + [o]
      ensures Unsent() == old(Unsent()) + ReplyFrame(writer, |old(enqueued)|, o.data, o.opcode)
    {
      hide ReplyFrame, FramesOf, Pongs, RecvValid;
      FramesOfOne(writer, |enqueued|, o);
      NoPong(o);
      assert Pongs(executed) + [] == Pongs(executed);
      SendStateGrows(writer, framesMade, outgoing, enqueued, outputBuf[outputBytesWritten..],
                     wire, executed, [o], executed);
      OwesGrows(writer, framesMade, outgoing, enqueued, outputBuf[outputBytesWritten..], wire, [o]);
      outgoing, enqueued := outgoing + [o], enqueued + [o];
    }

    /** CreateReplyFrame() fills the output buffer with the next frame, masked if this is a client. */
    method CreateReplyFrame(data: Buffer, opcode: nat)
      requires opcode < 16 && |data| < TWO32 - MAX_HEADER_SIZE && writer.isClient == isClient
      modifies this`outputBuf, this`outputBytesWritten, this`framesMade
      ensures outputBuf == ReplyFrame(writer, old(framesMade), data, opcode) && outputBytesWritten == 0
      ensures framesMade == old(framesMade) + 1
    {
      hide ToBE, ToLE, Xor;
      var numBytes := |data|;
      var frameSize := 2 + numBytes;
      if numBytes > 65535 {
        frameSize := frameSize + 8;
      } else if numBytes > 125 {
        frameSize := frameSize + 2;
      }
      if isClient { frameSize := frameSize + 4; }
      var maskBit := if isClient then 128 else 0;
      var head := [128 + opcode];
      if numBytes > 65535 {
        head := head + ([maskBit + 127] + ToBE(numBytes, 8));
      } else if numBytes > 125 {
        head := head + ([maskBit + 126] + ToBE(numBytes, 2));
      } else {
        head := head + [maskBit + numBytes];
      }
      var body := data;
      if isClient {
        var used := Applied(writer, framesMade);
        var masked := MaskBytes(used, data);
        body := Announced(writer, framesMade) + masked;
      }
      assert head + body == [128 + opcode] + (LengthBytes(maskBit, numBytes) + body);
      outputBuf, outputBytesWritten, framesMade := head + body, 0, framesMade + 1;
      assert |outputBuf| == frameSize;
    }

    method WriteSome(k: nat) returns (bytes: Buffer)
      requires Valid() && outputBytesWritten + k <= |outputBuf|
      modifies this`outputBytesWritten, this`wire
      ensures Valid() && |bytes| == k && bytes + Unsent() == old(Unsent()) && wire == old(wire) + bytes
      ensures outputBytesWritten == old(outputBytesWritten) + k
    {
      hide FramesOf, RecvValid, Pongs, PongsIn;
      ghost var tail := outputBuf[outputBytesWritten..];
      SendStateWrites(writer, framesMade, outgoing, enqueued, tail, wire, executed, k);
      bytes := outputBuf[outputBytesWritten..outputBytesWritten + k];
      assert bytes == tail[..k] && outputBuf[outputBytesWritten + k..] == tail[k..];
      outputBytesWritten, wire := outputBytesWritten + k, wire + bytes;
    }

    lemma NothingUnsent()
      requires outputBytesWritten == |outputBuf| && outgoing == []
      ensures Writable(outgoing) && Unsent() == []
    {
    }

    method NextFrame()
      requires Valid() && outputBytesWritten == |outputBuf| && |outgoing| > 0
      requires |outgoing[0].data| < TWO32 - MAX_HEADER_SIZE
      modifies this`outgoing, this`framesMade, this`outputBuf, this`outputBytesWritten
      ensures Valid() && Unsent() == old(Unsent()) && outgoing == old(outgoing)[1..]
    {
      hide ReplyFrame, RecvValid, FramesOf, Pongs, PongsIn;
      assert outputBuf[outputBytesWritten..] == [];
      SendStateMakes(writer, framesMade, outgoing, enqueued, wire, executed);
      CreateReplyFrame(outgoing[0].data, outgoing[0].opcode);
      outgoing := outgoing[1..];
      assert outputBuf[0..] == outputBuf;
      assert old(Unsent()) == [] + old(FramesOf(writer, framesMade, outgoing));
    }

    /** The output loop: whatever the DataIO accepts, what is written plus what is owed stays the same. */
    method DoOutput(maxBytes: nat, willingness: nat) returns (written: Buffer)
      requires Valid() && forall o <- outgoing :: |o.data| < TWO32 - MAX_HEADER_SIZE
      modifies this`outgoing, this`framesMade, this`outputBuf, this`outputBytesWritten, this`wire
      ensures Valid() && written + Unsent() == old(Unsent()) && wire == old(wire) + written
      ensures |written| <= maxBytes && |written| <= willingness
      ensures |written| < maxBytes && |written| < willingness ==> Unsent() == []
    {
      hide FramesOf, Unsent, RecvValid, Pongs, PongsIn;
      written := [];
      while |written| < maxBytes
        invariant Valid() && written + Unsent() == old(Unsent()) && |written| <= maxBytes && |written| <= willingness
        invariant wire == old(wire) + written
        invariant forall o <- outgoing :: |o.data| < TWO32 - MAX_HEADER_SIZE
        decreases |outgoing|, |outputBuf| - outputBytesWritten
      {
        if outputBytesWritten < |outputBuf| {
          var k := |outputBuf| - outputBytesWritten;
          if maxBytes - |written| < k { k := maxBytes - |written|; }
          if willingness - |written| < k { k := willingness - |written|; }
          if k == 0 { break; }
          ghost var owed := Unsent();
          var bytes := WriteSome(k);
          WrittenThen(written, bytes, Unsent(), old(Unsent()), owed);
          written := written + bytes;
        } else if |outgoing| > 0 {
          NextFrame();
        } else {
          NothingUnsent();
          break;
        }
      }
    }
  }

  lemma ReadOn(rx: Rx, s: Buffer, n: nat, size: nat, k: nat)
    requires Shaped(rx) && n + k <= size <= |s|
    ensures Feed(rx, s[..n + k]) == Feed(Feed(rx, s[..n]), s[n..size][..k])
  {
    hide Feed, Shaped;
    NextBytes(s, n, size, k);
    FeedAppend(rx, s[..n], s[n..size][..k]);
  }

  /** The masking loop of a client. */
  method MaskBytes(key: Buffer, data: Buffer) returns (masked: Buffer)
    requires |key| == 4
    ensures masked == Masked(key, data)
  {
    hide Xor;
    masked := [];
    for i := 0 to |data|
      invariant masked == Masked(key, data)[..i]
    {
      masked := masked + [Xor(data[i], key[i % 4])];
    }
  }

  lemma NoPong(o: Outgoing)
    requires o.opcode != OPCODE_PONG
    ensures PongsIn([o]) == []
  {
    assert [o][1..] == [];
  }

  function FeedFromStart(isClient: bool, s: Buffer): Rx {
    Feed(Start(isClient), s)
  }

  lemma FeedFromStartAppend(isClient: bool, a: Buffer, b: Buffer)
    ensures Shaped(FeedFromStart(isClient, a)) && FeedFromStart(isClient, a + b) == Feed(FeedFromStart(isClient, a), b)
  {
    hide Feed;
    FeedAppend(Start(isClient), a, b);
  }

  // ---- two gateway objects ----

  /** Whatever calls have been made on either side: the receiver has executed, in order, some first part of what was
      queued up to the first CLOSE, and all of it once it has read everything; and among what it has queued itself are
      exactly the PONGs that answer what it has executed. */
  lemma GatewaysExecute(tx: WebSocketMessageIOGateway, rx: WebSocketMessageIOGateway)
    requires tx.Valid() && rx.Valid() && rx.isClient != tx.isClient && Moderate(tx.enqueued)
    requires rx.consumed <= tx.wire
    ensures rx.executed <= UpToClose(AsReceived(tx.writer, 0, tx.enqueued))
    ensures rx.consumed == tx.wire && tx.Unsent() == [] ==>
      rx.executed == UpToClose(AsReceived(tx.writer, 0, tx.enqueued))
    ensures PongsIn(rx.enqueued) == Pongs(rx.executed)
  {
    hide Feed, FramesOf, AsReceived, UpToClose, Pongs, PongsIn, Shaped, Moderate;
    var start, all, n := Start(rx.isClient), FramesOf(tx.writer, 0, tx.enqueued), |rx.consumed|;
    assert tx.wire + tx.Unsent() == all;
    StartIsReady(rx.isClient);
    PeerExecutesTheQueue(start, tx.writer, 0, tx.enqueued);
    var m := UpToClose(AsReceived(tx.writer, 0, tx.enqueued));
    assert [] + m == m;
    assert all == rx.consumed + all[n..];
    FeedAppend(start, rx.consumed, all[n..]);
    FeedOnlyExecutes(Feed(start, rx.consumed), all[n..]);
    assert tx.wire + [] == tx.wire;
  }

  lemma StartIsReady(isClient: bool)
    ensures Ready(Start(isClient))
  {
  }
}
