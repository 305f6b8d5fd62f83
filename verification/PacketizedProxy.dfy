/** PacketizedProxyDataIO: packets with a length prefix over a child DataIO that carries a byte stream. */
module PacketizedProxy {
  import opened Bytes

  const PREFIX_SIZE: nat := 4

  function PacketBytes(p: Buffer): Buffer {
    W32(|p|) + p
  }

  function StreamBytes(packets: seq<Buffer>): Buffer
    decreases |packets|
  {
    if |packets| == 0 then [] else StreamBytes(packets[..|packets| - 1]) + PacketBytes(packets[|packets| - 1])
  }

  function NonEmpty(packets: seq<Buffer>): seq<Buffer>
    decreases |packets|
  {
    if |packets| == 0 then []
    else
      var n := |packets| - 1;
      NonEmpty(packets[..n]) + (if packets[n] == [] then [] else [packets[n]])
  }

  /** A packet on the wire: its length, lowest byte first, and its bytes. */
  lemma PacketImage(p: Buffer)
    ensures PacketBytes(p) == Word(|p|) + p
  {
    WordIs(|p|);
  }

  lemma StreamSnoc(packets: seq<Buffer>, p: Buffer)
    ensures StreamBytes(packets + [p]) == StreamBytes(packets) + PacketBytes(p)
  {
    hide PacketBytes;
    assert (packets + [p])[..|packets|] == packets;
  }

  // ---- reading ----

  /** The prefix bytes and data bytes of the current packet that have been read, and the packets returned so far. */
  datatype Reader = Reader(prefix: Buffer, data: Buffer, out: seq<Buffer>, failed: bool)

  /** The last prefix byte is in. */
  function FinishPrefix(mtu: nat, r: Reader): Reader
    requires |r.prefix| == PREFIX_SIZE
  {
    if R32(r.prefix) > mtu then r.(failed := true)
    else if R32(r.prefix) == 0 then r.(prefix := [], data := [])
    else r.(data := [])
  }

  function FinishData(r: Reader): Reader {
    Reader([], [], r.out + [r.data], r.failed)
  }

  predicate Sane(mtu: nat, r: Reader) {
    |r.prefix| <= PREFIX_SIZE
    && (|r.prefix| == PREFIX_SIZE && !r.failed ==> |r.data| < R32(r.prefix) <= mtu)
  }

  /** One incoming byte. */
  function Step(mtu: nat, r: Reader, b: Byte): Reader
    requires Sane(mtu, r)
  {
    if r.failed then r
    else if |r.prefix| < PREFIX_SIZE then
      var r1 := r.(prefix := r.prefix + [b]);
      if |r1.prefix| == PREFIX_SIZE then FinishPrefix(mtu, r1) else r1
    else
      var r1 := r.(data := r.data + [b]);
      if |r1.data| == R32(r.prefix) then FinishData(r1) else r1
  }

  function Feed(mtu: nat, r: Reader, s: Buffer): (r': Reader)
    requires Sane(mtu, r)
    ensures Sane(mtu, r')
    decreases |s|
  {
    if |s| == 0 then r else Feed(mtu, Step(mtu, r, s[0]), s[1..])
  }

  lemma {:induction false} FeedAppend(mtu: nat, r: Reader, a: Buffer, b: Buffer)
    requires Sane(mtu, r)
    ensures Feed(mtu, r, a + b) == Feed(mtu, Feed(mtu, r, a), b)
    decreases |a|
  {
    hide R32;
    if |a| == 0 {
      assert a + b == b;
    } else {
      FeedAppend(mtu, Step(mtu, r, a[0]), a[1..], b);
      assert (a + b)[1..] == a[1..] + b;
    }
  }

  lemma FeedNothing(mtu: nat, r: Reader)
    requires Sane(mtu, r)
    ensures Feed(mtu, r, []) == r
  {
  }

  lemma FeedOne(mtu: nat, r: Reader, b: Byte)
    requires Sane(mtu, r)
    ensures Feed(mtu, r, [b]) == Step(mtu, r, b)
  {
    hide R32;
    assert Feed(mtu, Step(mtu, r, b), []) == Step(mtu, r, b);
  }

  function ReadPrefix(mtu: nat, r: Reader, s: Buffer): Reader
    requires |r.prefix| + |s| <= PREFIX_SIZE
  {
    var r1 := r.(prefix := r.prefix + s);
    if |r1.prefix| == PREFIX_SIZE then FinishPrefix(mtu, r1) else r1
  }

  function ReadData(r: Reader, s: Buffer): Reader
    requires |r.prefix| == PREFIX_SIZE
  {
    var r1 := r.(data := r.data + s);
    if |r1.data| == R32(r.prefix) then FinishData(r1) else r1
  }

  lemma {:induction false} FeedPrefix(mtu: nat, r: Reader, s: Buffer)
    requires Sane(mtu, r) && !r.failed && |r.prefix| < PREFIX_SIZE && |r.prefix| + |s| <= PREFIX_SIZE
    ensures Feed(mtu, r, s) == ReadPrefix(mtu, r, s)
    decreases |s|
  {
    hide FinishPrefix, FinishData, R32;
    if |s| == 0 {
      assert r.prefix + s == r.prefix;
    } else if |s| == 1 {
      FeedOne(mtu, r, s[0]);
      assert s == [s[0]];
    } else {
      FeedPrefix(mtu, Step(mtu, r, s[0]), s[1..]);
      assert r.prefix + s == (r.prefix + [s[0]]) + s[1..];
    }
  }

  lemma {:induction false} FeedData(mtu: nat, r: Reader, s: Buffer)
    requires Sane(mtu, r) && !r.failed && |r.prefix| == PREFIX_SIZE && |r.data| + |s| <= R32(r.prefix)
    ensures Feed(mtu, r, s) == ReadData(r, s)
    decreases |s|
  {
    hide FinishPrefix, FinishData, R32;
    if |s| == 0 {
      assert r.data + s == r.data;
    } else if |s| == 1 {
      FeedOne(mtu, r, s[0]);
      assert s == [s[0]];
    } else {
      FeedData(mtu, Step(mtu, r, s[0]), s[1..]);
      assert r.data + s == (r.data + [s[0]]) + s[1..];
    }
  }

  lemma FeedPacket(mtu: nat, out: seq<Buffer>, p: Buffer)
    requires |p| <= mtu && |p| < TWO32
    ensures Feed(mtu, Reader([], [], out, false), PacketBytes(p))
         == Reader([], [], out + (if p == [] then [] else [p]), false)
  {
    hide R32, W32, Feed;
    var r := Reader([], [], out, false);
    R32W32(|p|, []);
    assert W32(|p|) + [] == W32(|p|);
    FeedAppend(mtu, r, W32(|p|), p);
    assert [] + W32(|p|) == W32(|p|);
    FeedPrefix(mtu, r, W32(|p|));
    if p == [] {
      FeedNothing(mtu, r);
      assert out + [] == out;
    } else {
      FeedData(mtu, Reader(W32(|p|), [], out, false), p);
      assert [] + p == p;
    }
  }

  lemma {:induction false} FeedStream(mtu: nat, packets: seq<Buffer>)
    requires forall p <- packets :: |p| <= mtu && |p| < TWO32
    ensures Feed(mtu, Reader([], [], [], false), StreamBytes(packets)) == Reader([], [], NonEmpty(packets), false)
    decreases |packets|
  {
    hide PacketBytes, Step, R32;
    var r := Reader([], [], [], false);
    if |packets| > 0 {
      var n := |packets| - 1;
      FeedStream(mtu, packets[..n]);
      FeedAppend(mtu, r, StreamBytes(packets[..n]), PacketBytes(packets[n]));
      FeedPacket(mtu, NonEmpty(packets[..n]), packets[n]);
    }
  }

  lemma {:induction false} FeedFailed(mtu: nat, r: Reader, s: Buffer)
    requires Sane(mtu, r) && r.failed
    ensures Feed(mtu, r, s) == r
    decreases |s|
  {
    if |s| > 0 { FeedFailed(mtu, r, s[1..]); }
  }

  /** A packet that announces more than the limit ends the reading for good; the packets before it have been
      returned. */
  lemma OversizedIsRefused(mtu: nat, packets: seq<Buffer>, size: nat, rest: Buffer)
    requires (forall p <- packets :: |p| <= mtu && |p| < TWO32) && mtu < size < TWO32
    ensures var r := Feed(mtu, Reader([], [], [], false), StreamBytes(packets) + (W32(size) + rest));
      r.failed && r.out == NonEmpty(packets)
  {
    hide R32, W32, Feed, StreamBytes, NonEmpty;
    var r := Reader([], [], NonEmpty(packets), false);
    FeedStream(mtu, packets);
    FeedAppend(mtu, Reader([], [], [], false), StreamBytes(packets), W32(size) + rest);
    FeedAppend(mtu, r, W32(size), rest);
    R32W32(size, []);
    assert W32(size) + [] == W32(size) && [] + W32(size) == W32(size);
    FeedPrefix(mtu, r, W32(size));
    FeedFailed(mtu, Feed(mtu, r, W32(size)), rest);
  }

  function FeedReads(mtu: nat, r: Reader, chunks: seq<Buffer>): Reader
    requires Sane(mtu, r)
    decreases |chunks|
  {
    if |chunks| == 0 then r else FeedReads(mtu, Feed(mtu, r, chunks[0]), chunks[1..])
  }

  lemma {:induction false} ReadsDoNotMatter(mtu: nat, r: Reader, chunks: seq<Buffer>)
    requires Sane(mtu, r)
    ensures FeedReads(mtu, r, chunks) == Feed(mtu, r, Concat(chunks))
    decreases |chunks|
  {
    hide Step, R32;
    if |chunks| > 0 {
      ReadsDoNotMatter(mtu, Feed(mtu, r, chunks[0]), chunks[1..]);
      FeedAppend(mtu, r, chunks[0], Concat(chunks[1..]));
    }
  }

  /** However the stream is chunked, the reader returns exactly the non-empty packets, whole and in order. */
  lemma ReturnsExactlyThePackets(mtu: nat, packets: seq<Buffer>, chunks: seq<Buffer>)
    requires forall p <- packets :: |p| <= mtu && |p| < TWO32
    requires Concat(chunks) == StreamBytes(packets)
    ensures FeedReads(mtu, Reader([], [], [], false), chunks) == Reader([], [], NonEmpty(packets), false)
  {
    ReadsDoNotMatter(mtu, Reader([], [], [], false), chunks);
    FeedStream(mtu, packets);
  }

  lemma ReadOn(mtu: nat, r: Reader, s: Buffer, n: nat, k: nat)
    requires Sane(mtu, r) && n + k <= |s|
    ensures Feed(mtu, r, s[..n + k]) == Feed(mtu, Feed(mtu, r, s[..n]), s[n..|s|][..k])
  {
    hide Feed, Sane;
    NextBytes(s, n, |s|, k);
    FeedAppend(mtu, r, s[..n], s[n..|s|][..k]);
  }

  // ---- the object ----

  class PacketizedProxyDataIO {
    const maxTransferUnit: nat
    var inputPrefix: Buffer     // the bytes of _inputBufferSize that have been read
    var inputBuffer: Buffer     // the bytes of _inputBuffer that have been read
    var inputBufferSize: nat
    var outputBuffer: Buffer
    var outputBufferBytesSent: nat
    var unrecoverableError: bool
    ghost var received: seq<Buffer>
    ghost var accepted: seq<Buffer>
    ghost var child: Buffer     // everything the child has been given

    /** What the child has plus the buffered tail is the prefixed concatenation of the accepted packets. */
    ghost predicate Valid()
      reads this
    {
      && maxTransferUnit < TWO32 && outputBufferBytesSent <= |outputBuffer|
      && child + outputBuffer[outputBufferBytesSent..] == StreamBytes(accepted)
      && (forall p <- accepted :: |p| <= maxTransferUnit)
      && Sane(maxTransferUnit, Abs())
      && (|inputPrefix| == PREFIX_SIZE ==> inputBufferSize == R32(inputPrefix))
    }

    ghost function Abs(): Reader
      reads this
    {
      Reader(inputPrefix, inputBuffer, received, unrecoverableError)
    }

    constructor (maxTransferUnit: nat)
      requires maxTransferUnit < TWO32
      ensures Valid() && this.maxTransferUnit == maxTransferUnit && accepted == [] && child == []
      ensures Abs() == Reader([], [], [], false)
    {
      this.maxTransferUnit := maxTransferUnit;
      inputPrefix, inputBuffer, inputBufferSize, outputBuffer, outputBufferBytesSent := [], [], 0, [], 0;
      unrecoverableError, received, accepted, child := false, [], [], [];
    }

    /** The child accepts up to willingness bytes. */
    method WriteBufferedOutputAux(willingness: nat) returns (sent: nat)
      requires Valid()
      modifies this`outputBuffer, this`outputBufferBytesSent, this`child
      ensures Valid() && old(child) <= child && |child| == |old(child)| + sent
      ensures var left := |old(outputBuffer)| - old(outputBufferBytesSent);
        && sent == (if willingness < left then willingness else left)
        && |outputBuffer| - outputBufferBytesSent == left - sent
    {
      hide StreamBytes, R32;
      sent := 0;
      if outputBufferBytesSent < |outputBuffer| {
        sent := |outputBuffer| - outputBufferBytesSent;
        if willingness < sent { sent := willingness; }
        ghost var bytes := outputBuffer[outputBufferBytesSent..outputBufferBytesSent + sent];
        assert outputBuffer[outputBufferBytesSent..] == bytes + outputBuffer[outputBufferBytesSent + sent..];
        child := child + bytes;
        outputBufferBytesSent := outputBufferBytesSent + sent;
        if outputBufferBytesSent == |outputBuffer| { outputBuffer, outputBufferBytesSent := [], 0; }
      }
    }

    /** Takes the whole packet or nothing; after a successful flush it tries once more, so the recursion ends. */
    method Write(buffer: Buffer, willingness: nat) returns (r: Result<nat>)
      requires Valid()
      modifies this`outputBuffer, this`outputBufferBytesSent, this`child, this`accepted
      ensures Valid() && old(child) <= child
      ensures r.Err? <==>
        (unrecoverableError || |buffer| > maxTransferUnit
         || (|buffer| >= TWO32 - PREFIX_SIZE && old(outputBufferBytesSent) + willingness >= |old(outputBuffer)|))
      ensures accepted == old(accepted) || accepted == old(accepted) + [buffer]
      ensures r.Ok? ==> r.value == if accepted == old(accepted) then 0 else |buffer|
      ensures r.Ok? && accepted == old(accepted) ==> outputBufferBytesSent < |outputBuffer|
      decreases if outputBufferBytesSent < |outputBuffer| then 1 else 0
    {
      hide R32, PacketBytes, StreamBytes;
      if unrecoverableError || |buffer| > maxTransferUnit { return Err; }
      var tryAgainAfter := false;
      var ret := 0;
      if outputBufferBytesSent < |outputBuffer| {
        tryAgainAfter := true;
      } else {
        if |buffer| >= TWO32 - PREFIX_SIZE { return Err; }
        outputBufferBytesSent := 0;
        assert child + [] == child;
        StreamSnoc(accepted, buffer);
        outputBuffer := PacketBytes(buffer);
        accepted := accepted + [buffer];
        ret := |buffer|;
      }
      var sent := WriteBufferedOutputAux(willingness);
      if tryAgainAfter && outputBufferBytesSent == |outputBuffer| {
        r := Write(buffer, willingness - sent);
      } else {
        r := Ok(ret);
      }
    }

    /** Reads what the child has available; returns at most one packet, cut to the caller's buffer. */
    method Read(size: nat, available: Buffer) returns (r: Result<Buffer>, used: nat)
      requires Valid()
      modifies this`inputPrefix, this`inputBuffer, this`inputBufferSize, this`unrecoverableError, this`received
      ensures Valid() && used <= |available|
      ensures Abs() == Feed(maxTransferUnit, old(Abs()), available[..used])
      ensures r.Err? <==> unrecoverableError
      ensures r.Ok? ==>
        if received == old(received) then r.value == []
        else |received| == |old(received)| + 1 && r.value == Cut(received[|old(received)|], size)
      ensures r.Ok? && received == old(received) ==>
        used == |available| || (inputPrefix == [] && used == PREFIX_SIZE - |old(inputPrefix)| > 0)
    {
      hide Feed, R32, StreamBytes;
      FeedNothing(maxTransferUnit, Abs());
      assert available[..0] == [];
      if unrecoverableError { return Err, 0; }
      used := 0;
      if |inputPrefix| < PREFIX_SIZE {
        used := ReceivePrefix(available);
        if unrecoverableError { return Err, used; }
      }
      r := Ok([]);
      if |inputPrefix| == PREFIX_SIZE && |inputBuffer| < inputBufferSize {
        var n, packet := ReceiveData(available[used..|available|]);
        ReadOn(maxTransferUnit, old(Abs()), available, used, n);
        used := used + n;
        if packet.Some? { r := Ok(Cut(packet.value, size)); }
      }
    }

    method ReceivePrefix(available: Buffer) returns (n: nat)
      requires Valid() && !unrecoverableError && |inputPrefix| < PREFIX_SIZE
      modifies this`inputPrefix, this`inputBuffer, this`inputBufferSize, this`unrecoverableError
      ensures Valid() && n <= |available| && Abs() == Feed(maxTransferUnit, old(Abs()), available[..n])
      ensures var need := PREFIX_SIZE - |old(inputPrefix)|; n == if |available| < need then |available| else need
      ensures |inputPrefix| == |old(inputPrefix)| + n || (inputPrefix == [] && n == PREFIX_SIZE - |old(inputPrefix)|)
    {
      hide Feed, R32, StreamBytes;
      n := PREFIX_SIZE - |inputPrefix|;
      if |available| < n { n := |available|; }
      FeedPrefix(maxTransferUnit, Abs(), available[..n]);
      inputPrefix := inputPrefix + available[..n];
      if |inputPrefix| == PREFIX_SIZE {
        inputBufferSize := R32(inputPrefix);
        if inputBufferSize > maxTransferUnit {
          unrecoverableError := true;
        } else {
          inputBuffer := [];
          if inputBufferSize == 0 { inputPrefix := []; }
        }
      }
    }

    method ReceiveData(available: Buffer) returns (n: nat, packet: Option<Buffer>)
      requires Valid() && !unrecoverableError && |inputPrefix| == PREFIX_SIZE
      modifies this`inputPrefix, this`inputBuffer, this`received
      ensures Valid() && n <= |available| && Abs() == Feed(maxTransferUnit, old(Abs()), available[..n])
      ensures if packet.None? then received == old(received) && n == |available|
        else received == old(received) + [packet.value]
    {
      hide Feed, R32, StreamBytes;
      packet := None;
      n := inputBufferSize - |inputBuffer|;
      if |available| < n { n := |available|; }
      FeedData(maxTransferUnit, Abs(), available[..n]);
      inputBuffer := inputBuffer + available[..n];
      if |inputBuffer| == inputBufferSize {
        packet := Some(inputBuffer);
        received := received + [inputBuffer];
        inputPrefix, inputBuffer := [], [];
      }
    }
  }

  function Cut(p: Buffer, size: nat): Buffer {
    if size < |p| then p[..size] else p
  }
}
