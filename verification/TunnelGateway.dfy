/** The PacketTunnelIOGateway object: its packet buffer, its packing and parsing loops, and what two or more such
    objects do together. */
module TunnelGateway {
  import opened Bytes
  import opened PacketTunnel

  lemma {:induction false} PacketBytesAppend(c: Config, fs: seq<Fragment>, f: Fragment)
    ensures PacketBytes(c, fs + [f]) == PacketBytes(c, fs) + FragmentBytes(c, f, [])
  {
    hide FragmentBytes;
    if |fs| == 0 {
      assert fs + [f] == [f] && [f][1..] == [];
      assert PacketBytes(c, [f]) == FragmentBytes(c, f, []);
    } else {
      PacketBytesAppend(c, fs[1..], f);
      assert (fs + [f])[1..] == fs[1..] + [f];
      FragmentBytesRest(c, fs[0], PacketBytes(c, fs[1..]), FragmentBytes(c, f, []));
    }
  }

  lemma FragmentBytesRest(c: Config, f: Fragment, a: Buffer, b: Buffer)
    ensures FragmentBytes(c, f, a + b) == FragmentBytes(c, f, a) + b
  {
    hide W32;
  }

  function Encoded(c: Config, packets: seq<seq<Fragment>>): seq<Buffer> {
    seq(|packets|, i requires 0 <= i < |packets| => PacketBytes(c, packets[i]))
  }

  lemma EncodedSnoc(c: Config, ps: seq<seq<Fragment>>, p: seq<Fragment>)
    ensures Encoded(c, ps + [p]) == Encoded(c, ps) + [PacketBytes(c, p)]
  {
    hide PacketBytes;
  }

  lemma EncodedNothing(c: Config)
    ensures Encoded(c, []) == []
  {
  }

  /** What taking a fragment does to the queue, the offset and the message counter. */
  lemma AdvanceFields(c: Config, s: Sender)
    requires HasRoom(c, s) && HasBytesToOutput(s) && InRange(s)
    ensures var t, f := AddFragment(c, s), NextFragment(c, s);
      && t.packet == s.packet + [f]
      && if s.pos.off + |f.chunk| == |s.msgs[s.pos.i]| then
           t.msgs[t.pos.i..] == s.msgs[s.pos.i..][1..]
           && t.pos.i % TWO32 == (s.pos.i % TWO32 + 1) % TWO32 && t.pos.off == 0
         else t.msgs[t.pos.i..] == s.msgs[s.pos.i..] && t.pos.i == s.pos.i && t.pos.off == s.pos.off + |f.chunk|
  {
    hide PacketSize;
    NextCounter(s.pos.i);
  }

  lemma NextCounter(i: nat)
    ensures (i + 1) % TWO32 == (i % TWO32 + 1) % TWO32
  {
  }

  function TotalSize(packets: seq<Buffer>): nat {
    if |packets| == 0 then 0 else TotalSize(packets[..|packets| - 1]) + |packets[|packets| - 1]|
  }

  lemma InvInRange(c: Config, s: Sender)
    requires SenderInv(c, s)
    ensures InRange(s)
  {
  }

  lemma SizeZeroIffEmpty(c: Config, s: Sender)
    requires SenderInv(c, s)
    ensures (s.packet == [] <==> PacketSize(s.packet) == 0) && PacketSize(s.packet) <= c.maxTransferUnit
    ensures PacketSize([]) == 0 && PacketBytes(c, []) == []
  {
  }

  /** What is handed over from src, with its source. */
  function Tagged(src: Source, out: seq<Buffer>): seq<Arrival> {
    seq(|out|, i requires 0 <= i < |out| => Arrival(src, out[i]))
  }

  lemma {:induction false} BytesFromTagged(before: seq<Arrival>, src: Source, out: seq<Buffer>, who: Source)
    ensures BytesFrom(before + Tagged(src, out), who) == BytesFrom(before, who) + (if src == who then out else [])
    decreases |out|
  {
    if |out| == 0 {
      assert before + Tagged(src, out) == before;
      assert BytesFrom(before, who) + [] == BytesFrom(before, who);
    } else {
      var n := |out| - 1;
      var all := before + Tagged(src, out);
      assert all[..|all| - 1] == before + Tagged(src, out[..n]) && all[|all| - 1] == Arrival(src, out[n]);
      BytesFromTagged(before, src, out[..n], who);
      assert out == out[..n] + [out[n]];
    }
  }

  lemma HistoryGrows(c: Config, arrivals: seq<Arrival>, delivered: seq<Arrival>, a: Arrival, out: seq<Buffer>)
    requires forall src: Source :: BytesFrom(delivered, src) == DeliveredFrom(c, [], arrivals, src)
    requires out == ReceivePacket(c, TableAfter(c, [], arrivals), a.source, a.bytes).out
    ensures TableAfter(c, [], arrivals + [a]) == ReceivePacket(c, TableAfter(c, [], arrivals), a.source, a.bytes).table
    ensures forall src: Source ::
      BytesFrom(delivered + Tagged(a.source, out), src) == DeliveredFrom(c, [], arrivals + [a], src)
  {
    hide ReceivePacket, BytesFrom;
    assert (arrivals + [a])[..|arrivals|] == arrivals;
    forall src: Source
      ensures BytesFrom(delivered + Tagged(a.source, out), src) == DeliveredFrom(c, [], arrivals + [a], src)
    {
      BytesFromTagged(delivered, a.source, out, src);
    }
  }

  lemma {:induction false} WalkPrefix(msgs: seq<Buffer>, a: seq<Fragment>, b: seq<Fragment>)
    requires Walk(msgs, a + b).Some?
    ensures Walk(msgs, a).Some?
    decreases |b|
  {
    if |b| == 0 {
      assert a + b == a;
    } else {
      assert (a + b)[..|a + b| - 1] == a + b[..|b| - 1];
      WalkPrefix(msgs, a, b[..|b| - 1]);
    }
  }

  lemma ShipmentsAreGood(c: Config, s: Sender, ships: seq<Shipment>)
    requires SenderInv(c, s) && Packets(ships) == s.sent && Walk(s.msgs, Flat(s.sent)).Some?
    requires |s.msgs| <= TWO32 && forall m <- s.msgs :: |m| < TWO32
    ensures GoodShipments(c, s.msgs, ships)
  {
    hide Walk, Flat, PacketSize;
    forall x <- ships
      ensures 0 < |x.packet| && PacketSize(x.packet) <= c.maxTransferUnit
    {
      var k :| 0 <= k < |ships| && ships[k] == x;
      assert Packets(ships)[k] == x.packet;
    }
  }

  /** If nothing is lost, what arrives is what was written. */
  lemma {:induction false} AllPacketsAreEncoded(c: Config, packets: seq<seq<Fragment>>)
    ensures ArrivingBytes(c, Shipped(packets)) == Encoded(c, packets)
    decreases |packets|
  {
    hide PacketBytes;
    if |packets| > 0 {
      var n := |packets| - 1;
      AllPacketsAreEncoded(c, packets[..n]);
      EncodedSnoc(c, packets[..n], packets[n]);
      assert packets == packets[..n] + [packets[n]];
      assert Shipped(packets)[..n] == Shipped(packets[..n]);
    }
  }

  /** A packet that was written, or a part of it cut off anywhere, but not so short that a receiver of miscellaneous
      data would take it for some. */
  ghost predicate CutFrom(tx: Config, rx: Config, packets: seq<seq<Fragment>>, bytes: Buffer) {
    && (!rx.allowMiscData || |bytes| >= FRAGMENT_HEADER_SIZE)
    && exists p <- packets :: bytes <= PacketBytes(tx, p)
  }

  class PacketTunnelIOGateway {
    const settings: Config
    var currentOutputBuffers: seq<Buffer>
    var currentOutputBufferOffset: nat
    var sendMessageIDCounter: nat
    const outputPacketBuffer: array<Byte>
    var outputPacketSize: nat
    var receiveStates: seq<Row>
    ghost var sender: Sender
    // every packet that has arrived, and every buffer handed over, each with its source
    ghost var arrivals: seq<Arrival>
    ghost var delivered: seq<Arrival>

    ghost predicate SenderValid()
      reads this`currentOutputBuffers, this`currentOutputBufferOffset, this`sendMessageIDCounter, this`outputPacketSize,
        this`sender, outputPacketBuffer
    {
      && Proper(settings) && outputPacketBuffer.Length == settings.maxTransferUnit
      && SenderInv(settings, sender)
      && currentOutputBuffers == sender.msgs[sender.pos.i..]
      && currentOutputBufferOffset == sender.pos.off
      && sendMessageIDCounter == sender.pos.i % TWO32
      && outputPacketSize == PacketSize(sender.packet)
      && outputPacketBuffer[..outputPacketSize] == PacketBytes(settings, sender.packet)
    }

    /** The table and what has been handed over, told from the packets that have arrived. */
    ghost predicate ReceiverValid()
      reads this`receiveStates, this`arrivals, this`delivered
    {
      && Proper(settings) && receiveStates == TableAfter(settings, [], arrivals)
      && forall src: Source :: BytesFrom(delivered, src) == DeliveredFrom(settings, [], arrivals, src)
    }

    constructor (c: Config)
      requires c.magic < TWO32 && c.sexID < TWO32 && c.maxTransferUnit < TWO32 && c.maxIncomingMessageSize < TWO32
      ensures SenderValid() && ReceiverValid() && fresh(outputPacketBuffer)
      ensures sender == Sender([], Position(0, 0), [], []) && arrivals == [] && delivered == []
      ensures settings == c.(maxTransferUnit := if c.maxTransferUnit > 25 then c.maxTransferUnit else 25)
    {
      var mtu := if c.maxTransferUnit > FRAGMENT_HEADER_SIZE + 1 then c.maxTransferUnit else FRAGMENT_HEADER_SIZE + 1;
      settings := c.(maxTransferUnit := mtu);
      currentOutputBuffers, currentOutputBufferOffset, sendMessageIDCounter := [], 0, 0;
      outputPacketBuffer := new Byte[mtu];
      outputPacketSize, receiveStates := 0, [];
      sender, arrivals, delivered := Sender([], Position(0, 0), [], []), [], [];
    }

    method AddOutgoingBuffer(m: Buffer)
      requires SenderValid()
      modifies this`currentOutputBuffers, this`sender
      ensures SenderValid() && sender == old(sender).(msgs := old(sender).msgs + [m])
    {
      EnqueueKeepsInv(settings, sender, m);
      currentOutputBuffers := currentOutputBuffers + [m];
      sender := sender.(msgs := sender.msgs + [m]);
    }

    /** As much of the first buffer as fits. */
    method MakeFragment() returns (f: Fragment)
      requires SenderValid() && HasRoom(settings, sender) && HasBytesToOutput(sender)
      ensures InRange(sender) && f == NextFragment(settings, sender)
    {
      hide PacketSize, PacketBytes, SenderInv;
      InvInRange(settings, sender);
      var head := currentOutputBuffers[0];
      var n := settings.maxTransferUnit - (outputPacketSize + FRAGMENT_HEADER_SIZE);
      if |head| - currentOutputBufferOffset < n { n := |head| - currentOutputBufferOffset; }
      f := Fragment(sendMessageIDCounter, currentOutputBufferOffset, |head|,
                    head[currentOutputBufferOffset..currentOutputBufferOffset + n]);
    }

    /** One turn of the packing loop. */
    method AppendFragment()
      requires SenderValid() && HasRoom(settings, sender) && HasBytesToOutput(sender)
      modifies this`currentOutputBuffers, this`currentOutputBufferOffset, this`sendMessageIDCounter,
        this`outputPacketSize, this`sender, outputPacketBuffer
      ensures SenderValid() && sender == AddFragment(settings, old(sender))
    {
      hide W32, PacketSize, PacketBytes, SenderInv, AddFragment, NextFragment;
      InvInRange(settings, sender);
      AddFragmentGrows(settings, sender);
      AddFragmentKeepsInv(settings, sender);
      AdvanceFields(settings, sender);
      var head := currentOutputBuffers[0];
      var f := MakeFragment();
      PacketSizeAppend(sender.packet, f);
      PacketBytesAppend(settings, sender.packet, f);
      var bytes := FragmentBytes(settings, f, []);
      CopyBytes(outputPacketBuffer, outputPacketSize, bytes);
      assert outputPacketBuffer[..outputPacketSize + |bytes|] == outputPacketBuffer[..][..outputPacketSize + |bytes|];
      outputPacketSize := outputPacketSize + |bytes|;
      currentOutputBufferOffset := currentOutputBufferOffset + |f.chunk|;
      if currentOutputBufferOffset == |head| {
        currentOutputBuffers := currentOutputBuffers[1..];
        sendMessageIDCounter := (sendMessageIDCounter + 1) % TWO32;
        currentOutputBufferOffset := 0;
      }
      sender := AddFragment(settings, sender);
    }

    method FillPacket()
      requires SenderValid()
      modifies this`currentOutputBuffers, this`currentOutputBufferOffset, this`sendMessageIDCounter,
        this`outputPacketSize, this`sender, outputPacketBuffer
      ensures SenderValid() && sender == Fill(settings, old(sender))
      ensures sender.msgs == old(sender).msgs && sender.sent == old(sender).sent
      ensures outputPacketSize == 0 <==> sender.packet == []
      ensures sender.packet == [] ==> !HasBytesToOutput(sender)
    {
      hide Walk, PacketSize, PacketBytes, AddFragment, CutByTheMTU;
      FillKeepsInv(settings, sender);
      while outputPacketSize + FRAGMENT_HEADER_SIZE < settings.maxTransferUnit && |currentOutputBuffers| > 0
        invariant SenderValid() && Fill(settings, sender) == Fill(settings, old(sender))
        decreases settings.maxTransferUnit - outputPacketSize
      {
        AddFragmentGrows(settings, sender);
        AppendFragment();
      }
      SizeZeroIffEmpty(settings, sender);
    }

    /** The DataIO takes the whole packet. */
    method WritePacket() returns (p: Buffer)
      requires SenderValid() && sender.packet != []
      modifies this`outputPacketSize, this`sender
      ensures SenderValid() && sender == SendPacket(old(sender)) && p == PacketBytes(settings, old(sender).packet)
      ensures 0 < |p| <= settings.maxTransferUnit
    {
      hide PacketSize, PacketBytes, SenderInv;
      SizeZeroIffEmpty(settings, sender);
      PacketFillsSize(settings, sender.packet);
      SendKeepsInv(settings, sender);
      p := outputPacketBuffer[..outputPacketSize];
      outputPacketSize, sender := 0, SendPacket(sender);
    }

    /** capacity is the number of packets that the DataIO takes before it reports that it is not ready. */
    method DoOutput(maxBytes: nat, capacity: nat) returns (packets: seq<Buffer>)
      requires SenderValid()
      modifies this`currentOutputBuffers, this`currentOutputBufferOffset, this`sendMessageIDCounter,
        this`outputPacketSize, this`sender, outputPacketBuffer
      ensures SenderValid() && sender.msgs == old(sender).msgs && old(sender).sent <= sender.sent
      ensures packets == Encoded(settings, sender.sent[|old(sender).sent|..])
      ensures forall p <- packets :: 0 < |p| <= settings.maxTransferUnit
      ensures TotalSize(packets) < maxBytes && |packets| < capacity ==> sender.packet == [] && !HasBytesToOutput(sender)
    {
      hide PacketBytes, Fill, SenderValid, Encoded;
      packets := [];
      var total := 0;
      EncodedNothing(settings);
      assert sender.sent[|sender.sent|..] == [];
      while total < maxBytes
        invariant SenderValid() && sender.msgs == old(sender).msgs && old(sender).sent <= sender.sent
        invariant packets == Encoded(settings, sender.sent[|old(sender).sent|..])
        invariant forall p <- packets :: 0 < |p| <= settings.maxTransferUnit
        invariant total == TotalSize(packets)
        decreases maxBytes - total
      {
        FillPacket();
        if outputPacketSize == 0 || |packets| == capacity { break; }
        label Filled:
        ghost var before := sender.sent[|old(sender).sent|..];
        EncodedSnoc(settings, before, sender.packet);
        var p := WritePacket();
        assert sender.sent[|old(sender).sent|..] == before + [old@Filled(sender.packet)];
        packets, total := packets + [p], total + |p|;
      }
    }

    /** The work done for one fragment header: look the source up, create or evict states, collect or reject. */
    method HandleFragment(src: Source, f: Fragment) returns (out: seq<Buffer>)
      modifies this`receiveStates
      ensures receiveStates == Update(old(receiveStates), src, f)
      ensures out == AcceptFrom(Find(old(receiveStates), src), f).out
    {
      var found := Find(receiveStates, src);
      out := [];
      if found.Some? {
        receiveStates := Without(receiveStates, src);
      } else {
        while |receiveStates| > MAX_NUM_RECEIVE_STATES
          invariant Evict(receiveStates) == Evict(old(receiveStates))
        {
          receiveStates := receiveStates[1..];
        }
        if f.offset == 0 { found := Some(ReceiveState(f.id, f.total, [])); }
      }
      if found.Some? {
        var rs := found.value;
        if f.offset == 0 && f.id != rs.messageID { rs := ReceiveState(f.id, f.total, []); }
        if f.id == rs.messageID && f.total == rs.size && f.offset == |rs.got|
           && f.offset + |f.chunk| < TWO32 && f.offset + |f.chunk| <= rs.size {
          rs := rs.(got := rs.got + f.chunk);
          if |rs.got| == rs.size {
            out := [rs.got];
            rs := rs.(size := 0, got := []);
          }
        } else {
          rs := rs.(size := 0, got := []);
        }
        receiveStates := receiveStates + [Row(src, rs)];
      }
    }

    method HandlePacket(src: Source, packet: Buffer) returns (out: seq<Buffer>)
      requires ReceiverValid()
      modifies this`receiveStates, this`arrivals, this`delivered
      ensures ReceiverValid()
      ensures Received(receiveStates, out) == ReceivePacket(settings, old(receiveStates), src, packet)
      ensures arrivals == old(arrivals) + [Arrival(src, packet)] && delivered == old(delivered) + Tagged(src, out)
    {
      hide TableAfter, DeliveredFrom, BytesFrom, Update, AcceptFrom, Find, ReadHeader, AfterHeader, R32;
      var d := Clip(settings, packet);
      out := [];
      if settings.allowMiscData && (|d| < FRAGMENT_HEADER_SIZE || R32(d) != settings.magic) {
        out := [d];
      } else {
        ghost var total := UpdateAll(receiveStates, src, Parse(settings, d));
        while |d| >= FRAGMENT_HEADER_SIZE
          invariant var r := UpdateAll(receiveStates, src, Parse(settings, d));
            r.table == total.table && out + r.out == total.out
          invariant arrivals == old(arrivals) && delivered == old(delivered)
          decreases |d|
        {
          var h, body := ReadHeader(d), AfterHeader(d);
          if !Acceptable(settings, h, |body|) { break; }
          var f := Fragment(h.id, h.offset, h.total, body[..h.chunkSize]);
          assert Parse(settings, d)[1..] == Parse(settings, body[h.chunkSize..]);
          var completed := HandleFragment(src, f);
          out := out + completed;
          d := body[h.chunkSize..];
        }
      }
      HistoryGrows(settings, arrivals, delivered, Arrival(src, packet), out);
      arrivals, delivered := arrivals + [Arrival(src, packet)], delivered + Tagged(src, out);
    }
  }

  // ---- gateway objects at both ends ----

  /** Lossy delivery between two objects, whatever calls have been made on either: of the messages that the sender has
      written out completely, the receiver has handed over, once and in order, those and only those of which every
      packet has arrived. */
  lemma GatewaysDeliver(tx: PacketTunnelIOGateway, rx: PacketTunnelIOGateway, src: Source, ships: seq<Shipment>)
    requires tx.SenderValid() && rx.ReceiverValid() && Listens(tx.settings, rx.settings, tx.sender.msgs)
    requires |tx.sender.msgs| <= TWO32 && forall m <- tx.sender.msgs :: |m| < TWO32
    requires Packets(ships) == tx.sender.sent && BytesFrom(rx.arrivals, src) == ArrivingBytes(tx.settings, ships)
    requires NeverEvicted(rx.settings, rx.arrivals, src)
    ensures var msgs, pos := tx.sender.msgs, Walk(tx.sender.msgs, Flat(tx.sender.sent));
      && pos.Some? && pos.value.i <= |msgs|
      && BytesFrom(rx.delivered, src) == Deliverable(msgs, ships, pos.value.i)
  {
    hide Walk, Listens, NeverEvicted, Flat, ArrivingBytes, BytesFrom, Deliverable, PacketSize, PacketBytes,
      DeliveredFrom, TableAfter;
    WalkPrefix(tx.sender.msgs, Flat(tx.sender.sent), tx.sender.packet);
    ShipmentsAreGood(tx.settings, tx.sender, ships);
    DeliveredIffEveryPacketArrives(tx.settings, rx.settings, tx.sender.msgs, ships, rx.arrivals, src);
  }

  /** A sending object never cuts a message without need: whatever calls have been made, every fragment that it has sent
      ends its message or fills its packet to the MTU. */
  lemma GatewayCutsByTheMTU(tx: PacketTunnelIOGateway, p: seq<Fragment>, k: nat)
    requires tx.SenderValid() && p in tx.sender.sent && k < |p|
    ensures p[k].offset + |p[k].chunk| == p[k].total
      || (k == |p| - 1 && |PacketBytes(tx.settings, p)| == tx.settings.maxTransferUnit)
  {
    hide PacketBytes, PacketSize, Walk, Flat;
    PacketFillsSize(tx.settings, p);
  }

  /** Lossless delivery between two objects: once the sender has nothing left to write and the receiver has read all the
      packets written, it has handed over exactly the messages that were queued. */
  lemma GatewaysDeliverAll(tx: PacketTunnelIOGateway, rx: PacketTunnelIOGateway, src: Source)
    requires tx.SenderValid() && rx.ReceiverValid() && Listens(tx.settings, rx.settings, tx.sender.msgs)
    requires |tx.sender.msgs| <= TWO32 && forall m <- tx.sender.msgs :: |m| < TWO32
    requires tx.sender.packet == [] && !HasBytesToOutput(tx.sender)
    requires BytesFrom(rx.arrivals, src) == Encoded(tx.settings, tx.sender.sent)
    requires NeverEvicted(rx.settings, rx.arrivals, src)
    ensures BytesFrom(rx.delivered, src) == tx.sender.msgs
  {
    hide Walk, Listens, NeverEvicted, Flat, ArrivingBytes, BytesFrom, Encoded, PacketSize, PacketBytes, DeliveredFrom,
      TableAfter, Shipped;
    AllPacketsAreEncoded(tx.settings, tx.sender.sent);
    LosslessDelivery(tx.settings, rx.settings, tx.sender, rx.arrivals, src);
  }

  /** Whatever the channel does to the packets of any number of sending objects, a receiving object hands over nothing
      but messages that were queued at the object they are said to come from. */
  lemma GatewaysDeliverOnlySent(tx: map<Source, PacketTunnelIOGateway>, rx: PacketTunnelIOGateway)
    requires rx.ReceiverValid()
    requires forall s <- tx :: tx[s].SenderValid() && tx[s].settings.magic == rx.settings.magic
    requires forall s <- tx :: |tx[s].sender.msgs| <= TWO32 && forall m <- tx[s].sender.msgs :: |m| < TWO32
    requires forall a <- rx.arrivals :: a.source in tx.Keys
    requires forall a <- rx.arrivals ::
      CutFrom(tx[a.source].settings, rx.settings, tx[a.source].sender.sent, a.bytes)
    ensures forall s, b :: s in tx && b in BytesFrom(rx.delivered, s) ==> b in tx[s].sender.msgs
  {
    hide PacketBytes, PacketSize, SenderInv, BytesFrom, DeliveredFrom, TableAfter, GenuinePacket, TableFaithful;
    var settings := map s <- tx :: tx[s].settings;
    var sent := map s <- tx :: tx[s].sender.msgs;
    forall a <- rx.arrivals
      ensures GenuineArrival(settings[a.source], rx.settings, sent[a.source], a.bytes)
    {
      var t := tx[a.source];
      var p :| p in t.sender.sent && a.bytes <= PacketBytes(t.settings, p);
      SentPacketsAreGenuine(t.settings, t.sender, p);
    }
    OnlySentMessagesAreDelivered(settings, rx.settings, sent, rx.arrivals);
    forall s, b | s in tx && b in BytesFrom(rx.delivered, s)
      ensures b in tx[s].sender.msgs
    {
      assert b in DeliveredFrom(rx.settings, [], rx.arrivals, s);
    }
  }

  /** A receiving object that excludes a sending object, be it the same gateway that hears itself, never follows it, and
      hands over nothing of it but what it takes for miscellaneous data: nothing at all if it does not accept such
      data. */
  lemma ExcludedGatewayIsNotHeard(tx: PacketTunnelIOGateway, rx: PacketTunnelIOGateway, src: Source)
    requires tx.SenderValid() && rx.ReceiverValid() && Excluded(tx.settings, rx.settings)
    requires |tx.sender.msgs| <= TWO32 && forall m <- tx.sender.msgs :: |m| < TWO32
    requires forall d <- BytesFrom(rx.arrivals, src) :: exists p <- tx.sender.sent :: d <= PacketBytes(tx.settings, p)
    ensures Find(rx.receiveStates, src) == None
    ensures BytesFrom(rx.delivered, src) == Miscellaneous(tx.settings, rx.settings, BytesFrom(rx.arrivals, src))
    ensures !rx.settings.allowMiscData ==> BytesFrom(rx.delivered, src) == []
  {
    hide PacketBytes, PacketSize, SenderInv, BytesFrom, DeliveredFrom, TableAfter, Find, Excluded, Miscellaneous;
    var received := BytesFrom(rx.arrivals, src);
    forall d <- received ensures FromSender(tx.settings, d) {
      var p :| p in tx.sender.sent && d <= PacketBytes(tx.settings, p);
      SentPacketIsEncodable(tx.settings, tx.sender, p);
    }
    ExcludedSource(tx.settings, rx.settings, rx.arrivals, src);
    if !rx.settings.allowMiscData { NothingMiscellaneous(tx.settings, rx.settings, received); }
  }

  lemma SentPacketIsEncodable(c: Config, s: Sender, p: seq<Fragment>)
    requires SenderInv(c, s) && p in s.sent && |s.msgs| <= TWO32 && forall m <- s.msgs :: |m| < TWO32
    ensures |p| > 0 && Encodable(p[0])
  {
    hide Walk, PacketSize, Genuine, Encodable;
    var all := Flat(s.sent) + s.packet;
    WalkIsGenuine(s.msgs, all);
    FlatHolds(s.sent, p);
    assert p[0] in all;
  }

  lemma {:induction false} NothingMiscellaneous(tx: Config, rx: Config, packets: seq<Buffer>)
    requires !rx.allowMiscData
    ensures Miscellaneous(tx, rx, packets) == []
    decreases |packets|
  {
    if |packets| > 0 { NothingMiscellaneous(tx, rx, packets[..|packets| - 1]); }
  }
}
