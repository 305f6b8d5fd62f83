/** PacketTunnelIOGateway: messages are cut into fragments, fragments are packed into packets no larger than the MTU,
    and the packets may be lost, duplicated, reordered and mixed with those of other sources before they are put
    together. */
module PacketTunnel {
  import opened Bytes

  type Source = nat
  const FRAGMENT_HEADER_SIZE: nat := 24
  const MAX_NUM_RECEIVE_STATES: nat := 256

  datatype Fragment = Fragment(id: nat, offset: nat, total: nat, chunk: Buffer)

  /** A gateway's settings. */
  datatype Config = Config(magic: nat, sexID: nat, maxTransferUnit: nat, maxIncomingMessageSize: nat,
                           allowMiscData: bool)

  predicate Proper(c: Config) {
    c.magic < TWO32 && c.sexID < TWO32 && FRAGMENT_HEADER_SIZE < c.maxTransferUnit < TWO32
    && c.maxIncomingMessageSize < TWO32
  }

  predicate Encodable(f: Fragment) {
    f.id < TWO32 && f.total < TWO32 && f.offset + |f.chunk| <= f.total
  }

  // ---- wire format ----

  /** A fragment header and its data, followed by rest. */
  function FragmentBytes(c: Config, f: Fragment, rest: Buffer): Buffer {
    W32(c.magic) + (W32(c.sexID) + (W32(f.id) + (W32(f.offset) + (W32(|f.chunk|) + (W32(f.total) + (f.chunk + rest))))))
  }

  function PacketBytes(c: Config, fs: seq<Fragment>): Buffer {
    if |fs| == 0 then [] else FragmentBytes(c, fs[0], PacketBytes(c, fs[1..]))
  }

  function PacketSize(fs: seq<Fragment>): nat {
    if |fs| == 0 then 0 else FRAGMENT_HEADER_SIZE + |fs[0].chunk| + PacketSize(fs[1..])
  }

  /** A packet on the wire: fragment after fragment, each behind a header of six words. */
  lemma PacketImage(c: Config, f: Fragment, fs: seq<Fragment>)
    ensures PacketBytes(c, []) == []
    ensures PacketBytes(c, [f] + fs) ==
      Word(c.magic) + Word(c.sexID) + Word(f.id) + Word(f.offset) + Word(|f.chunk|) + Word(f.total) + f.chunk
      + PacketBytes(c, fs)
  {
    hide W32, Word;
    assert ([f] + fs)[1..] == fs;
    WordIs(c.magic);
    WordIs(c.sexID);
    WordIs(f.id);
    WordIs(f.offset);
    WordIs(|f.chunk|);
    WordIs(f.total);
    var rest := PacketBytes(c, fs);
    assert PacketBytes(c, [f] + fs) == FragmentBytes(c, f, rest);
  }

  datatype Header = Header(magic: nat, sexID: nat, id: nat, offset: nat, chunkSize: nat, total: nat)

  function ReadHeader(d: Buffer): Header
    requires |d| >= FRAGMENT_HEADER_SIZE
  {
    var d1 := d[4..]; var d2 := d1[4..]; var d3 := d2[4..]; var d4 := d3[4..]; var d5 := d4[4..];
    Header(R32(d), R32(d1), R32(d2), R32(d3), R32(d4), R32(d5))
  }

  function AfterHeader(d: Buffer): (r: Buffer)
    requires |d| >= FRAGMENT_HEADER_SIZE
    ensures |r| == |d| - FRAGMENT_HEADER_SIZE
  {
    d[4..][4..][4..][4..][4..][4..]
  }

  /** Whether the receiver goes on with a fragment; otherwise it abandons the rest of the packet. */
  predicate Acceptable(c: Config, h: Header, available: nat) {
    h.magic == c.magic && (c.sexID == 0 || c.sexID != h.sexID)
    && h.chunkSize <= available && h.total <= c.maxIncomingMessageSize
  }

  /** The fragments that the receiver takes from a packet. */
  function Parse(c: Config, d: Buffer): seq<Fragment>
    decreases |d|
  {
    if |d| < FRAGMENT_HEADER_SIZE then []
    else
      var h, body := ReadHeader(d), AfterHeader(d);
      if Acceptable(c, h, |body|) then
        [Fragment(h.id, h.offset, h.total, body[..h.chunkSize])] + Parse(c, body[h.chunkSize..])
      else []
  }

  // ---- reassembly ----

  /** The message being received from one source.  Only the first |got| == _offset bytes of the buffer of size bytes
      have been written; the bytes behind them are whatever the allocator left there. */
  datatype ReceiveState = ReceiveState(messageID: nat, size: nat, got: Buffer)

  datatype Accepted = Accepted(state: Option<ReceiveState>, out: seq<Buffer>)

  /** One fragment from a source whose state is rs. */
  function Accept(rs: ReceiveState, f: Fragment): Accepted {
    var cur := if f.offset == 0 && f.id != rs.messageID then ReceiveState(f.id, f.total, []) else rs;
    if f.id == cur.messageID && f.total == cur.size && f.offset == |cur.got| && f.offset + |f.chunk| < TWO32
       && f.offset + |f.chunk| <= cur.size then
      var got := cur.got + f.chunk;
      if |got| == cur.size then Accepted(Some(ReceiveState(cur.messageID, 0, [])), [got])
      else Accepted(Some(cur.(got := got)), [])
    else Accepted(Some(ReceiveState(cur.messageID, 0, [])), [])
  }

  /** One fragment from a source that may be unknown so far. */
  function AcceptFrom(o: Option<ReceiveState>, f: Fragment): Accepted {
    match o
    case Some(rs) => Accept(rs, f)
    case None => if f.offset == 0 then Accept(ReceiveState(f.id, f.total, []), f) else Accepted(None, [])
  }

  function AcceptAll(o: Option<ReceiveState>, fs: seq<Fragment>): Accepted
    decreases |fs|
  {
    if |fs| == 0 then Accepted(o, [])
    else
      var a := AcceptFrom(o, fs[0]);
      var b := AcceptAll(a.state, fs[1..]);
      Accepted(b.state, a.out + b.out)
  }

  // ---- the table of sources, least recently heard from first ----

  datatype Row = Row(source: Source, state: ReceiveState)

  function Find(table: seq<Row>, src: Source): Option<ReceiveState> {
    if |table| == 0 then None
    else if table[0].source == src then Some(table[0].state)
    else Find(table[1..], src)
  }

  function Without(table: seq<Row>, src: Source): (r: seq<Row>)
    ensures |r| <= |table|
  {
    if |table| == 0 then []
    else if table[0].source == src then table[1..]
    else [table[0]] + Without(table[1..], src)
  }

  function Evict(table: seq<Row>): seq<Row> {
    if |table| > MAX_NUM_RECEIVE_STATES then table[|table| - MAX_NUM_RECEIVE_STATES..] else table
  }

  function Store(table: seq<Row>, src: Source, o: Option<ReceiveState>): seq<Row> {
    if o.Some? then table + [Row(src, o.value)] else table
  }

  /** The table after a fragment from src. */
  function Update(table: seq<Row>, src: Source, f: Fragment): seq<Row> {
    Store(if Find(table, src).Some? then Without(table, src) else Evict(table), src,
          AcceptFrom(Find(table, src), f).state)
  }

  datatype Received = Received(table: seq<Row>, out: seq<Buffer>)

  function UpdateAll(table: seq<Row>, src: Source, fs: seq<Fragment>): Received
    decreases |fs|
  {
    if |fs| == 0 then Received(table, [])
    else
      var r := UpdateAll(Update(table, src, fs[0]), src, fs[1..]);
      Received(r.table, AcceptFrom(Find(table, src), fs[0]).out + r.out)
  }

  predicate IsMisc(c: Config, d: Buffer) {
    c.allowMiscData && (|d| < FRAGMENT_HEADER_SIZE || R32(d) != c.magic)
  }

  function Clip(c: Config, d: Buffer): Buffer {
    if |d| <= c.maxTransferUnit then d else d[..c.maxTransferUnit]
  }

  /** One packet; the read clips it to the size of the input buffer. */
  function ReceivePacket(c: Config, table: seq<Row>, src: Source, packet: Buffer): Received {
    var d := Clip(c, packet);
    if IsMisc(c, d) then Received(table, [d]) else UpdateAll(table, src, Parse(c, d))
  }

  datatype Arrival = Arrival(source: Source, bytes: Buffer)

  /** The table after a series of packets. */
  function TableAfter(c: Config, table: seq<Row>, arrivals: seq<Arrival>): seq<Row>
    decreases |arrivals|
  {
    if |arrivals| == 0 then table
    else
      var n := |arrivals| - 1;
      ReceivePacket(c, TableAfter(c, table, arrivals[..n]), arrivals[n].source, arrivals[n].bytes).table
  }

  /** What has been delivered from src after a series of packets. */
  function DeliveredFrom(c: Config, table: seq<Row>, arrivals: seq<Arrival>, src: Source): seq<Buffer>
    decreases |arrivals|
  {
    if |arrivals| == 0 then []
    else
      var n := |arrivals| - 1;
      var last := arrivals[n];
      DeliveredFrom(c, table, arrivals[..n], src)
      + (if last.source == src then ReceivePacket(c, TableAfter(c, table, arrivals[..n]), src, last.bytes).out else [])
  }

  // ---- safety: whatever the channel does, only sent messages come out ----

  /** f is a piece of the message with its ID. */
  predicate Genuine(msgs: seq<Buffer>, f: Fragment) {
    f.id < |msgs| && f.total == |msgs[f.id]| && f.offset + |f.chunk| <= f.total
    && f.chunk == msgs[f.id][f.offset..f.offset + |f.chunk|]
  }

  /** What has been collected is a prefix of the message with the current ID. */
  predicate Faithful(msgs: seq<Buffer>, rs: ReceiveState) {
    rs.messageID < |msgs| && rs.got <= msgs[rs.messageID]
    && (rs.size == |msgs[rs.messageID]| || (rs.size == 0 && rs.got == []))
  }

  predicate FaithfulTo(msgs: seq<Buffer>, o: Option<ReceiveState>) {
    o.Some? ==> Faithful(msgs, o.value)
  }

  lemma AcceptIsFaithful(msgs: seq<Buffer>, o: Option<ReceiveState>, f: Fragment)
    requires FaithfulTo(msgs, o) && Genuine(msgs, f)
    ensures FaithfulTo(msgs, AcceptFrom(o, f).state)
    ensures forall b <- AcceptFrom(o, f).out :: b in msgs
  {
    hide Accept, Faithful;
    if o.Some? {
      AcceptKnown(msgs, o.value, f);
    } else if f.offset == 0 {
      NewStateIsFaithful(msgs, f);
      AcceptKnown(msgs, ReceiveState(f.id, f.total, []), f);
    }
  }

  lemma NewStateIsFaithful(msgs: seq<Buffer>, f: Fragment)
    requires Genuine(msgs, f)
    ensures Faithful(msgs, ReceiveState(f.id, f.total, []))
  {
  }

  lemma AcceptKnown(msgs: seq<Buffer>, rs: ReceiveState, f: Fragment)
    requires Faithful(msgs, rs) && Genuine(msgs, f)
    ensures FaithfulTo(msgs, Accept(rs, f).state)
    ensures forall b <- Accept(rs, f).out :: b in msgs
  {
    var m, end := msgs[f.id], f.offset + |f.chunk|;
    if f.offset == 0 && f.id != rs.messageID {
      assert [] + f.chunk == m[..end];
    } else if f.id == rs.messageID && f.offset == |rs.got| {
      assert rs.got + f.chunk == m[..end];
    }
    assert m[..|m|] == m;
  }

  ghost predicate TableFaithful(sent: map<Source, seq<Buffer>>, table: seq<Row>) {
    forall r <- table :: r.source in sent && Faithful(sent[r.source], r.state)
  }

  lemma {:induction false} FindIsRow(table: seq<Row>, src: Source)
    ensures Find(table, src).Some? ==> Row(src, Find(table, src).value) in table
  {
    if |table| > 0 { FindIsRow(table[1..], src); }
  }

  lemma {:induction false} WithoutIsSubset(table: seq<Row>, src: Source)
    ensures forall r <- Without(table, src) :: r in table
  {
    if |table| > 0 { WithoutIsSubset(table[1..], src); }
  }

  lemma {:induction false} UpdateAllIsFaithful(sent: map<Source, seq<Buffer>>, table: seq<Row>, src: Source,
                                               fs: seq<Fragment>)
    requires src in sent && TableFaithful(sent, table) && forall f <- fs :: Genuine(sent[src], f)
    ensures TableFaithful(sent, UpdateAll(table, src, fs).table)
    ensures forall b <- UpdateAll(table, src, fs).out :: b in sent[src]
    decreases |fs|
  {
    hide AcceptFrom, Find, Without, Genuine, Faithful;
    if |fs| > 0 {
      FindIsRow(table, src);
      WithoutIsSubset(table, src);
      AcceptIsFaithful(sent[src], Find(table, src), fs[0]);
      assert TableFaithful(sent, Update(table, src, fs[0]));
      UpdateAllIsFaithful(sent, Update(table, src, fs[0]), src, fs[1..]);
    }
  }

  // ---- parsing what a sender wrote ----

  lemma ReadFragment(c: Config, f: Fragment, rest: Buffer)
    requires Proper(c) && Encodable(f)
    ensures var d := FragmentBytes(c, f, rest);
      |d| == FRAGMENT_HEADER_SIZE + |f.chunk| + |rest|
      && ReadHeader(d) == Header(c.magic, c.sexID, f.id, f.offset, |f.chunk|, f.total)
      && AfterHeader(d) == f.chunk + rest
  {
    hide W32, R32;
    var b6 := f.chunk + rest;
    var b5 := W32(f.total) + b6;
    var b4 := W32(|f.chunk|) + b5;
    var b3 := W32(f.offset) + b4;
    var b2 := W32(f.id) + b3;
    var b1 := W32(c.sexID) + b2;
    R32W32(c.magic, b1);
    R32W32(c.sexID, b2);
    R32W32(f.id, b3);
    R32W32(f.offset, b4);
    R32W32(|f.chunk|, b5);
    R32W32(f.total, b6);
  }

  lemma {:induction false} PacketFillsSize(c: Config, fs: seq<Fragment>)
    ensures |PacketBytes(c, fs)| == PacketSize(fs)
  {
    hide W32;
    if |fs| > 0 { PacketFillsSize(c, fs[1..]); }
  }

  /** The receiver's settings let every one of the sender's fragments pass. */
  predicate Compatible(tx: Config, rx: Config, fs: seq<Fragment>) {
    tx.magic == rx.magic && (rx.sexID == 0 || rx.sexID != tx.sexID)
    && forall f <- fs :: f.total <= rx.maxIncomingMessageSize
  }

  /** A whole packet parses back to the fragments in it. */
  lemma {:induction false} ParseWhole(tx: Config, rx: Config, fs: seq<Fragment>)
    requires Proper(tx) && (forall f <- fs :: Encodable(f)) && Compatible(tx, rx, fs)
    ensures Parse(rx, PacketBytes(tx, fs)) == fs
    decreases |fs|
  {
    hide FragmentBytes, ReadHeader, AfterHeader, Encodable;
    if |fs| > 0 {
      ReadFragment(tx, fs[0], PacketBytes(tx, fs[1..]));
      ParseWhole(tx, rx, fs[1..]);
      SplitAt(fs[0].chunk, PacketBytes(tx, fs[1..]));
      assert fs == [fs[0]] + fs[1..];
    }
  }

  lemma ClippedWord(d: Buffer, k: nat)
    requires 4 <= k <= |d|
    ensures R32(d[..k]) == R32(d) && d[..k][4..] == d[4..][..k - 4]
  {
    assert d[..k][..4] == d[..4];
  }

  /** Clipping commutes with reading the header. */
  lemma ClippedHeader(d: Buffer, k: nat)
    requires FRAGMENT_HEADER_SIZE <= k <= |d|
    ensures ReadHeader(d[..k]) == ReadHeader(d)
    ensures AfterHeader(d[..k]) == AfterHeader(d)[..k - FRAGMENT_HEADER_SIZE]
  {
    hide R32;
    var d1 := d[4..]; var d2 := d1[4..]; var d3 := d2[4..]; var d4 := d3[4..]; var d5 := d4[4..];
    ClippedWord(d, k);
    ClippedWord(d1, k - 4);
    ClippedWord(d2, k - 8);
    ClippedWord(d3, k - 12);
    ClippedWord(d4, k - 16);
    ClippedWord(d5, k - 20);
  }

  /** However a packet is cut off, and whatever the receiver's settings, only a prefix of its fragments is taken. */
  lemma {:induction false} ParsePrefix(tx: Config, rx: Config, fs: seq<Fragment>, k: nat)
    requires Proper(tx) && (forall f <- fs :: Encodable(f)) && k <= |PacketBytes(tx, fs)|
    ensures Parse(rx, PacketBytes(tx, fs)[..k]) <= fs
    decreases |fs|
  {
    hide FragmentBytes, ReadHeader, AfterHeader, Encodable;
    if |fs| > 0 && k >= FRAGMENT_HEADER_SIZE {
      var d, rest := PacketBytes(tx, fs), PacketBytes(tx, fs[1..]);
      var f := fs[0];
      ReadFragment(tx, f, rest);
      ClippedHeader(d, k);
      var body := AfterHeader(d[..k]);
      if |f.chunk| <= |body| {
        var j := |body| - |f.chunk|;
        assert body == f.chunk + rest[..j];
        SplitAt(f.chunk, rest[..j]);
        ParsePrefix(tx, rx, fs[1..], j);
        assert fs == [f] + fs[1..];
      }
    }
  }

  // ---- what the receiver refuses ----

  /** The receiver's settings exclude the sender: another magic number, or its own non-zero exclusion ID. */
  predicate Excluded(tx: Config, rx: Config) {
    tx.magic != rx.magic || (tx.sexID == rx.sexID && rx.sexID != 0)
  }

  /** The fragments before the first one of a message that is too large for the receiver. */
  function Moderate(rx: Config, fs: seq<Fragment>): seq<Fragment> {
    if |fs| == 0 || fs[0].total > rx.maxIncomingMessageSize then [] else [fs[0]] + Moderate(rx, fs[1..])
  }

  /** The fragments that lie wholly within the first k bytes of a packet. */
  function Within(fs: seq<Fragment>, k: nat): seq<Fragment> {
    if |fs| == 0 || FRAGMENT_HEADER_SIZE + |fs[0].chunk| > k then []
    else [fs[0]] + Within(fs[1..], k - FRAGMENT_HEADER_SIZE - |fs[0].chunk|)
  }

  /** Exactly which fragments of a packet are taken, wherever it is cut off and whatever the settings of both ends. */
  lemma {:induction false} ParseExactly(tx: Config, rx: Config, fs: seq<Fragment>, k: nat)
    requires Proper(tx) && (forall f <- fs :: Encodable(f)) && k <= |PacketBytes(tx, fs)|
    ensures Parse(rx, PacketBytes(tx, fs)[..k]) == if Excluded(tx, rx) then [] else Moderate(rx, Within(fs, k))
    decreases |fs|
  {
    hide FragmentBytes, ReadHeader, AfterHeader, Encodable;
    if |fs| > 0 && k >= FRAGMENT_HEADER_SIZE {
      var d, rest := PacketBytes(tx, fs), PacketBytes(tx, fs[1..]);
      var f := fs[0];
      ReadFragment(tx, f, rest);
      ClippedHeader(d, k);
      var body := AfterHeader(d[..k]);
      if |f.chunk| <= |body| {
        var j := |body| - |f.chunk|;
        assert body == f.chunk + rest[..j];
        SplitAt(f.chunk, rest[..j]);
        ParseExactly(tx, rx, fs[1..], j);
        assert ([f] + Within(fs[1..], j))[1..] == Within(fs[1..], j);
      }
    }
  }

  /** Whatever part of it arrives, a packet of an excluded sender leaves the table alone; it is handed on only as
      miscellaneous data, by a receiver that accepts such data and cannot tell it from some. */
  lemma ExcludedPacket(tx: Config, rx: Config, table: seq<Row>, src: Source, fs: seq<Fragment>, bytes: Buffer)
    requires Proper(tx) && |fs| > 0 && Encodable(fs[0]) && bytes <= PacketBytes(tx, fs) && Excluded(tx, rx)
    ensures var d := if |bytes| <= rx.maxTransferUnit then bytes else bytes[..rx.maxTransferUnit];
      ReceivePacket(rx, table, src, bytes) ==
        Received(table, if rx.allowMiscData && (|d| < 24 || tx.magic != rx.magic) then [d] else [])
  {
    hide FragmentBytes, Encodable, R32;
    ReadFragment(tx, fs[0], PacketBytes(tx, fs[1..]));
    var d := Clip(rx, bytes);
    assert d == PacketBytes(tx, fs)[..|d|];
    if |d| >= FRAGMENT_HEADER_SIZE { ClippedHeader(PacketBytes(tx, fs), |d|); }
    assert Parse(rx, d) == [];
  }

  /** A packet that some sender with these settings made from genuine fragments of msgs. */
  ghost predicate GenuinePacket(tx: Config, msgs: seq<Buffer>, bytes: Buffer) {
    exists fs: seq<Fragment> :: |fs| > 0 && bytes == PacketBytes(tx, fs)
      && forall f <- fs :: Genuine(msgs, f) && Encodable(f)
  }

  /** What may reach the receiver of such a packet: the packet or a part cut off anywhere, but not so short that a
      receiver of miscellaneous data would take it for some. */
  ghost predicate GenuineArrival(tx: Config, rx: Config, msgs: seq<Buffer>, bytes: Buffer) {
    (!rx.allowMiscData || |bytes| >= FRAGMENT_HEADER_SIZE)
    && exists packet :: GenuinePacket(tx, msgs, packet) && bytes <= packet
  }

  lemma PacketIsNotMisc(tx: Config, rx: Config, fs: seq<Fragment>)
    requires Proper(tx) && Proper(rx) && |fs| > 0 && Encodable(fs[0]) && tx.magic == rx.magic
    ensures !IsMisc(rx, Clip(rx, PacketBytes(tx, fs)))
  {
    hide FragmentBytes, Encodable, R32, IsMisc;
    ReadFragment(tx, fs[0], PacketBytes(tx, fs[1..]));
    var d := PacketBytes(tx, fs);
    var k := |Clip(rx, d)|;
    assert Clip(rx, d) == d[..k];
    CutIsNotMisc(tx, rx, fs, k);
  }

  /** Reassembly safety: under loss, duplication, reordering, truncation on the way or in the receiver's own buffer,
      eviction and any mixture of sources, everything delivered from a source is byte for byte a message that this
      source sent. */
  lemma {:induction false} OnlySentMessagesAreDelivered(tx: map<Source, Config>, rx: Config,
                                                        sent: map<Source, seq<Buffer>>, arrivals: seq<Arrival>)
    requires Proper(rx) && tx.Keys == sent.Keys
    requires forall s <- tx :: Proper(tx[s]) && tx[s].magic == rx.magic
    requires forall a <- arrivals :: a.source in sent && GenuineArrival(tx[a.source], rx, sent[a.source], a.bytes)
    ensures TableFaithful(sent, TableAfter(rx, [], arrivals))
    ensures forall s, b :: s in sent && b in DeliveredFrom(rx, [], arrivals, s) ==> b in sent[s]
    decreases |arrivals|
  {
    hide ReceivePacket, Faithful, GenuineArrival;
    if |arrivals| > 0 {
      var n := |arrivals| - 1;
      OnlySentMessagesAreDelivered(tx, rx, sent, arrivals[..n]);
      var last := arrivals[n];
      ReceiveGenuine(tx, rx, sent, TableAfter(rx, [], arrivals[..n]), last);
      forall s, b | s in sent && b in DeliveredFrom(rx, [], arrivals, s) ensures b in sent[s] {
      }
    }
  }

  lemma ReceiveGenuine(tx: map<Source, Config>, rx: Config, sent: map<Source, seq<Buffer>>, table: seq<Row>, a: Arrival)
    requires Proper(rx) && tx.Keys == sent.Keys && a.source in sent
    requires Proper(tx[a.source]) && tx[a.source].magic == rx.magic
    requires TableFaithful(sent, table) && GenuineArrival(tx[a.source], rx, sent[a.source], a.bytes)
    ensures TableFaithful(sent, ReceivePacket(rx, table, a.source, a.bytes).table)
    ensures forall b <- ReceivePacket(rx, table, a.source, a.bytes).out :: b in sent[a.source]
  {
    hide PacketBytes, Parse, UpdateAll, Genuine, Encodable, Faithful, IsMisc;
    var packet :| GenuinePacket(tx[a.source], sent[a.source], packet) && a.bytes <= packet;
    var fs :| |fs| > 0 && packet == PacketBytes(tx[a.source], fs)
      && forall f <- fs :: Genuine(sent[a.source], f) && Encodable(f);
    var d := Clip(rx, a.bytes);
    assert d == packet[..|d|];
    CutIsNotMisc(tx[a.source], rx, fs, |d|);
    ParsePrefix(tx[a.source], rx, fs, |d|);
    assert forall f <- Parse(rx, d) :: f in fs;
    UpdateAllIsFaithful(sent, table, a.source, Parse(rx, d));
  }

  lemma CutIsNotMisc(tx: Config, rx: Config, fs: seq<Fragment>, k: nat)
    requires Proper(tx) && |fs| > 0 && Encodable(fs[0]) && tx.magic == rx.magic && k <= |PacketBytes(tx, fs)|
    requires !rx.allowMiscData || k >= FRAGMENT_HEADER_SIZE
    ensures !IsMisc(rx, PacketBytes(tx, fs)[..k])
  {
    hide FragmentBytes, Encodable, R32;
    ReadFragment(tx, fs[0], PacketBytes(tx, fs[1..]));
    if k >= FRAGMENT_HEADER_SIZE { ClippedHeader(PacketBytes(tx, fs), k); }
  }

  // ---- the fragmenter ----

  /** How far the fragmenter has come: message i, byte off. */
  datatype Position = Position(i: nat, off: nat)

  /** f continues msgs exactly at pos. */
  predicate IsPiece(msgs: seq<Buffer>, pos: Position, f: Fragment) {
    pos.i < |msgs| && f.id == pos.i % TWO32 && f.offset == pos.off && f.total == |msgs[pos.i]|
    && pos.off + |f.chunk| <= f.total && f.chunk == msgs[pos.i][pos.off..pos.off + |f.chunk|]
    && (f.chunk == [] ==> f.total == 0)
  }

  function Advance(msgs: seq<Buffer>, pos: Position, f: Fragment): Position
    requires IsPiece(msgs, pos, f)
  {
    if pos.off + |f.chunk| == f.total then Position(pos.i + 1, 0) else Position(pos.i, pos.off + |f.chunk|)
  }

  /** Where fs ends, if fs cuts up msgs from the start without a gap, an overlap or an empty piece. */
  function Walk(msgs: seq<Buffer>, fs: seq<Fragment>): Option<Position>
    decreases |fs|
  {
    if |fs| == 0 then Some(Position(0, 0))
    else
      var n := |fs| - 1;
      match Walk(msgs, fs[..n])
      case None => None
      case Some(pos) => if IsPiece(msgs, pos, fs[n]) then Some(Advance(msgs, pos, fs[n])) else None
  }

  /** Everything the gateway was given to send, how far it has come, the packet being filled and the packets sent. */
  datatype Sender = Sender(msgs: seq<Buffer>, pos: Position, packet: seq<Fragment>, sent: seq<seq<Fragment>>)

  predicate HasRoom(c: Config, s: Sender) {
    PacketSize(s.packet) + FRAGMENT_HEADER_SIZE < c.maxTransferUnit
  }

  predicate HasBytesToOutput(s: Sender) {
    s.pos.i < |s.msgs|
  }

  predicate InRange(s: Sender) {
    if s.pos.i < |s.msgs| then s.pos.off < |s.msgs[s.pos.i]| || s.pos.off == 0 else s.pos == Position(|s.msgs|, 0)
  }

  function NextFragment(c: Config, s: Sender): Fragment
    requires HasRoom(c, s) && HasBytesToOutput(s) && InRange(s)
  {
    var m := s.msgs[s.pos.i];
    var room := c.maxTransferUnit - (PacketSize(s.packet) + FRAGMENT_HEADER_SIZE);
    var n := if room < |m| - s.pos.off then room else |m| - s.pos.off;
    Fragment(s.pos.i % TWO32, s.pos.off, |m|, m[s.pos.off..s.pos.off + n])
  }

  function AddFragment(c: Config, s: Sender): Sender
    requires HasRoom(c, s) && HasBytesToOutput(s) && InRange(s)
  {
    var f := NextFragment(c, s);
    s.(packet := s.packet + [f], pos := Advance(s.msgs, s.pos, f))
  }

  /** Filling a packet: each turn of the loop makes the packet longer, so the loop ends. */
  function Fill(c: Config, s: Sender): (r: Sender)
    requires InRange(s)
    decreases c.maxTransferUnit - PacketSize(s.packet)
  {
    if HasRoom(c, s) && HasBytesToOutput(s) then
      AddFragmentGrows(c, s);
      Fill(c, AddFragment(c, s))
    else s
  }

  function SendPacket(s: Sender): Sender {
    s.(packet := [], sent := s.sent + [s.packet])
  }

  function Flat(packets: seq<seq<Fragment>>): seq<Fragment> {
    if |packets| == 0 then [] else Flat(packets[..|packets| - 1]) + packets[|packets| - 1]
  }

  lemma {:induction false} PacketSizeAppend(fs: seq<Fragment>, f: Fragment)
    ensures PacketSize(fs + [f]) == PacketSize(fs) + FRAGMENT_HEADER_SIZE + |f.chunk|
  {
    if |fs| == 0 {
      assert fs + [f] == [f];
    } else {
      PacketSizeAppend(fs[1..], f);
      assert (fs + [f])[1..] == fs[1..] + [f];
    }
  }

  lemma AddFragmentGrows(c: Config, s: Sender)
    requires HasRoom(c, s) && HasBytesToOutput(s) && InRange(s)
    ensures PacketSize(s.packet) < PacketSize(AddFragment(c, s).packet) <= c.maxTransferUnit
    ensures InRange(AddFragment(c, s))
  {
    PacketSizeAppend(s.packet, NextFragment(c, s));
  }

  /** Each fragment in a packet ends its message, but for the last one of a packet that is as large as it may be. */
  predicate CutByTheMTU(c: Config, p: seq<Fragment>) {
    forall k :: 0 <= k < |p| ==>
      p[k].offset + |p[k].chunk| == p[k].total || (k == |p| - 1 && PacketSize(p) == c.maxTransferUnit)
  }

  ghost predicate SenderInv(c: Config, s: Sender) {
    && InRange(s)
    && Walk(s.msgs, Flat(s.sent) + s.packet) == Some(s.pos)
    && PacketSize(s.packet) <= c.maxTransferUnit && CutByTheMTU(c, s.packet)
    && forall p <- s.sent :: 0 < |p| && PacketSize(p) <= c.maxTransferUnit && CutByTheMTU(c, p)
  }

  lemma WalkStep(msgs: seq<Buffer>, fs: seq<Fragment>, f: Fragment, pos: Position)
    requires Walk(msgs, fs) == Some(pos) && IsPiece(msgs, pos, f)
    ensures Walk(msgs, fs + [f]) == Some(Advance(msgs, pos, f))
  {
    assert (fs + [f])[..|fs|] == fs;
  }

  lemma {:induction false} WalkGrows(msgs: seq<Buffer>, more: seq<Buffer>, fs: seq<Fragment>)
    requires Walk(msgs, fs).Some?
    ensures Walk(msgs + more, fs) == Walk(msgs, fs)
    decreases |fs|
  {
    if |fs| > 0 { WalkGrows(msgs, more, fs[..|fs| - 1]); }
  }

  /** A message is cut only where the packet is full. */
  lemma AddFragmentCutsByTheMTU(c: Config, s: Sender)
    requires HasRoom(c, s) && HasBytesToOutput(s) && InRange(s) && CutByTheMTU(c, s.packet)
    ensures CutByTheMTU(c, AddFragment(c, s).packet)
  {
    hide PacketSize;
    var f := NextFragment(c, s);
    PacketSizeAppend(s.packet, f);
  }

  lemma AddFragmentKeepsInv(c: Config, s: Sender)
    requires SenderInv(c, s) && HasRoom(c, s) && HasBytesToOutput(s)
    ensures SenderInv(c, AddFragment(c, s))
  {
    hide Walk, PacketSize, Flat, CutByTheMTU;
    AddFragmentGrows(c, s);
    AddFragmentCutsByTheMTU(c, s);
    var f := NextFragment(c, s);
    WalkStep(s.msgs, Flat(s.sent) + s.packet, f, s.pos);
    assert Flat(s.sent) + s.packet + [f] == Flat(s.sent) + (s.packet + [f]);
  }

  /** A filled packet fits the MTU, and it is empty only if there is nothing to send. */
  lemma {:induction false} FillKeepsInv(c: Config, s: Sender)
    requires SenderInv(c, s) && Proper(c)
    ensures SenderInv(c, Fill(c, s))
    ensures var t := Fill(c, s); t.msgs == s.msgs && t.sent == s.sent && (HasRoom(c, t) ==> !HasBytesToOutput(t))
    ensures Fill(c, s).packet == [] ==> !HasBytesToOutput(s)
    ensures Fill(c, s) == s || |Fill(c, s).packet| > |s.packet|
    decreases c.maxTransferUnit - PacketSize(s.packet)
  {
    if HasRoom(c, s) && HasBytesToOutput(s) {
      AddFragmentGrows(c, s);
      AddFragmentKeepsInv(c, s);
      FillKeepsInv(c, AddFragment(c, s));
    } else {
      assert s.packet == [] ==> HasRoom(c, s);
    }
  }

  lemma SendKeepsInv(c: Config, s: Sender)
    requires SenderInv(c, s) && s.packet != []
    ensures SenderInv(c, SendPacket(s))
  {
    hide Walk;
    var t := SendPacket(s);
    assert t.sent[..|s.sent|] == s.sent;
    assert Flat(t.sent) + t.packet == Flat(s.sent) + s.packet;
  }

  lemma EnqueueKeepsInv(c: Config, s: Sender, m: Buffer)
    requires SenderInv(c, s)
    ensures SenderInv(c, s.(msgs := s.msgs + [m]))
  {
    WalkGrows(s.msgs, [m], Flat(s.sent) + s.packet);
  }

  // ---- what the receiver makes of a lossy channel ----

  /** A packet and whether it gets through. */
  datatype Shipment = Shipment(packet: seq<Fragment>, arrives: bool)

  /** A fragment and whether it gets through. */
  datatype Piece = Piece(f: Fragment, arrives: bool)

  function Fragments(ps: seq<Piece>): seq<Fragment> {
    seq(|ps|, i requires 0 <= i < |ps| => ps[i].f)
  }

  function Arriving(ps: seq<Piece>): seq<Fragment>
    decreases |ps|
  {
    if |ps| == 0 then []
    else
      var n := |ps| - 1;
      Arriving(ps[..n]) + (if ps[n].arrives then [ps[n].f] else [])
  }

  /** No fragment of message i was lost. */
  predicate Intact(ps: seq<Piece>, i: nat) {
    forall p <- ps :: p.f.id == i ==> p.arrives
  }

  /** The first k messages without those that lost a fragment. */
  function Survivors(msgs: seq<Buffer>, ps: seq<Piece>, k: nat): seq<Buffer>
    requires k <= |msgs|
  {
    if k == 0 then []
    else Survivors(msgs, ps, k - 1) + (if Intact(ps, k - 1) then [msgs[k - 1]] else [])
  }

  /** The receiver is not in a position to go on at pos. */
  predicate Behind(o: Option<ReceiveState>, pos: Position) {
    o.Some? ==> o.value.messageID < pos.i || (o.value.messageID == pos.i && |o.value.got| < pos.off)
  }

  predicate Tracks(msgs: seq<Buffer>, pos: Position, o: Option<ReceiveState>, clean: bool) {
    if clean && pos.off > 0 then
      pos.i < |msgs| && pos.off < |msgs[pos.i]|
      && o == Some(ReceiveState(pos.i, |msgs[pos.i]|, msgs[pos.i][..pos.off]))
    else Behind(o, pos)
  }

  lemma StepArrives(msgs: seq<Buffer>, pos: Position, o: Option<ReceiveState>, clean: bool, f: Fragment)
    requires IsPiece(msgs, pos, f) && pos.i < TWO32 && |msgs[pos.i]| < TWO32
    requires Tracks(msgs, pos, o, clean) && (pos.off == 0 ==> clean)
    ensures var a, next := AcceptFrom(o, f), Advance(msgs, pos, f);
      Tracks(msgs, next, a.state, clean) && a.out == if next.i > pos.i && clean then [msgs[pos.i]] else []
  {
    var m := msgs[pos.i];
    assert m[..pos.off] + f.chunk == m[..pos.off + |f.chunk|];
    assert [] + f.chunk == f.chunk;
    assert m[0..|m|] == m[..|m|] == m;
  }

  lemma StepLost(msgs: seq<Buffer>, pos: Position, o: Option<ReceiveState>, clean: bool, f: Fragment)
    requires IsPiece(msgs, pos, f) && Tracks(msgs, pos, o, clean)
    ensures Tracks(msgs, Advance(msgs, pos, f), o, false)
  {
  }

  /** Fragments carry the IDs of the messages up to the current position, and none of a message not yet begun. */
  lemma {:induction false} WalkIds(msgs: seq<Buffer>, ps: seq<Piece>)
    requires Walk(msgs, Fragments(ps)).Some? && |msgs| <= TWO32
    ensures var pos := Walk(msgs, Fragments(ps)).value;
      pos.i <= |msgs| && (forall p <- ps :: p.f.id <= pos.i) && (pos.off == 0 ==> forall p <- ps :: p.f.id < pos.i)
    decreases |ps|
  {
    if |ps| > 0 {
      var n := |ps| - 1;
      assert Fragments(ps)[..n] == Fragments(ps[..n]);
      WalkIds(msgs, ps[..n]);
      assert ps == ps[..n] + [ps[n]];
    }
  }

  lemma {:induction false} AcceptAllAppend(o: Option<ReceiveState>, a: seq<Fragment>, b: seq<Fragment>)
    ensures AcceptAll(o, a + b) ==
      (var x := AcceptAll(o, a); var y := AcceptAll(x.state, b); Accepted(y.state, x.out + y.out))
    decreases |a|
  {
    hide AcceptFrom;
    if |a| == 0 {
      assert a + b == b;
    } else {
      AcceptAllAppend(AcceptFrom(o, a[0]).state, a[1..], b);
      assert (a + b)[1..] == a[1..] + b;
    }
  }

  lemma {:induction false} SurvivorsSnoc(msgs: seq<Buffer>, ps: seq<Piece>, p: Piece, k: nat)
    requires k <= |msgs| && p.f.id >= k
    ensures Survivors(msgs, ps + [p], k) == Survivors(msgs, ps, k)
  {
    if k > 0 {
      SurvivorsSnoc(msgs, ps, p, k - 1);
    }
  }

  /** The receiver's state and everything it has delivered, after any losses. */
  lemma {:induction false} TracksLossyStream(msgs: seq<Buffer>, ps: seq<Piece>)
    requires Walk(msgs, Fragments(ps)).Some? && |msgs| <= TWO32 && forall m <- msgs :: |m| < TWO32
    ensures var pos, a := Walk(msgs, Fragments(ps)).value, AcceptAll(None, Arriving(ps));
      pos.i <= |msgs| && Tracks(msgs, pos, a.state, Intact(ps, pos.i)) && a.out == Survivors(msgs, ps, pos.i)
    decreases |ps|
  {
    hide AcceptFrom, Tracks, IsPiece, Advance;
    if |ps| == 0 {
      TracksNothing(msgs);
    } else {
      var n := |ps| - 1;
      var init, last := ps[..n], ps[n];
      assert ps == init + [last];
      assert Fragments(ps)[..n] == Fragments(init);
      TracksLossyStream(msgs, init);
      WalkIds(msgs, init);
      TracksOneMore(msgs, init, last);
    }
  }

  lemma TracksNothing(msgs: seq<Buffer>)
    ensures Tracks(msgs, Position(0, 0), None, true)
  {
  }

  lemma IntactSnoc(ps: seq<Piece>, p: Piece, i: nat)
    ensures Intact(ps + [p], i) == (Intact(ps, i) && (p.f.id == i ==> p.arrives))
  {
    assert p in ps + [p];
    assert forall q :: q in ps ==> q in ps + [p];
  }

  lemma IntactIfNotBegun(ps: seq<Piece>, i: nat)
    requires forall q <- ps :: q.f.id < i
    ensures Intact(ps, i)
  {
  }

  lemma AdvanceCases(msgs: seq<Buffer>, pos: Position, f: Fragment)
    requires IsPiece(msgs, pos, f)
    ensures pos.i < |msgs| && f.id == pos.i % TWO32
    ensures Advance(msgs, pos, f).i == pos.i || Advance(msgs, pos, f) == Position(pos.i + 1, 0)
  {
  }

  lemma TracksOneMore(msgs: seq<Buffer>, ps: seq<Piece>, p: Piece)
    requires Walk(msgs, Fragments(ps)).Some? && |msgs| <= TWO32 && (forall m <- msgs :: |m| < TWO32)
    requires var pos, a := Walk(msgs, Fragments(ps)).value, AcceptAll(None, Arriving(ps));
      && IsPiece(msgs, pos, p.f) && pos.i <= |msgs|
      && Tracks(msgs, pos, a.state, Intact(ps, pos.i)) && a.out == Survivors(msgs, ps, pos.i)
      && (pos.off == 0 ==> forall q <- ps :: q.f.id < pos.i) && (forall q <- ps :: q.f.id <= pos.i)
    ensures var pos := Walk(msgs, Fragments(ps)).value;
      var next, a := Advance(msgs, pos, p.f), AcceptAll(None, Arriving(ps + [p]));
      && next.i <= |msgs| && Tracks(msgs, next, a.state, Intact(ps + [p], next.i))
      && a.out == Survivors(msgs, ps + [p], next.i)
  {
    hide AcceptFrom, AcceptAll, Arriving, Survivors, IsPiece, Advance, Walk, Tracks, Intact;
    var pos, a := Walk(msgs, Fragments(ps)).value, AcceptAll(None, Arriving(ps));
    var clean := Intact(ps, pos.i);
    AdvanceCases(msgs, pos, p.f);
    if pos.off == 0 { IntactIfNotBegun(ps, pos.i); }
    IntactSnoc(ps, p, pos.i);
    SurvivorsNext(msgs, ps, p, pos.i);
    AcceptSnoc(ps, p);
    if p.arrives {
      StepArrives(msgs, pos, a.state, clean, p.f);
    } else {
      StepLost(msgs, pos, a.state, clean, p.f);
    }
    var next, a' := Advance(msgs, pos, p.f), AcceptAll(None, Arriving(ps + [p]));
    if next.i > pos.i { TracksBegin(msgs, next, a'.state, p.arrives && clean, Intact(ps + [p], next.i)); }
  }

  lemma SurvivorsNext(msgs: seq<Buffer>, ps: seq<Piece>, p: Piece, i: nat)
    requires i < |msgs| && p.f.id >= i
    ensures Survivors(msgs, ps + [p], i) == Survivors(msgs, ps, i)
    ensures Survivors(msgs, ps + [p], i + 1) == Survivors(msgs, ps, i) + (if Intact(ps + [p], i) then [msgs[i]] else [])
  {
    SurvivorsSnoc(msgs, ps, p, i);
  }

  lemma AcceptSnoc(ps: seq<Piece>, p: Piece)
    ensures var a, b := AcceptAll(None, Arriving(ps)), AcceptAll(None, Arriving(ps + [p]));
      if p.arrives then
        b == (var c := AcceptFrom(a.state, p.f); Accepted(c.state, a.out + c.out))
      else b == a
  {
    hide AcceptFrom;
    assert (ps + [p])[..|ps|] == ps;
    if p.arrives {
      var a := AcceptAll(None, Arriving(ps));
      AcceptAllAppend(None, Arriving(ps), [p.f]);
      AcceptOne(a.state, p.f);
    } else {
      assert Arriving(ps) + [] == Arriving(ps);
    }
  }

  lemma AcceptOne(o: Option<ReceiveState>, f: Fragment)
    ensures AcceptAll(o, [f]) == AcceptFrom(o, f)
  {
    hide AcceptFrom;
    var a := AcceptFrom(o, f);
    assert [f][1..] == [];
    assert AcceptAll(a.state, []) == Accepted(a.state, []);
    assert a.out + [] == a.out;
  }

  lemma TracksBegin(msgs: seq<Buffer>, pos: Position, o: Option<ReceiveState>, b: bool, b': bool)
    requires pos.off == 0 && Tracks(msgs, pos, o, b)
    ensures Tracks(msgs, pos, o, b')
  {
  }

  // ---- from fragments to packets ----

  function Pieces(ships: seq<Shipment>): seq<Piece>
    decreases |ships|
  {
    if |ships| == 0 then []
    else
      var n := |ships| - 1;
      Pieces(ships[..n]) + Mark(ships[n].packet, ships[n].arrives)
  }

  function Mark(fs: seq<Fragment>, arrives: bool): seq<Piece> {
    seq(|fs|, i requires 0 <= i < |fs| => Piece(fs[i], arrives))
  }

  function Packets(ships: seq<Shipment>): seq<seq<Fragment>> {
    seq(|ships|, i requires 0 <= i < |ships| => ships[i].packet)
  }

  predicate Carries(packet: seq<Fragment>, i: nat) {
    exists f <- packet :: f.id == i
  }

  /** Every packet that carries a fragment of message i arrived. */
  predicate AllPacketsArrive(ships: seq<Shipment>, i: nat) {
    forall s <- ships :: Carries(s.packet, i) ==> s.arrives
  }

  /** The first k messages without those with a fragment in a lost packet. */
  function Deliverable(msgs: seq<Buffer>, ships: seq<Shipment>, k: nat): seq<Buffer>
    requires k <= |msgs|
  {
    if k == 0 then []
    else Deliverable(msgs, ships, k - 1) + (if AllPacketsArrive(ships, k - 1) then [msgs[k - 1]] else [])
  }

  function ArrivingBytes(c: Config, ships: seq<Shipment>): seq<Buffer>
    decreases |ships|
  {
    if |ships| == 0 then []
    else
      var n := |ships| - 1;
      ArrivingBytes(c, ships[..n]) + (if ships[n].arrives then [PacketBytes(c, ships[n].packet)] else [])
  }

  lemma {:induction false} FragmentsOfPieces(ships: seq<Shipment>)
    ensures Fragments(Pieces(ships)) == Flat(Packets(ships))
    decreases |ships|
  {
    if |ships| > 0 {
      var n := |ships| - 1;
      FragmentsOfPieces(ships[..n]);
      assert Packets(ships)[..n] == Packets(ships[..n]);
    }
  }

  lemma {:induction false} IntactMeansAllPackets(ships: seq<Shipment>, i: nat)
    ensures Intact(Pieces(ships), i) <==> AllPacketsArrive(ships, i)
    decreases |ships|
  {
    if |ships| > 0 {
      var n := |ships| - 1;
      IntactMeansAllPackets(ships[..n], i);
      assert ships == ships[..n] + [ships[n]];
      IntactConcat(Pieces(ships[..n]), Mark(ships[n].packet, ships[n].arrives), i);
      IntactMark(ships[n], i);
    }
  }

  lemma IntactConcat(a: seq<Piece>, b: seq<Piece>, i: nat)
    ensures Intact(a + b, i) <==> Intact(a, i) && Intact(b, i)
  {
    assert forall p :: p in a + b <==> p in a || p in b;
  }

  lemma IntactMark(s: Shipment, i: nat)
    ensures Intact(Mark(s.packet, s.arrives), i) <==> (Carries(s.packet, i) ==> s.arrives)
  {
    var ps := Mark(s.packet, s.arrives);
    assert forall k :: 0 <= k < |ps| ==> ps[k].f == s.packet[k] && ps[k].arrives == s.arrives;
    if Carries(s.packet, i) && !s.arrives {
      var k :| 0 <= k < |s.packet| && s.packet[k].id == i;
      assert ps[k] in ps;
    }
  }

  lemma {:induction false} SurvivorsAreDeliverable(msgs: seq<Buffer>, ships: seq<Shipment>, k: nat)
    requires k <= |msgs|
    ensures Survivors(msgs, Pieces(ships), k) == Deliverable(msgs, ships, k)
  {
    hide Intact, AllPacketsArrive, Pieces;
    if k > 0 {
      SurvivorsAreDeliverable(msgs, ships, k - 1);
      IntactMeansAllPackets(ships, k - 1);
    }
  }

  /** With nothing lost, everything is delivered. */
  lemma {:induction false} NothingLost(msgs: seq<Buffer>, ships: seq<Shipment>, k: nat)
    requires k <= |msgs| && forall s <- ships :: s.arrives
    ensures Deliverable(msgs, ships, k) == msgs[..k]
  {
    if k > 0 { NothingLost(msgs, ships, k - 1); }
  }

  // ---- one source among many ----

  predicate Distinct(table: seq<Row>) {
    forall i, j :: 0 <= i < j < |table| ==> table[i].source != table[j].source
  }

  lemma {:induction false} FindIff(table: seq<Row>, src: Source)
    ensures Find(table, src).Some? <==> exists r <- table :: r.source == src
  {
    if |table| > 0 {
      FindIff(table[1..], src);
      assert table == [table[0]] + table[1..];
    }
  }

  lemma {:induction false} FindAppend(a: seq<Row>, b: seq<Row>, src: Source)
    ensures Find(a + b, src) == if Find(a, src).Some? then Find(a, src) else Find(b, src)
  {
    if |a| == 0 {
      assert a + b == b;
    } else {
      FindAppend(a[1..], b, src);
      assert (a + b)[1..] == a[1..] + b;
    }
  }

  lemma FindStored(table: seq<Row>, src: Source, who: Source, o: Option<ReceiveState>)
    ensures Find(Store(table, src, o), who) ==
      if Find(table, who).Some? then Find(table, who) else if src == who then o else None
  {
    if o.Some? {
      FindAppend(table, [Row(src, o.value)], who);
      assert [Row(src, o.value)][1..] == [];
    }
  }

  lemma {:induction false} WithoutFinds(table: seq<Row>, src: Source, who: Source)
    requires Distinct(table)
    ensures Distinct(Without(table, src))
    ensures Find(Without(table, src), who) == if who == src then None else Find(table, who)
  {
    if |table| > 0 {
      WithoutFinds(table[1..], src, who);
      WithoutIsSubset(table[1..], src);
      FindIff(table[1..], src);
      assert forall r <- table[1..] :: r.source != table[0].source;
    }
  }

  lemma EvictFinds(table: seq<Row>, who: Source)
    requires Distinct(table)
    ensures Distinct(Evict(table))
    ensures Find(Evict(table), who) in {None, Find(table, who)}
    ensures |table| <= MAX_NUM_RECEIVE_STATES ==> Evict(table) == table
  {
    if |table| > MAX_NUM_RECEIVE_STATES {
      var k := |table| - MAX_NUM_RECEIVE_STATES;
      assert table == table[..k] + table[k..];
      FindAppend(table[..k], table[k..], who);
      FindIff(table[..k], who);
      FindIff(table[k..], who);
    }
  }

  lemma StoreDistinct(table: seq<Row>, src: Source, o: Option<ReceiveState>)
    requires Distinct(table) && Find(table, src) == None
    ensures Distinct(Store(table, src, o))
  {
    FindIff(table, src);
  }

  /** A fragment moves its own source's state on, and leaves the state of any other source alone or evicts it. */
  lemma UpdateFinds(table: seq<Row>, src: Source, f: Fragment, who: Source)
    requires Distinct(table)
    ensures Distinct(Update(table, src, f))
    ensures who == src ==> Find(Update(table, src, f), who) == AcceptFrom(Find(table, src), f).state
    ensures who != src ==> Find(Update(table, src, f), who) in {None, Find(table, who)}
  {
    hide Find, Without, Evict, AcceptFrom, Distinct, Store;
    var o := AcceptFrom(Find(table, src), f).state;
    var kept := if Find(table, src).Some? then Without(table, src) else Evict(table);
    WithoutFinds(table, src, who);
    WithoutFinds(table, src, src);
    EvictFinds(table, who);
    EvictFinds(table, src);
    FindStored(kept, src, who, o);
    StoreDistinct(kept, src, o);
  }

  lemma {:induction false} UpdateAllFinds(table: seq<Row>, src: Source, fs: seq<Fragment>, who: Source)
    requires Distinct(table)
    ensures Distinct(UpdateAll(table, src, fs).table)
    ensures who == src ==>
      AcceptAll(Find(table, src), fs)
      == Accepted(Find(UpdateAll(table, src, fs).table, who), UpdateAll(table, src, fs).out)
    ensures who != src ==> Find(UpdateAll(table, src, fs).table, who) in {None, Find(table, who)}
    decreases |fs|
  {
    hide Find, Update, AcceptFrom, Distinct;
    if |fs| > 0 {
      UpdateFinds(table, src, fs[0], who);
      UpdateAllFinds(Update(table, src, fs[0]), src, fs[1..], who);
    }
  }

  /** No packet from another source pushes src out of the table. */
  predicate NeverEvicted(c: Config, arrivals: seq<Arrival>, src: Source) {
    forall k :: 0 <= k < |arrivals| && arrivals[k].source != src && Find(TableAfter(c, [], arrivals[..k]), src).Some?
      ==> Find(TableAfter(c, [], arrivals[..k + 1]), src).Some?
  }

  function BytesFrom(arrivals: seq<Arrival>, src: Source): seq<Buffer>
    decreases |arrivals|
  {
    if |arrivals| == 0 then []
    else
      var n := |arrivals| - 1;
      BytesFrom(arrivals[..n], src) + (if arrivals[n].source == src then [arrivals[n].bytes] else [])
  }

  function ParseAll(c: Config, packets: seq<Buffer>): seq<Fragment>
    decreases |packets|
  {
    if |packets| == 0 then []
    else
      var n := |packets| - 1;
      ParseAll(c, packets[..n]) + Parse(c, Clip(c, packets[n]))
  }

  /** A source that is not evicted is served as if it were alone, whatever the other sources send. */
  lemma {:induction false} ServedAsIfAlone(c: Config, arrivals: seq<Arrival>, src: Source)
    requires NeverEvicted(c, arrivals, src)
    requires forall d <- BytesFrom(arrivals, src) :: !IsMisc(c, Clip(c, d))
    ensures Distinct(TableAfter(c, [], arrivals))
    ensures AcceptAll(None, ParseAll(c, BytesFrom(arrivals, src))) ==
      Accepted(Find(TableAfter(c, [], arrivals), src), DeliveredFrom(c, [], arrivals, src))
    decreases |arrivals|
  {
    hide Find, UpdateAll, AcceptAll, Distinct, IsMisc, Clip, Parse, NeverEvicted;
    if |arrivals| == 0 {
      AloneAtFirst(src);
    } else {
      var n := |arrivals| - 1;
      var init, last := arrivals[..n], arrivals[n];
      NeverEvictedInit(c, arrivals, src);
      ServedAsIfAlone(c, init, src);
      var table := TableAfter(c, [], init);
      if last.source == src {
        var own := BytesFrom(init, src);
        assert BytesFrom(arrivals, src)[|own|] == last.bytes;
        var fs := Parse(c, Clip(c, last.bytes));
        assert (own + [last.bytes])[..|own|] == own;
        AcceptAllAppend(None, ParseAll(c, own), fs);
        UpdateAllFinds(table, src, fs, src);
      } else {
        assert BytesFrom(arrivals, src) == BytesFrom(init, src);
        assert DeliveredFrom(c, [], arrivals, src) == DeliveredFrom(c, [], init, src);
        OthersLeaveAlone(c, table, last, src);
      }
    }
  }

  lemma AloneAtFirst(src: Source)
    ensures Distinct([]) && AcceptAll(None, []) == Accepted(Find([], src), [])
  {
  }

  lemma NeverEvictedInit(c: Config, arrivals: seq<Arrival>, src: Source)
    requires NeverEvicted(c, arrivals, src) && |arrivals| > 0
    ensures NeverEvicted(c, arrivals[..|arrivals| - 1], src)
    ensures arrivals[|arrivals| - 1].source != src && Find(TableAfter(c, [], arrivals[..|arrivals| - 1]), src).Some?
      ==> Find(TableAfter(c, [], arrivals), src).Some?
  {
    hide Find, TableAfter;
    var n := |arrivals| - 1;
    assert arrivals[..n + 1] == arrivals;
    forall k | 0 <= k < n && arrivals[..n][k].source != src && Find(TableAfter(c, [], arrivals[..n][..k]), src).Some?
      ensures Find(TableAfter(c, [], arrivals[..n][..k + 1]), src).Some?
    {
      assert arrivals[..n][..k] == arrivals[..k] && arrivals[..n][..k + 1] == arrivals[..k + 1];
      assert arrivals[k].source != src;
    }
  }

  lemma OthersLeaveAlone(c: Config, table: seq<Row>, a: Arrival, src: Source)
    requires Distinct(table) && a.source != src
    ensures Distinct(ReceivePacket(c, table, a.source, a.bytes).table)
    ensures Find(ReceivePacket(c, table, a.source, a.bytes).table, src) in {None, Find(table, src)}
  {
    hide Find, UpdateAll, Distinct, IsMisc, Clip, Parse;
    UpdateAllFinds(table, a.source, Parse(c, Clip(c, a.bytes)), src);
  }

  /** A source whose packets all come from a sender that the receiver excludes never enters the table, and nothing is
      delivered from it but miscellaneous data. */
  lemma {:induction false} ExcludedSource(tx: Config, rx: Config, arrivals: seq<Arrival>, src: Source)
    requires Proper(tx) && Excluded(tx, rx)
    requires forall d <- BytesFrom(arrivals, src) :: FromSender(tx, d)
    ensures Distinct(TableAfter(rx, [], arrivals)) && Find(TableAfter(rx, [], arrivals), src) == None
    ensures DeliveredFrom(rx, [], arrivals, src) == Miscellaneous(tx, rx, BytesFrom(arrivals, src))
    decreases |arrivals|
  {
    hide Find, ReceivePacket, Distinct, Excluded, FromSender;
    if |arrivals| == 0 {
      AloneAtFirst(src);
    } else {
      var n := |arrivals| - 1;
      var init, last := arrivals[..n], arrivals[n];
      assert forall d <- BytesFrom(init, src) :: d in BytesFrom(arrivals, src);
      ExcludedSource(tx, rx, init, src);
      var table := TableAfter(rx, [], init);
      if last.source == src {
        var own := BytesFrom(init, src);
        assert BytesFrom(arrivals, src)[|own|] == last.bytes;
        assert (own + [last.bytes])[..|own|] == own;
        ExcludedArrival(tx, rx, table, src, last.bytes);
      } else {
        assert BytesFrom(arrivals, src) == BytesFrom(init, src);
        OthersLeaveAlone(rx, table, last, src);
      }
    }
  }

  /** A packet that a sender with these settings may have made, or a part of it. */
  ghost predicate FromSender(tx: Config, bytes: Buffer) {
    exists fs: seq<Fragment> :: |fs| > 0 && Encodable(fs[0]) && bytes <= PacketBytes(tx, fs)
  }

  /** Those packets of an excluded sender that a receiver of miscellaneous data takes for some. */
  function Miscellaneous(tx: Config, rx: Config, packets: seq<Buffer>): seq<Buffer>
    decreases |packets|
  {
    if |packets| == 0 then []
    else
      var n := |packets| - 1;
      var d := if |packets[n]| <= rx.maxTransferUnit then packets[n] else packets[n][..rx.maxTransferUnit];
      Miscellaneous(tx, rx, packets[..n])
      + (if rx.allowMiscData && (|d| < 24 || tx.magic != rx.magic) then [d] else [])
  }

  lemma ExcludedArrival(tx: Config, rx: Config, table: seq<Row>, src: Source, bytes: Buffer)
    requires Proper(tx) && Excluded(tx, rx) && FromSender(tx, bytes)
    ensures var d := if |bytes| <= rx.maxTransferUnit then bytes else bytes[..rx.maxTransferUnit];
      ReceivePacket(rx, table, src, bytes) ==
        Received(table, if rx.allowMiscData && (|d| < 24 || tx.magic != rx.magic) then [d] else [])
  {
    hide ReceivePacket, Excluded;
    var fs :| |fs| > 0 && Encodable(fs[0]) && bytes <= PacketBytes(tx, fs);
    ExcludedPacket(tx, rx, table, src, fs, bytes);
  }

  /** However many sources there are, no more than 257 are followed at a time. */
  lemma {:induction false} TableIsBounded(c: Config, arrivals: seq<Arrival>)
    ensures |TableAfter(c, [], arrivals)| <= MAX_NUM_RECEIVE_STATES + 1
    decreases |arrivals|
  {
    hide UpdateAll, Parse, IsMisc;
    if |arrivals| > 0 {
      var n := |arrivals| - 1;
      TableIsBounded(c, arrivals[..n]);
      UpdateAllIsBounded(TableAfter(c, [], arrivals[..n]), arrivals[n].source, Parse(c, Clip(c, arrivals[n].bytes)));
    }
  }

  lemma {:induction false} UpdateAllIsBounded(table: seq<Row>, src: Source, fs: seq<Fragment>)
    requires |table| <= MAX_NUM_RECEIVE_STATES + 1
    ensures |UpdateAll(table, src, fs).table| <= MAX_NUM_RECEIVE_STATES + 1
    decreases |fs|
  {
    hide AcceptFrom;
    if |fs| > 0 {
      if Find(table, src).Some? { WithoutIsShorter(table, src); }
      UpdateAllIsBounded(Update(table, src, fs[0]), src, fs[1..]);
    }
  }

  lemma {:induction false} WithoutIsShorter(table: seq<Row>, src: Source)
    requires Find(table, src).Some?
    ensures |Without(table, src)| == |table| - 1
  {
    if table[0].source != src { WithoutIsShorter(table[1..], src); }
  }

  // ---- the delivery theorem ----

  predicate GoodShipments(tx: Config, msgs: seq<Buffer>, ships: seq<Shipment>) {
    && |msgs| <= TWO32 && (forall m <- msgs :: |m| < TWO32)
    && Walk(msgs, Flat(Packets(ships))).Some?
    && forall s <- ships :: 0 < |s.packet| && PacketSize(s.packet) <= tx.maxTransferUnit
  }

  /** The receiver reads with a large enough buffer, shares the magic number and does not filter this sender out. */
  predicate Listens(tx: Config, rx: Config, msgs: seq<Buffer>) {
    && Proper(tx) && Proper(rx) && tx.maxTransferUnit <= rx.maxTransferUnit
    && tx.magic == rx.magic && (rx.sexID == 0 || rx.sexID != tx.sexID)
    && forall m <- msgs :: |m| <= rx.maxIncomingMessageSize
  }

  lemma PieceIsGenuine(msgs: seq<Buffer>, pos: Position, f: Fragment)
    requires IsPiece(msgs, pos, f) && |msgs| <= TWO32 && forall m <- msgs :: |m| < TWO32
    ensures Genuine(msgs, f) && Encodable(f)
  {
    assert msgs[pos.i] in msgs;
  }

  /** Every fragment of a walk is a genuine piece of a message. */
  lemma {:induction false} WalkIsGenuine(msgs: seq<Buffer>, fs: seq<Fragment>)
    requires Walk(msgs, fs).Some? && |msgs| <= TWO32 && forall m <- msgs :: |m| < TWO32
    ensures forall f <- fs :: Genuine(msgs, f) && Encodable(f)
    decreases |fs|
  {
    hide Genuine, Encodable, IsPiece;
    if |fs| > 0 {
      var n := |fs| - 1;
      WalkIsGenuine(msgs, fs[..n]);
      PieceIsGenuine(msgs, Walk(msgs, fs[..n]).value, fs[n]);
      assert fs == fs[..n] + [fs[n]];
    }
  }

  lemma {:induction false} FlatHolds(packets: seq<seq<Fragment>>, p: seq<Fragment>)
    requires p in packets
    ensures forall f <- p :: f in Flat(packets)
    decreases |packets|
  {
    var n := |packets| - 1;
    if p != packets[n] { FlatHolds(packets[..n], p); }
  }

  /** Everything a sender hands over is a packet of genuine fragments. */
  lemma SentPacketsAreGenuine(c: Config, s: Sender, p: seq<Fragment>)
    requires SenderInv(c, s) && p in s.sent && |s.msgs| <= TWO32 && forall m <- s.msgs :: |m| < TWO32
    ensures GenuinePacket(c, s.msgs, PacketBytes(c, p)) && |PacketBytes(c, p)| <= c.maxTransferUnit
  {
    hide Walk, PacketBytes, PacketSize, Genuine, Encodable;
    var all := Flat(s.sent) + s.packet;
    WalkIsGenuine(s.msgs, all);
    FlatHolds(s.sent, p);
    assert forall f <- p :: f in all;
    PacketFillsSize(c, p);
  }

  lemma PacketIsHeard(tx: Config, rx: Config, msgs: seq<Buffer>, ships: seq<Shipment>, s: Shipment)
    requires GoodShipments(tx, msgs, ships) && Listens(tx, rx, msgs) && s in ships
    ensures var d := PacketBytes(tx, s.packet); !IsMisc(rx, Clip(rx, d)) && Parse(rx, Clip(rx, d)) == s.packet
  {
    hide Walk, PacketBytes, PacketSize, Genuine, Encodable, IsMisc, Parse, Flat;
    var all := Flat(Packets(ships));
    WalkIsGenuine(msgs, all);
    var k :| 0 <= k < |ships| && ships[k] == s;
    assert Packets(ships)[k] == s.packet;
    FlatHolds(Packets(ships), s.packet);
    assert s.packet[0] in all;
    PacketFillsSize(tx, s.packet);
    PacketIsNotMisc(tx, rx, s.packet);
    GenuineIdInRange(msgs, s.packet);
    ParseWhole(tx, rx, s.packet);
  }

  lemma GenuineIdInRange(msgs: seq<Buffer>, fs: seq<Fragment>)
    requires forall f <- fs :: Genuine(msgs, f)
    ensures forall f <- fs :: f.id < |msgs| && f.total == |msgs[f.id]|
  {
  }

  lemma {:induction false} HeardAll(tx: Config, rx: Config, msgs: seq<Buffer>, ships: seq<Shipment>,
                                    some: seq<Shipment>)
    requires GoodShipments(tx, msgs, ships) && Listens(tx, rx, msgs) && forall s <- some :: s in ships
    ensures ParseAll(rx, ArrivingBytes(tx, some)) == Arriving(Pieces(some))
    ensures forall d <- ArrivingBytes(tx, some) :: !IsMisc(rx, Clip(rx, d))
    decreases |some|
  {
    hide GoodShipments, Listens, PacketBytes, IsMisc, Parse, Clip, Arriving;
    if |some| == 0 {
      ArrivingNone();
    } else {
      var n := |some| - 1;
      HeardAll(tx, rx, msgs, ships, some[..n]);
      PacketIsHeard(tx, rx, msgs, ships, some[n]);
      var before := ArrivingBytes(tx, some[..n]);
      ArrivingMarked(Pieces(some[..n]), some[n].packet, some[n].arrives);
      if some[n].arrives {
        var d := PacketBytes(tx, some[n].packet);
        assert (before + [d])[..|before|] == before;
      } else {
        assert ArrivingBytes(tx, some) == before;
      }
    }
  }

  lemma ArrivingNone()
    ensures Arriving([]) == []
  {
  }

  lemma {:induction false} ArrivingMarked(ps: seq<Piece>, fs: seq<Fragment>, arrives: bool)
    ensures Arriving(ps + Mark(fs, arrives)) == Arriving(ps) + (if arrives then fs else [])
    decreases |fs|
  {
    hide Arriving;
    if |fs| == 0 {
      assert ps + Mark(fs, arrives) == ps;
      assert Arriving(ps) + [] == Arriving(ps);
    } else {
      var n := |fs| - 1;
      ArrivingMarked(ps, fs[..n], arrives);
      ArrivingSnoc(ps + Mark(fs[..n], arrives), Piece(fs[n], arrives));
      assert ps + Mark(fs, arrives) == (ps + Mark(fs[..n], arrives)) + [Piece(fs[n], arrives)];
      if arrives { assert (Arriving(ps) + fs[..n]) + [fs[n]] == Arriving(ps) + fs; }
    }
  }

  lemma ArrivingSnoc(ps: seq<Piece>, p: Piece)
    ensures Arriving(ps + [p]) == Arriving(ps) + (if p.arrives then [p.f] else [])
  {
    assert (ps + [p])[..|ps|] == ps;
  }

  /** Lossy FIFO delivery: a message that has been sent completely is delivered, once and in order, if and only if every
      packet with one of its fragments arrives; the traffic of other sources is arbitrary. */
  lemma DeliveredIffEveryPacketArrives(tx: Config, rx: Config, msgs: seq<Buffer>, ships: seq<Shipment>,
                                       arrivals: seq<Arrival>, src: Source)
    requires GoodShipments(tx, msgs, ships) && Listens(tx, rx, msgs)
    requires BytesFrom(arrivals, src) == ArrivingBytes(tx, ships) && NeverEvicted(rx, arrivals, src)
    ensures var done := Walk(msgs, Flat(Packets(ships))).value.i;
      done <= |msgs| && DeliveredFrom(rx, [], arrivals, src) == Deliverable(msgs, ships, done)
  {
    hide Listens, Walk, Pieces, IsMisc, NeverEvicted, AcceptAll, TableAfter, DeliveredFrom, Deliverable, Survivors,
      ParseAll, Arriving, ArrivingBytes, BytesFrom, Tracks, Intact;
    HeardAll(tx, rx, msgs, ships, ships);
    ServedAsIfAlone(rx, arrivals, src);
    FragmentsOfPieces(ships);
    TracksLossyStream(msgs, Pieces(ships));
    SurvivorsAreDeliverable(msgs, ships, Walk(msgs, Flat(Packets(ships))).value.i);
  }

  /** Without loss the output equals the input. */
  lemma LosslessDelivery(tx: Config, rx: Config, s: Sender, arrivals: seq<Arrival>, src: Source)
    requires SenderInv(tx, s) && Listens(tx, rx, s.msgs) && |s.msgs| <= TWO32 && forall m <- s.msgs :: |m| < TWO32
    requires s.packet == [] && !HasBytesToOutput(s)
    requires BytesFrom(arrivals, src) == ArrivingBytes(tx, Shipped(s.sent)) && NeverEvicted(rx, arrivals, src)
    ensures DeliveredFrom(rx, [], arrivals, src) == s.msgs
  {
    hide Walk, Listens, NeverEvicted, Flat, ArrivingBytes, BytesFrom, Deliverable, PacketSize, DeliveredFrom;
    var ships := Shipped(s.sent);
    assert Packets(ships) == s.sent;
    assert Flat(s.sent) + s.packet == Flat(s.sent);
    DeliveredIffEveryPacketArrives(tx, rx, s.msgs, ships, arrivals, src);
    NothingLost(s.msgs, ships, |s.msgs|);
  }

  function Shipped(packets: seq<seq<Fragment>>): seq<Shipment> {
    seq(|packets|, i requires 0 <= i < |packets| => Shipment(packets[i], true))
  }

  // ---- a bound that rules evictions out ----

  function Sources(arrivals: seq<Arrival>): set<Source> {
    set a <- arrivals :: a.source
  }

  function Known(table: seq<Row>): set<Source> {
    set r <- table :: r.source
  }

  lemma {:induction false} DistinctCount(table: seq<Row>)
    requires Distinct(table)
    ensures |Known(table)| == |table|
    decreases |table|
  {
    if |table| > 0 {
      var n := |table| - 1;
      DistinctCount(table[..n]);
      assert table == table[..n] + [table[n]];
      assert Known(table) == Known(table[..n]) + {table[n].source};
    }
  }

  /** With room for the whole table no fragment evicts anybody. */
  lemma {:induction false} RoomForAll(table: seq<Row>, src: Source, fs: seq<Fragment>, who: Source, all: set<Source>)
    requires Distinct(table) && Known(table) <= all && src in all && |all| <= MAX_NUM_RECEIVE_STATES + 1 && who != src
    ensures Distinct(UpdateAll(table, src, fs).table) && Known(UpdateAll(table, src, fs).table) <= all
    ensures Find(UpdateAll(table, src, fs).table, who) == Find(table, who)
    decreases |fs|
  {
    hide Find, Distinct, Update, Known, AcceptFrom;
    if |fs| > 0 {
      RoomForOne(table, src, fs[0], who, all);
      RoomForAll(Update(table, src, fs[0]), src, fs[1..], who, all);
    }
  }

  lemma RoomForOne(table: seq<Row>, src: Source, f: Fragment, who: Source, all: set<Source>)
    requires Distinct(table) && Known(table) <= all && src in all && |all| <= MAX_NUM_RECEIVE_STATES + 1 && who != src
    ensures Distinct(Update(table, src, f)) && Known(Update(table, src, f)) <= all
    ensures Find(Update(table, src, f), who) == Find(table, who)
  {
    hide Find, Distinct, AcceptFrom, Without, Evict;
    UpdateFinds(table, src, f, who);
    WithoutIsSubset(table, src);
    WithoutFinds(table, src, who);
    var o := AcceptFrom(Find(table, src), f).state;
    if Find(table, src).None? {
      FindIff(table, src);
      DistinctCount(table);
      Smaller(Known(table), all, src);
      EvictFinds(table, who);
      FindStored(table, src, who, o);
    } else {
      FindStored(Without(table, src), src, who, o);
    }
  }

  lemma Smaller(a: set<Source>, b: set<Source>, x: Source)
    requires a <= b && x in b && x !in a
    ensures |a| < |b|
  {
    assert a <= b - {x};
    SubsetSize(a, b - {x});
  }

  lemma {:induction false} SubsetSize(a: set<Source>, b: set<Source>)
    requires a <= b
    ensures |a| <= |b|
  {
    if x :| x in a { SubsetSize(a - {x}, b - {x}); }
  }

  lemma {:induction false} FewSourcesTable(c: Config, arrivals: seq<Arrival>, all: set<Source>)
    requires Sources(arrivals) <= all && |all| <= MAX_NUM_RECEIVE_STATES + 1
    ensures Distinct(TableAfter(c, [], arrivals)) && Known(TableAfter(c, [], arrivals)) <= all
    decreases |arrivals|
  {
    hide UpdateAll, Parse, IsMisc;
    if |arrivals| > 0 {
      var n := |arrivals| - 1;
      FewSourcesTable(c, arrivals[..n], all);
      var table, a := TableAfter(c, [], arrivals[..n]), arrivals[n];
      assert a.source in all;
      RoomForAll(table, a.source, Parse(c, Clip(c, a.bytes)), a.source + 1, all);
    }
  }

  /** With at most 257 sources nobody is ever evicted. */
  lemma FewSourcesMeansNoEviction(c: Config, arrivals: seq<Arrival>, src: Source)
    requires |Sources(arrivals)| <= MAX_NUM_RECEIVE_STATES + 1
    ensures NeverEvicted(c, arrivals, src)
  {
    hide Find, UpdateAll, Parse, IsMisc, Distinct, Known;
    var all := Sources(arrivals);
    forall k | 0 <= k < |arrivals| && arrivals[k].source != src && Find(TableAfter(c, [], arrivals[..k]), src).Some?
      ensures Find(TableAfter(c, [], arrivals[..k + 1]), src).Some?
    {
      FewSourcesTable(c, arrivals[..k], all);
      var table, a := TableAfter(c, [], arrivals[..k]), arrivals[k];
      RoomForAll(table, a.source, Parse(c, Clip(c, a.bytes)), src, all);
      assert arrivals[..k + 1][..k] == arrivals[..k];
    }
  }

  // ---- the sources heard from least recently go first ----

  /** The rows behind that of src: the sources heard from since. */
  function Since(table: seq<Row>, src: Source): (r: seq<Row>)
    ensures |r| <= |table|
  {
    if |table| == 0 then []
    else if table[0].source == src then table[1..]
    else Since(table[1..], src)
  }

  /** src is in the table, and only sources in others have been heard from since. */
  predicate Recent(table: seq<Row>, src: Source, others: set<Source>) {
    Distinct(table) && Find(table, src).Some? && Known(Since(table, src)) <= others
  }

  lemma {:induction false} SinceAppend(table: seq<Row>, row: Row, src: Source)
    requires Find(table, src).Some?
    ensures Since(table + [row], src) == Since(table, src) + [row]
  {
    assert (table + [row])[1..] == table[1..] + [row];
    if table[0].source != src { SinceAppend(table[1..], row, src); }
  }

  lemma {:induction false} SinceWithout(table: seq<Row>, who: Source, src: Source)
    requires who != src
    ensures forall r <- Since(Without(table, who), src) :: r in Since(table, src)
  {
    if |table| > 0 {
      if table[0].source == who {
        assert Since(table, src) == Since(table[1..], src);
      } else if table[0].source == src {
        WithoutIsSubset(table[1..], who);
      } else {
        SinceWithout(table[1..], who, src);
      }
    }
  }

  /** Dropping rows from the front keeps a source that has fewer rows behind it than are kept. */
  lemma {:induction false} SinceDrop(table: seq<Row>, d: nat, src: Source)
    requires d <= |table| && Find(table, src).Some? && |Since(table, src)| < |table| - d
    ensures Find(table[d..], src) == Find(table, src) && Since(table[d..], src) == Since(table, src)
    decreases d
  {
    if d == 0 {
      assert table[0..] == table;
    } else {
      assert table[d..] == table[1..][d - 1..];
      SinceDrop(table[1..], d - 1, src);
    }
  }

  lemma {:induction false} SinceDistinct(table: seq<Row>, src: Source)
    requires Distinct(table)
    ensures Distinct(Since(table, src)) && forall r <- Since(table, src) :: r in table
  {
    if |table| > 0 && table[0].source != src { SinceDistinct(table[1..], src); }
  }

  lemma {:induction false} SinceFresh(table: seq<Row>, src: Source, rs: ReceiveState)
    requires Find(table, src).None?
    ensures Since(table + [Row(src, rs)], src) == []
  {
    if |table| == 0 {
      assert table + [Row(src, rs)] == [Row(src, rs)];
    } else {
      SinceFresh(table[1..], src, rs);
      assert (table + [Row(src, rs)])[1..] == table[1..] + [Row(src, rs)];
    }
  }

  /** A source that has just been heard from and is being followed is the most recent one. */
  lemma JustHeard(table: seq<Row>, src: Source, f: Fragment)
    requires Distinct(table) && AcceptFrom(Find(table, src), f).state.Some?
    ensures Recent(Update(table, src, f), src, {})
  {
    hide Find, Distinct, AcceptFrom, Without, Evict, Since;
    UpdateFinds(table, src, f, src);
    WithoutFinds(table, src, src);
    EvictFinds(table, src);
    var kept := if Find(table, src).Some? then Without(table, src) else Evict(table);
    SinceFresh(kept, src, AcceptFrom(Find(table, src), f).state.value);
  }

  lemma EvictKeepsRecent(table: seq<Row>, src: Source, who: Source, others: set<Source>)
    requires Recent(table, src, others) && Find(table, who).None? && |others + {who}| <= MAX_NUM_RECEIVE_STATES
    ensures Recent(Evict(table), src, others) && Find(Evict(table), src) == Find(table, src)
  {
    hide Find, Distinct;
    EvictFinds(table, src);
    SinceDistinct(table, src);
    var since := Since(table, src);
    DistinctCount(since);
    FindIff(table, who);
    Smaller(Known(since), others + {who}, who);
    if |table| > MAX_NUM_RECEIVE_STATES { SinceDrop(table, |table| - MAX_NUM_RECEIVE_STATES, src); }
  }

  lemma UpdateKeepsRecent(table: seq<Row>, src: Source, who: Source, f: Fragment, others: set<Source>)
    requires Recent(table, src, others) && who != src && |others + {who}| <= MAX_NUM_RECEIVE_STATES
    ensures Recent(Update(table, who, f), src, others + {who})
    ensures Find(Update(table, who, f), src) == Find(table, src)
  {
    hide Find, Distinct, AcceptFrom, Without, Evict, Since;
    UpdateFinds(table, who, f, who);
    var o := AcceptFrom(Find(table, who), f).state;
    var kept := if Find(table, who).Some? then Without(table, who) else Evict(table);
    if Find(table, who).Some? {
      WithoutFinds(table, who, src);
      SinceWithout(table, who, src);
    } else {
      EvictKeepsRecent(table, src, who, others);
    }
    assert Recent(kept, src, others);
    FindStored(kept, who, src, o);
    if o.Some? { SinceAppend(kept, Row(who, o.value), src); }
  }

  lemma {:induction false} UpdateAllKeepsRecent(table: seq<Row>, src: Source, who: Source, fs: seq<Fragment>,
                                                others: set<Source>)
    requires Recent(table, src, others) && who != src && |others + {who}| <= MAX_NUM_RECEIVE_STATES
    ensures Recent(UpdateAll(table, who, fs).table, src, others + {who})
    ensures Find(UpdateAll(table, who, fs).table, src) == Find(table, src)
    decreases |fs|
  {
    hide Find, Recent, Update, AcceptFrom;
    if |fs| == 0 {
      RecentGrows(table, src, others, others + {who});
    } else {
      UpdateKeepsRecent(table, src, who, fs[0], others);
      assert others + {who} + {who} == others + {who};
      UpdateAllKeepsRecent(Update(table, who, fs[0]), src, who, fs[1..], others + {who});
    }
  }

  lemma RecentGrows(table: seq<Row>, src: Source, a: set<Source>, b: set<Source>)
    requires Recent(table, src, a) && a <= b
    ensures Recent(table, src, b)
  {
  }

  /** A source stays in the table, with its state untouched, while at most 256 other sources are heard from; so what is
      evicted is always a source that has been silent for longer than 256 others. */
  lemma {:induction false} RecentSourcesSurvive(c: Config, table: seq<Row>, src: Source, arrivals: seq<Arrival>,
                                                others: set<Source>)
    requires Recent(table, src, others) && (forall a <- arrivals :: a.source != src)
    requires |others + Sources(arrivals)| <= MAX_NUM_RECEIVE_STATES
    ensures Recent(TableAfter(c, table, arrivals), src, others + Sources(arrivals))
    ensures Find(TableAfter(c, table, arrivals), src) == Find(table, src)
    decreases |arrivals|
  {
    hide Find, Recent, UpdateAll, Parse, IsMisc;
    if |arrivals| == 0 {
      RecentGrows(table, src, others, others + Sources(arrivals));
    } else {
      var n := |arrivals| - 1;
      var before, last := others + Sources(arrivals[..n]), arrivals[n];
      SourcesSnoc(arrivals);
      assert before + {last.source} == others + Sources(arrivals);
      SubsetSize(before, others + Sources(arrivals));
      RecentSourcesSurvive(c, table, src, arrivals[..n], others);
      var t := TableAfter(c, table, arrivals[..n]);
      UpdateAllKeepsRecent(t, src, last.source, Parse(c, Clip(c, last.bytes)), before);
      RecentGrows(t, src, before, before + {last.source});
    }
  }

  lemma SourcesSnoc(arrivals: seq<Arrival>)
    requires |arrivals| > 0
    ensures Sources(arrivals) == Sources(arrivals[..|arrivals| - 1]) + {arrivals[|arrivals| - 1].source}
  {
    assert arrivals == arrivals[..|arrivals| - 1] + [arrivals[|arrivals| - 1]];
  }
}
