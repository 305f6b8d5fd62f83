/** MessageIOGateway over a byte stream: Messages are queued, flattened one at a time, written and read in pieces of any
    size, and put together again.  The templating gateway shares this code and overrides the codec. */
module MessageStream {
  import opened Bytes
  import opened Messages
  import opened Unflattening
  import opened Templates
  import opened TemplatedCodec
  import opened TemplateSizes
  import opened TemplatingGateway

  const HEADER_SIZE: nat := 8
  const ENCODING_END_MARKER: nat := ENCODING_DEFAULT + 10

  /** The virtual methods that the two gateways implement differently. */
  datatype Kind = Plain | Templating(hash: NameHash, limit: nat)

  predicate EncodingInRange(w: nat) {
    ENCODING_DEFAULT <= w < ENCODING_END_MARKER
  }

  /** GetBodySize() */
  function BodySize(kind: Kind, header: Buffer): Option<nat>
    requires |header| >= HEADER_SIZE
  {
    match kind
    case Plain => if EncodingInRange(R32(header[4..])) then Some(R32(header)) else None
    case Templating(_, _) => if EncodingInRange(R32(header[4..]) % TWO31) then Some(R32(header) % TWO31) else None
  }

  /** FlattenHeaderAndMessage() */
  function Encode(kind: Kind, c: Cache, o: Outgoing): SendResult {
    match kind
    case Plain => SendResult(c, W32(FlattenedSize(o.msg)) + (W32(ENCODING_DEFAULT) + Flatten(o.msg)))
    case Templating(h, limit) => Send(h, limit, c, o.msg, o.okay)
  }

  /** UnflattenHeaderAndMessage() */
  function Decode(kind: Kind, c: Cache, frame: Buffer): RecvResult {
    match kind
    case Plain =>
      if |frame| < HEADER_SIZE || HEADER_SIZE + R32(frame) != |frame| || R32(frame[4..]) != ENCODING_DEFAULT then
        RecvResult(c, Err)
      else (match Unflatten(frame[4..][4..])
            case Err => RecvResult(c, Err)
            case Ok(p) => RecvResult(c, Ok(p.value)))
    case Templating(h, limit) => Receive(h, limit, c, frame)
  }

  // ---- sending ----

  /** The bytes that a queue turns into, starting from cache c. */
  function Wire(kind: Kind, c: Cache, q: seq<Outgoing>): Buffer
    decreases |q|
  {
    if |q| == 0 then []
    else
      var e := Encode(kind, c, q[0]);
      e.frame + Wire(kind, e.cache, q[1..])
  }

  function CacheAfter(kind: Kind, c: Cache, q: seq<Outgoing>): Cache
    decreases |q|
  {
    if |q| == 0 then c else CacheAfter(kind, Encode(kind, c, q[0]).cache, q[1..])
  }

  lemma WireCons(kind: Kind, c: Cache, q: seq<Outgoing>)
    requires |q| > 0
    ensures var e := Encode(kind, c, q[0]);
      Wire(kind, c, q) == e.frame + Wire(kind, e.cache, q[1..])
      && CacheAfter(kind, c, q) == CacheAfter(kind, e.cache, q[1..])
  {
    hide Encode;
  }

  lemma WireSnoc(kind: Kind, c: Cache, q: seq<Outgoing>, o: Outgoing)
    ensures var e := Encode(kind, CacheAfter(kind, c, q), o);
      Wire(kind, c, q + [o]) == Wire(kind, c, q) + e.frame && CacheAfter(kind, c, q + [o]) == e.cache
  {
    hide Encode, Wire, CacheAfter;
    WireAppend(kind, c, q, [o]);
    WireCons(kind, CacheAfter(kind, c, q), [o]);
    WireNothing(kind, Encode(kind, CacheAfter(kind, c, q), o).cache);
    assert [o][1..] == [];
  }

  lemma WireNothing(kind: Kind, c: Cache)
    ensures Wire(kind, c, []) == [] && CacheAfter(kind, c, []) == c
  {
  }

  lemma {:induction false} WireAppend(kind: Kind, c: Cache, a: seq<Outgoing>, b: seq<Outgoing>)
    ensures Wire(kind, c, a + b) == Wire(kind, c, a) + Wire(kind, CacheAfter(kind, c, a), b)
    ensures CacheAfter(kind, c, a + b) == CacheAfter(kind, CacheAfter(kind, c, a), b)
    decreases |a|
  {
    hide Encode;
    if |a| == 0 {
      assert a + b == b;
    } else {
      WireAppend(kind, Encode(kind, c, a[0]).cache, a[1..], b);
      assert (a + b)[1..] == a[1..] + b;
    }
  }

  // ---- receiving ----

  /** What has been read of the current frame, the decoder's cache, and the Messages delivered so far. */
  datatype Rx = Rx(buf: Buffer, cache: Cache, out: seq<Message>, failed: bool)

  const NEW_RX: Rx := Rx([], EMPTY_CACHE, [], false)

  /** How many bytes of the current frame may be asked for at present. */
  function Wanted(kind: Kind, buf: Buffer): nat {
    if |buf| < HEADER_SIZE then HEADER_SIZE
    else
      match BodySize(kind, buf[..HEADER_SIZE])
      case None => |buf|
      case Some(n) => HEADER_SIZE + n
  }

  function Deliver(kind: Kind, rx: Rx): Rx {
    var d := Decode(kind, rx.cache, rx.buf);
    match d.message
    case Ok(m) => Rx([], d.cache, rx.out + [m], false)
    case Err => Rx([], d.cache, rx.out, true)
  }

  /** New bytes have been appended to the buffer. */
  function Examine(kind: Kind, limit: nat, rx: Rx): Rx {
    if |rx.buf| < HEADER_SIZE then rx
    else
      match BodySize(kind, rx.buf[..HEADER_SIZE])
      case None => rx.(failed := true)
      case Some(n) =>
        if n > limit then rx.(failed := true)
        else if |rx.buf| == HEADER_SIZE + n then Deliver(kind, rx)
        else rx
  }

  function Feed(kind: Kind, limit: nat, rx: Rx, s: Buffer): Rx
    decreases |s|
  {
    if |s| == 0 || rx.failed then rx
    else Feed(kind, limit, Examine(kind, limit, rx.(buf := rx.buf + [s[0]])), s[1..])
  }

  lemma {:induction false} FeedAppend(kind: Kind, limit: nat, rx: Rx, a: Buffer, b: Buffer)
    ensures Feed(kind, limit, rx, a + b) == Feed(kind, limit, Feed(kind, limit, rx, a), b)
    decreases |a|
  {
    hide Examine;
    if |a| == 0 {
      assert a + b == b;
    } else if !rx.failed {
      FeedAppend(kind, limit, Examine(kind, limit, rx.(buf := rx.buf + [a[0]])), a[1..], b);
      assert (a + b)[1..] == a[1..] + b;
    }
  }

  /** The buffer holds a proper part of an acceptable frame. */
  predicate Partial(kind: Kind, limit: nat, rx: Rx) {
    !rx.failed
    && (|rx.buf| >= HEADER_SIZE ==>
          var n := BodySize(kind, rx.buf[..HEADER_SIZE]);
          n.Some? && n.value <= limit && |rx.buf| < HEADER_SIZE + n.value)
  }

  /** A read that does not go past what is wanted has the same effect as its bytes one by one. */
  lemma {:induction false} FeedRead(kind: Kind, limit: nat, rx: Rx, s: Buffer)
    requires Partial(kind, limit, rx) && 0 < |s| && |rx.buf| + |s| <= Wanted(kind, rx.buf)
    ensures Feed(kind, limit, rx, s) == Examine(kind, limit, rx.(buf := rx.buf + s))
    decreases |s|
  {
    hide BodySize, Deliver;
    var rx1 := rx.(buf := rx.buf + [s[0]]);
    if |s| == 1 {
      FeedOne(kind, limit, rx, s[0]);
      assert s == [s[0]];
    } else {
      assert rx.buf + s == rx1.buf + s[1..];
      assert |rx.buf| >= HEADER_SIZE ==> rx1.buf[..HEADER_SIZE] == rx.buf[..HEADER_SIZE];
      assert Examine(kind, limit, rx1) == rx1;
      FeedRead(kind, limit, rx1, s[1..]);
    }
  }

  lemma FeedOne(kind: Kind, limit: nat, rx: Rx, b: Byte)
    requires !rx.failed
    ensures Feed(kind, limit, rx, [b]) == Examine(kind, limit, rx.(buf := rx.buf + [b]))
  {
    hide Examine;
    assert [b][1..] == [];
    assert Feed(kind, limit, rx, [b]) == Feed(kind, limit, Examine(kind, limit, rx.(buf := rx.buf + [b])), []);
  }

  /** A whole frame is handed to the decoder. */
  lemma FeedFrame(kind: Kind, limit: nat, rx: Rx, frame: Buffer)
    requires !rx.failed && rx.buf == [] && |frame| >= HEADER_SIZE
    requires BodySize(kind, frame[..HEADER_SIZE]) == Some(|frame| - HEADER_SIZE) && |frame| - HEADER_SIZE <= limit
    ensures Feed(kind, limit, rx, frame) == Deliver(kind, rx.(buf := frame))
  {
    hide BodySize, Deliver;
    var head, body := frame[..HEADER_SIZE], frame[HEADER_SIZE..];
    assert frame == head + body;
    assert rx.buf + head == head;
    FeedRead(kind, limit, rx, head);
    assert head[..HEADER_SIZE] == head;
    if |body| > 0 {
      FeedAppend(kind, limit, rx, head, body);
      var rx1 := rx.(buf := head);
      assert Feed(kind, limit, rx, head) == rx1;
      FeedRead(kind, limit, rx1, body);
    } else {
      assert frame == head;
    }
  }

  // ---- what the receiver refuses ----

  /** The eight header bytes of a frame end the reading, for good and without a delivery, exactly when the encoding is
      none of 'Enc0' to 'Enc9', when the body is larger than the limit, or when there is no body; the templating gateway
      keeps a flag of its own in the top bit of either word. */
  lemma HeaderFailsIff(kind: Kind, limit: nat, rx: Rx, size: nat, encoding: nat, s: Buffer)
    requires !rx.failed && rx.buf == [] && size < TWO32 && encoding < TWO32
    ensures var flag := if kind == Plain then TWO32 else TWO31;
      var r := Feed(kind, limit, rx, W32(size) + W32(encoding));
      && (r.failed <==> encoding % flag < 0x456E6330 || encoding % flag > 0x456E6339
                        || size % flag > limit || size % flag == 0)
      && (r.failed ==> r.out == rx.out && Feed(kind, limit, rx, (W32(size) + W32(encoding)) + s) == r)
  {
    hide Feed, W32, R32, Deliver;
    var h := W32(size) + W32(encoding);
    assert W32(encoding) + [] == W32(encoding);
    R32W32(size, W32(encoding));
    R32W32(encoding, []);
    assert [] + h == h && h[..HEADER_SIZE] == h;
    FeedRead(kind, limit, rx, h);
    NoBodyFails(kind, rx.(buf := h));
    FeedAppend(kind, limit, rx, h, s);
    if Feed(kind, limit, rx, h).failed { FeedFailed(kind, limit, Feed(kind, limit, rx, h), s); }
  }

  lemma NoBodyFails(kind: Kind, rx: Rx)
    requires |rx.buf| == HEADER_SIZE
    ensures Deliver(kind, rx).failed && Deliver(kind, rx).out == rx.out
  {
    hide R32;
  }

  /** A plain frame is the length of the flattened Message, 'Enc0', and the flattened Message. */
  lemma PlainFrameImage(c: Cache, o: Outgoing)
    ensures Encode(Plain, c, o).frame == Word(FlattenedSize(o.msg)) + [0x30, 0x63, 0x6E, 0x45] + Flatten(o.msg)
  {
    hide Flatten, FlattenedSize;
    WordIs(FlattenedSize(o.msg));
    WordIs(ENCODING_DEFAULT);
  }

  // ---- end to end ----

  function FeedChunks(kind: Kind, limit: nat, rx: Rx, chunks: seq<Buffer>): Rx
    decreases |chunks|
  {
    if |chunks| == 0 then rx else FeedChunks(kind, limit, Feed(kind, limit, rx, chunks[0]), chunks[1..])
  }

  lemma {:induction false} ChunksDoNotMatter(kind: Kind, limit: nat, rx: Rx, chunks: seq<Buffer>)
    ensures FeedChunks(kind, limit, rx, chunks) == Feed(kind, limit, rx, Concat(chunks))
    decreases |chunks|
  {
    hide Examine;
    if |chunks| > 0 {
      ChunksDoNotMatter(kind, limit, Feed(kind, limit, rx, chunks[0]), chunks[1..]);
      FeedAppend(kind, limit, rx, chunks[0], Concat(chunks[1..]));
    }
  }

  function Normals(q: seq<Outgoing>): seq<Message> {
    seq(|q|, i requires 0 <= i < |q| => Normal(q[i].msg))
  }

  /** A frame that announces its own size and is within the receiver's limit. */
  predicate Framed(kind: Kind, limit: nat, frame: Buffer) {
    |frame| >= HEADER_SIZE && BodySize(kind, frame[..HEADER_SIZE]) == Some(|frame| - HEADER_SIZE)
    && |frame| - HEADER_SIZE <= limit
  }

  lemma HeaderOf(a: nat, b: nat, body: Buffer)
    requires a < TWO32 && b < TWO32
    ensures var f := W32(a) + (W32(b) + body);
      |f| == HEADER_SIZE + |body| && f[4..][4..] == body && R32(f) == a && R32(f[4..]) == b
      && R32(f[..HEADER_SIZE]) == a && R32(f[..HEADER_SIZE][4..]) == b
  {
    hide W32, R32;
    var t := W32(b) + body;
    R32W32(a, t);
    R32W32(b, body);
    R32W32(a, W32(b));
    R32W32(b, []);
    assert (W32(a) + t)[..HEADER_SIZE] == W32(a) + W32(b);
    assert W32(b) + [] == W32(b);
  }

  /** The plain gateway's codec completes a round trip exactly for seekable Messages. */
  lemma PlainFrame(limit: nat, c: Cache, o: Outgoing)
    requires Valid(o.msg) && FlattenedSize(o.msg) < TWO32 - HEADER_SIZE && FlattenedSize(o.msg) <= limit
    ensures var e := Encode(Plain, c, o);
      && Framed(Plain, limit, e.frame)
      && Decode(Plain, c, e.frame) == RecvResult(c, if Seekable(o.msg) then Ok(Normal(o.msg)) else Err)
  {
    hide W32, R32, Flatten, Unflatten, Valid, Normal, FlattenedSize, Seekable;
    FlattenFillsSize(o.msg);
    RoundTrip(o.msg);
    HeaderOf(FlattenedSize(o.msg), ENCODING_DEFAULT, Flatten(o.msg));
  }

  /** The Messages that come before the first one that cannot be read back. */
  function SeekablePrefix(q: seq<Outgoing>): (r: seq<Outgoing>)
    ensures r <= q && ((forall o <- q :: Seekable(o.msg)) ==> r == q)
  {
    if |q| == 0 || !Seekable(q[0].msg) then []
    else
      var rest := SeekablePrefix(q[1..]);
      assert q == [q[0]] + q[1..];
      [q[0]] + rest
  }

  /** Over any chunking of the stream the peer delivers exactly the Messages that were queued, in order, up to the first
      one that is not seekable; with that one the stream fails. */
  lemma {:induction false} PlainStream(limit: nat, c: Cache, rx: Rx, q: seq<Outgoing>)
    requires !rx.failed && rx.buf == [] && rx.cache == c
    requires forall o <- q ::
      Valid(o.msg) && FlattenedSize(o.msg) < TWO32 - HEADER_SIZE && FlattenedSize(o.msg) <= limit
    ensures Feed(Plain, limit, rx, Wire(Plain, c, q)) ==
      rx.(out := rx.out + Normals(SeekablePrefix(q)), failed := |SeekablePrefix(q)| < |q|)
    decreases |q|
  {
    hide Encode, Decode, Feed, Valid, FlattenedSize, Normal, BodySize, Seekable, SeekablePrefix, Normals;
    SeekablePrefixStep(q);
    if |q| == 0 {
      FeedNothing(Plain, limit, rx);
      assert rx.out + [] == rx.out;
    } else {
      var e, rest := Encode(Plain, c, q[0]), Wire(Plain, c, q[1..]);
      PlainFrame(limit, c, q[0]);
      PlainKeepsCache(c, q[0]);
      FeedAppend(Plain, limit, rx, e.frame, rest);
      FeedFrame(Plain, limit, rx, e.frame);
      if Seekable(q[0].msg) {
        var m, ms := Normal(q[0].msg), Normals(SeekablePrefix(q[1..]));
        PlainStream(limit, c, rx.(out := rx.out + [m]), q[1..]);
        assert (rx.out + [m]) + ms == rx.out + ([m] + ms);
      } else {
        FeedFailed(Plain, limit, rx.(failed := true), rest);
        assert rx.out + [] == rx.out;
      }
    }
  }

  lemma SeekablePrefixStep(q: seq<Outgoing>)
    ensures if |q| == 0 || !Seekable(q[0].msg) then SeekablePrefix(q) == [] && Normals([]) == []
      else
        && |SeekablePrefix(q)| == 1 + |SeekablePrefix(q[1..])|
        && Normals(SeekablePrefix(q)) == [Normal(q[0].msg)] + Normals(SeekablePrefix(q[1..]))
  {
    hide Seekable, Normals;
    if |q| > 0 && Seekable(q[0].msg) {
      NormalsCons(q[0], SeekablePrefix(q[1..]));
    } else {
      NormalsNil();
    }
  }

  lemma NormalsNil()
    ensures Normals([]) == []
  {
  }

  lemma NormalsCons(o: Outgoing, q: seq<Outgoing>)
    ensures Normals([o] + q) == [Normal(o.msg)] + Normals(q)
  {
    hide Normal;
  }

  lemma FeedFailed(kind: Kind, limit: nat, rx: Rx, s: Buffer)
    requires rx.failed
    ensures Feed(kind, limit, rx, s) == rx
  {
  }

  lemma FeedNothing(kind: Kind, limit: nat, rx: Rx)
    ensures Feed(kind, limit, rx, []) == rx
  {
  }

  lemma PlainKeepsCache(c: Cache, o: Outgoing)
    ensures Encode(Plain, c, o).cache == c
  {
  }

  /** Whatever form the templating gateway chooses, the body is no longer than the flattened Message. */
  lemma SendFrameShape(h: NameHash, U: set<Layout>, limit: nat, c: Cache, m: Message, okay: bool)
    returns (body: Buffer, create: bool, payloadOnly: bool)
    requires Collisionless(h, U) && Sound(h, U, c.slots) && Sendable(U, m, okay)
    ensures Send(h, limit, c, m, okay).frame == Frame(body, create, payloadOnly) && |body| <= FlattenedSize(m)
  {
    hide Frame, Flatten, W32, TemplateHash, LayoutHash, LayoutOf, Template, AddTemplate, FlattenedSize, Valid, NonEmpty,
      TemplatedBytes, LayoutSize, IndexOf;
    body, create, payloadOnly := Flatten(m), false, false;
    FlattenFillsSize(m);
    if |m.entries| == 0 {
      body := W32(m.what);
      NeverTiny(m);
    } else if okay {
      HashIsOfLayout(h, m);
      var i := IndexOf(c.slots, TemplateHash(h, m));
      if i < |c.slots| {
        SlotFits(h, U, c.slots[i], m);
        body, payloadOnly := ToLE(TemplateHash(h, m), 8) + TemplatedBytes(m, c.slots[i].template), true;
      } else {
        create := Template(m).Ok?;
      }
    }
  }

  lemma NeverTiny(m: Message)
    ensures FlattenedSize(m) >= 12
  {
  }

  lemma SlotFits(h: NameHash, U: set<Layout>, s: Cached, m: Message)
    requires Collisionless(h, U) && SoundSlot(h, U, s) && Sendable(U, m, true) && s.id == LayoutHash(h, LayoutOf(m))
    ensures 8 + |TemplatedBytes(m, s.template)| <= FlattenedSize(m)
  {
    hide LayoutOf, LayoutHash, Valid, NonEmpty, TemplatedBytes, FlattenedSize, LayoutSize;
    PayloadNoLarger(m, s.template);
    TemplatedRoundTrip(m, s.template);
  }

  lemma FrameIsFramed(h: NameHash, limit: nat, maxIncoming: nat, body: Buffer, create: bool, payloadOnly: bool)
    requires |body| < TWO31 && |body| <= maxIncoming
    ensures Framed(Templating(h, limit), maxIncoming, Frame(body, create, payloadOnly))
  {
    hide W32, R32;
    HeaderOf(SetTopBit(|body|, create), SetTopBit(ENCODING_DEFAULT, payloadOnly), body);
  }

  /** Two templating gateways, connected by a stream in pieces of any size: from caches in lockstep, everything queued
      is delivered in order as its flattenable part, and the caches are in lockstep again. */
  lemma {:induction false} TemplatingStream(h: NameHash, U: set<Layout>, limit: nat, maxIncoming: nat, c: Cache, rx: Rx,
                                            q: seq<Outgoing>)
    requires Collisionless(h, U) && Lockstep(h, U, c, rx.cache) && !rx.failed && rx.buf == []
    requires forall o <- q :: Sendable(U, o.msg, o.okay) && FlattenedSize(o.msg) <= maxIncoming
    ensures var kind := Templating(h, limit);
      var rx' := Feed(kind, maxIncoming, rx, Wire(kind, c, q));
      && rx'.out == rx.out + Normals(q) && !rx'.failed && rx'.buf == []
      && Lockstep(h, U, CacheAfter(kind, c, q), rx'.cache)
    decreases |q|
  {
    hide Collisionless, Lockstep, Sendable, Send, Receive, Feed, FlattenedSize, Normal, BodySize, Frame;
    var kind := Templating(h, limit);
    if |q| == 0 {
      FeedNothing(kind, maxIncoming, rx);
      assert rx.out + Normals(q) == rx.out;
    } else {
      var e := Encode(kind, c, q[0]);
      SendableSize(U, q[0]);
      LockstepSound(h, U, c, rx.cache);
      var body, create, payloadOnly := SendFrameShape(h, U, limit, c, q[0].msg, q[0].okay);
      FrameIsFramed(h, limit, maxIncoming, body, create, payloadOnly);
      DeliverOne(h, U, limit, c, rx.cache, q[0].msg, q[0].okay);
      FeedAppend(kind, maxIncoming, rx, e.frame, Wire(kind, e.cache, q[1..]));
      FeedFrame(kind, maxIncoming, rx, e.frame);
      var rx1 := Deliver(kind, rx.(buf := e.frame));
      TemplatingStream(h, U, limit, maxIncoming, e.cache, rx1, q[1..]);
      assert Normals(q) == [Normal(q[0].msg)] + Normals(q[1..]);
      assert rx1.out + Normals(q[1..]) == rx.out + Normals(q);
    }
  }

  lemma SendableSize(U: set<Layout>, o: Outgoing)
    requires Sendable(U, o.msg, o.okay)
    ensures FlattenedSize(o.msg) < TWO31
  {
  }

  lemma LockstepSound(h: NameHash, U: set<Layout>, out: Cache, inc: Cache)
    requires Lockstep(h, U, out, inc)
    ensures Sound(h, U, out.slots)
  {
  }

  /** End to end, from two new gateways and over every chunking. */
  lemma TemplatingEndToEnd(h: NameHash, U: set<Layout>, limit: nat, maxIncoming: nat, q: seq<Outgoing>,
                           chunks: seq<Buffer>)
    requires Collisionless(h, U)
    requires forall o <- q :: Sendable(U, o.msg, o.okay) && FlattenedSize(o.msg) <= maxIncoming
    requires Concat(chunks) == Wire(Templating(h, limit), EMPTY_CACHE, q)
    ensures FeedChunks(Templating(h, limit), maxIncoming, NEW_RX, chunks).out == Normals(q)
  {
    hide Collisionless, Lockstep, Sendable, Feed, FeedChunks, Wire, Concat;
    FreshCachesAreInLockstep(h, U);
    ChunksDoNotMatter(Templating(h, limit), maxIncoming, NEW_RX, chunks);
    TemplatingStream(h, U, limit, maxIncoming, EMPTY_CACHE, NEW_RX, q);
  }

  /** The same for two plain gateways. */
  lemma PlainEndToEnd(maxIncoming: nat, q: seq<Outgoing>, chunks: seq<Buffer>)
    requires forall o <- q ::
      Valid(o.msg) && FlattenedSize(o.msg) < TWO32 - HEADER_SIZE && FlattenedSize(o.msg) <= maxIncoming
    requires Concat(chunks) == Wire(Plain, EMPTY_CACHE, q)
    ensures var rx := FeedChunks(Plain, maxIncoming, NEW_RX, chunks);
      && rx.out == Normals(SeekablePrefix(q))
      && (rx.out == Normals(q) && !rx.failed <==> forall o <- q :: Seekable(o.msg))
  {
    hide Feed, FeedChunks, Wire, Concat, Valid, FlattenedSize, Seekable, SeekablePrefix;
    ChunksDoNotMatter(Plain, maxIncoming, NEW_RX, chunks);
    PlainStream(maxIncoming, EMPTY_CACHE, NEW_RX, q);
    assert [] + Normals(SeekablePrefix(q)) == Normals(SeekablePrefix(q));
    AllSeekable(q);
  }

  lemma {:induction false} AllSeekable(q: seq<Outgoing>)
    ensures |SeekablePrefix(q)| == |q| <==> forall o <- q :: Seekable(o.msg)
    decreases |q|
  {
    hide Seekable;
    if |q| > 0 {
      AllSeekable(q[1..]);
      assert q == [q[0]] + q[1..];
    }
  }

  lemma {:induction false} FeedOnlyAdds(kind: Kind, limit: nat, rx: Rx, s: Buffer)
    ensures rx.out <= Feed(kind, limit, rx, s).out
    decreases |s|
  {
    hide BodySize, Decode;
    if |s| > 0 && !rx.failed {
      FeedOnlyAdds(kind, limit, Examine(kind, limit, rx.(buf := rx.buf + [s[0]])), s[1..]);
    }
  }

  /** At every moment, with only part of the stream across, what has been delivered is a prefix of what was queued. */
  lemma PartOfTheStream(h: NameHash, U: set<Layout>, limit: nat, maxIncoming: nat, q: seq<Outgoing>, arrived: Buffer)
    requires Collisionless(h, U)
    requires forall o <- q :: Sendable(U, o.msg, o.okay) && FlattenedSize(o.msg) <= maxIncoming
    requires arrived <= Wire(Templating(h, limit), EMPTY_CACHE, q)
    ensures Feed(Templating(h, limit), maxIncoming, NEW_RX, arrived).out <= Normals(q)
  {
    hide Collisionless, Lockstep, Sendable, Feed, Wire;
    var kind, rx, wire := Templating(h, limit), NEW_RX, Wire(Templating(h, limit), EMPTY_CACHE, q);
    FreshCachesAreInLockstep(h, U);
    TemplatingStream(h, U, limit, maxIncoming, EMPTY_CACHE, rx, q);
    var rest := wire[|arrived|..];
    assert wire == arrived + rest;
    FeedAppend(kind, maxIncoming, rx, arrived, rest);
    FeedOnlyAdds(kind, maxIncoming, Feed(kind, maxIncoming, rx, arrived), rest);
    assert [] + Normals(q) == Normals(q);
  }

  // ---- the gateway object ----

  class MessageIOGateway {
    const kind: Kind
    const maxIncomingMessageSize: nat
    var outgoing: seq<Outgoing>
    var sendCache: Cache
    var sendBuffer: Option<Buffer>
    var sendOffset: nat
    var recvBuffer: Buffer     // the first _offset bytes of _recvBuffer
    var recvSize: nat          // how many bytes the current frame has, once its header is in
    var recvCache: Cache
    var failed: bool
    ghost var enqueued: seq<Outgoing>   // everything ever accepted for sending
    ghost var wire: Buffer              // everything ever written
    ghost var consumed: Buffer          // everything ever read
    ghost var delivered: seq<Message>

    ghost predicate Valid()
      reads this
    {
      SendValid() && RecvValid()
    }

    /** What is on the wire, the unsent tail and the flattened queue make up the flattening of everything enqueued. */
    ghost predicate SendValid()
      reads this`outgoing, this`sendCache, this`sendBuffer, this`sendOffset, this`enqueued, this`wire
    {
      (sendBuffer.Some? ==> sendOffset <= |sendBuffer.value|)
      && wire + Unsent() == Wire(kind, EMPTY_CACHE, enqueued)
      && CacheAfter(kind, sendCache, outgoing) == CacheAfter(kind, EMPTY_CACHE, enqueued)
    }

    ghost predicate RecvValid()
      reads this`recvBuffer, this`recvSize, this`recvCache, this`failed, this`delivered, this`consumed
    {
      (!failed ==> Partial(kind, maxIncomingMessageSize, Abs()))
      && (!failed && |recvBuffer| >= HEADER_SIZE ==> recvSize == Wanted(kind, recvBuffer))
      && Abs() == Feed(kind, maxIncomingMessageSize, NEW_RX, consumed)
    }

    ghost function Abs(): Rx
      reads this`recvBuffer, this`recvCache, this`failed, this`delivered
    {
      Rx(recvBuffer, recvCache, delivered, failed)
    }

    /** Everything accepted for sending and not yet written. */
    ghost function Unsent(): Buffer
      requires sendBuffer.Some? ==> sendOffset <= |sendBuffer.value|
      reads this`outgoing, this`sendCache, this`sendBuffer, this`sendOffset
    {
      (if sendBuffer.Some? then sendBuffer.value[sendOffset..] else []) + Wire(kind, sendCache, outgoing)
    }

    constructor (kind: Kind, maxIncomingMessageSize: nat)
      ensures Valid() && this.kind == kind && this.maxIncomingMessageSize == maxIncomingMessageSize
      ensures Abs() == NEW_RX && enqueued == [] && wire == [] && consumed == []
    {
      this.kind, this.maxIncomingMessageSize := kind, maxIncomingMessageSize;
      outgoing, sendCache, sendBuffer, sendOffset := [], EMPTY_CACHE, None, 0;
      recvBuffer, recvSize, recvCache, failed, delivered := [], 0, EMPTY_CACHE, false, [];
      enqueued, wire, consumed := [], [], [];
    }

    method AddOutgoingMessage(o: Outgoing)
      requires Valid()
      modifies this`outgoing, this`enqueued
      ensures Valid() && outgoing == old(outgoing) + [o] && enqueued == old(enqueued) + [o]
      ensures Unsent() == old(Unsent()) + Encode(kind, CacheAfter(kind, EMPTY_CACHE, old(enqueued)), o).frame
      ensures CacheAfter(kind, sendCache, outgoing)
        == Encode(kind, CacheAfter(kind, EMPTY_CACHE, old(enqueued)), o).cache
    {
      hide Encode, RecvValid, Wire, CacheAfter;
      WireSnoc(kind, sendCache, outgoing, o);
      WireSnoc(kind, EMPTY_CACHE, enqueued, o);
      outgoing, enqueued := outgoing + [o], enqueued + [o];
    }

    /** Flattens the next Message into the send buffer. */
    method NextSendBuffer()
      requires Valid() && sendBuffer.None? && |outgoing| > 0
      modifies this`outgoing, this`sendCache, this`sendBuffer, this`sendOffset
      ensures Valid() && Unsent() == old(Unsent()) && outgoing == old(outgoing)[1..]
      ensures sendBuffer.Some? && sendOffset == 0
      ensures CacheAfter(kind, sendCache, outgoing) == old(CacheAfter(kind, sendCache, outgoing))
    {
      hide Encode, RecvValid, Wire, CacheAfter;
      WireCons(kind, sendCache, outgoing);
      var e := Encode(kind, sendCache, outgoing[0]);
      sendBuffer, sendOffset, sendCache, outgoing := Some(e.frame), 0, e.cache, outgoing[1..];
    }

    /** SendMoreData() writes n bytes, and a finished buffer is dropped. */
    method SendMoreData(n: nat) returns (bytes: Buffer)
      requires Valid() && sendBuffer.Some? && sendOffset + n <= |sendBuffer.value|
      modifies this`sendBuffer, this`sendOffset, this`wire
      ensures Valid() && |bytes| == n && bytes + Unsent() == old(Unsent()) && wire == old(wire) + bytes
      ensures if old(sendOffset) + n == |old(sendBuffer).value| then sendBuffer == None
              else sendBuffer == old(sendBuffer) && sendOffset == old(sendOffset) + n
    {
      hide Wire, RecvValid, CacheAfter;
      ghost var owed := Unsent();
      var b := sendBuffer.value;
      bytes := b[sendOffset..sendOffset + n];
      WriteFrom(b, sendOffset, n, Wire(kind, sendCache, outgoing));
      sendOffset := sendOffset + n;
      if sendOffset == |b| { sendBuffer := None; }
      WrittenThen(wire, bytes, Unsent(), Wire(kind, EMPTY_CACHE, enqueued), owed);
      wire := wire + bytes;
    }

    lemma NothingUnsent()
      requires sendBuffer.None? && outgoing == []
      ensures Unsent() == []
    {
    }

    /** The output loop; willingness is how many bytes the DataIO accepts at this time. */
    method DoOutput(maxBytes: nat, willingness: nat) returns (written: Buffer)
      requires Valid()
      modifies this`outgoing, this`sendCache, this`sendBuffer, this`sendOffset, this`wire
      ensures Valid() && written + Unsent() == old(Unsent()) && wire == old(wire) + written
      ensures CacheAfter(kind, sendCache, outgoing) == old(CacheAfter(kind, sendCache, outgoing))
      ensures |written| <= maxBytes && |written| <= willingness
      ensures |written| < maxBytes && |written| < willingness ==> Unsent() == []
    {
      hide Wire, Encode, Unsent, CacheAfter, RecvValid;
      written := [];
      while |written| < maxBytes
        invariant Valid() && written + Unsent() == old(Unsent()) && |written| <= maxBytes && |written| <= willingness
        invariant wire == old(wire) + written
        invariant CacheAfter(kind, sendCache, outgoing) == old(CacheAfter(kind, sendCache, outgoing))
        decreases |outgoing|, if sendBuffer.Some? then 1 else 0, maxBytes - |written|
      {
        if sendBuffer.None? {
          if |outgoing| == 0 {
            NothingUnsent();
            break;
          }
          NextSendBuffer();
        }
        var attemptSize := |sendBuffer.value| - sendOffset;
        if maxBytes - |written| < attemptSize { attemptSize := maxBytes - |written|; }
        var n := if willingness - |written| < attemptSize then willingness - |written| else attemptSize;
        ghost var owed := Unsent();
        var bytes := SendMoreData(n);
        WrittenThen(written, bytes, Unsent(), old(Unsent()), owed);
        written := written + bytes;
        if n < attemptSize { break; }
      }
    }

    /** One read, appended to the receive buffer and acted upon. */
    method ReceiveMoreData(s: Buffer)
      requires Valid() && !failed && 0 < |s| && |recvBuffer| + |s| <= Wanted(kind, recvBuffer)
      modifies this`recvBuffer, this`recvSize, this`recvCache, this`failed, this`delivered, this`consumed
      ensures Valid() && Abs() == Feed(kind, maxIncomingMessageSize, old(Abs()), s) && consumed == old(consumed) + s
    {
      hide Feed, BodySize, Decode, SendValid;
      FeedRead(kind, maxIncomingMessageSize, Abs(), s);
      FeedAppend(kind, maxIncomingMessageSize, NEW_RX, consumed, s);
      consumed := consumed + s;
      var hadHeader := |recvBuffer| >= HEADER_SIZE;
      assert hadHeader ==> (recvBuffer + s)[..HEADER_SIZE] == recvBuffer[..HEADER_SIZE];
      recvBuffer := recvBuffer + s;
      if !hadHeader && |recvBuffer| >= HEADER_SIZE {
        var bodySize := BodySize(kind, recvBuffer[..HEADER_SIZE]);
        if bodySize.None? || bodySize.value > maxIncomingMessageSize {
          failed := true;
          return;
        }
        recvSize := HEADER_SIZE + bodySize.value;
      }
      if |recvBuffer| >= HEADER_SIZE && |recvBuffer| == recvSize {
        var r := Decode(kind, recvCache, recvBuffer);
        recvBuffer, recvCache := [], r.cache;
        if r.message.Ok? {
          delivered := delivered + [r.message.value];
        } else {
          failed := true;
        }
      }
    }

    /** The input loop: no read goes past the end of the current header or frame. */
    method DoInput(available: Buffer, maxBytes: nat) returns (n: nat)
      requires Valid()
      modifies this`recvBuffer, this`recvSize, this`recvCache, this`failed, this`delivered, this`consumed
      ensures Valid() && n <= |available| && n <= maxBytes && consumed == old(consumed) + available[..n]
      ensures !failed ==> n == |available| || n == maxBytes
      ensures Abs() == Feed(kind, maxIncomingMessageSize, old(Abs()), available[..n])
    {
      hide Feed, Partial, BodySize, Wire, Wanted, CacheAfter, SendValid;
      n := 0;
      assert available[..0] == [];
      FeedNothing(kind, maxIncomingMessageSize, Abs());
      while n < |available| && n < maxBytes && !failed
        invariant Valid() && n <= |available| && n <= maxBytes && consumed == old(consumed) + available[..n]
        invariant Abs() == Feed(kind, maxIncomingMessageSize, old(Abs()), available[..n])
        decreases |available| - n
      {
        PartialWants(kind, maxIncomingMessageSize, Abs());
        var attemptSize := (if |recvBuffer| < HEADER_SIZE then HEADER_SIZE else recvSize) - |recvBuffer|;
        if maxBytes - n < attemptSize { attemptSize := maxBytes - n; }
        if |available| - n < attemptSize { attemptSize := |available| - n; }
        var s := available[n..|available|][..attemptSize];
        NextBytes(available, n, |available|, attemptSize);
        FeedAppend(kind, maxIncomingMessageSize, old(Abs()), available[..n], s);
        ReceiveMoreData(s);
        n := n + attemptSize;
      }
    }
  }

  lemma PartialWants(kind: Kind, limit: nat, rx: Rx)
    requires Partial(kind, limit, rx)
    ensures |rx.buf| < Wanted(kind, rx.buf)
    ensures |rx.buf| < HEADER_SIZE ==> Wanted(kind, rx.buf) == HEADER_SIZE
  {
  }

  // ---- two gateway objects ----

  /** Whatever calls have been made on either side: as long as the receiver has read a part of what the sender has
      written, it has delivered a prefix of what was enqueued, and once nothing is left to write or to read, all of
      it. */
  lemma TemplatingGatewaysDeliver(h: NameHash, U: set<Layout>, limit: nat, tx: MessageIOGateway, rx: MessageIOGateway)
    requires tx.Valid() && rx.Valid() && tx.kind == rx.kind == Templating(h, limit) && Collisionless(h, U)
    requires forall o <- tx.enqueued :: Sendable(U, o.msg, o.okay) && FlattenedSize(o.msg) <= rx.maxIncomingMessageSize
    requires rx.consumed <= tx.wire
    ensures rx.delivered <= Normals(tx.enqueued)
    ensures rx.consumed == tx.wire && tx.Unsent() == [] ==> rx.delivered == Normals(tx.enqueued) && !rx.failed
    ensures rx.consumed == tx.wire && tx.Unsent() == [] ==>
      Lockstep(h, U, CacheAfter(tx.kind, tx.sendCache, tx.outgoing), rx.recvCache)
  {
    hide Collisionless, Lockstep, Sendable, Feed, Wire, CacheAfter, FlattenedSize, Partial, Wanted;
    var wire := Wire(tx.kind, EMPTY_CACHE, tx.enqueued);
    assert tx.wire + tx.Unsent() == wire;
    assert rx.consumed <= wire;
    PartOfTheStream(h, U, limit, rx.maxIncomingMessageSize, tx.enqueued, rx.consumed);
    FreshCachesAreInLockstep(h, U);
    TemplatingStream(h, U, limit, rx.maxIncomingMessageSize, EMPTY_CACHE, NEW_RX, tx.enqueued);
    assert [] + Normals(tx.enqueued) == Normals(tx.enqueued);
    assert tx.Unsent() == [] ==> tx.wire == wire;
  }

  /** The same for plain gateways. */
  lemma PlainGatewaysDeliver(tx: MessageIOGateway, rx: MessageIOGateway)
    requires tx.Valid() && rx.Valid() && tx.kind == rx.kind == Plain
    requires forall o <- tx.enqueued ::
      Valid(o.msg) && FlattenedSize(o.msg) < TWO32 - HEADER_SIZE && FlattenedSize(o.msg) <= rx.maxIncomingMessageSize
    requires rx.consumed <= tx.wire
    ensures rx.delivered <= Normals(SeekablePrefix(tx.enqueued))
    ensures rx.consumed == tx.wire && tx.Unsent() == [] ==>
      && rx.delivered == Normals(SeekablePrefix(tx.enqueued))
      && (rx.delivered == Normals(tx.enqueued) && !rx.failed <==> forall o <- tx.enqueued :: Seekable(o.msg))
  {
    hide Feed, Wire, CacheAfter, FlattenedSize, Valid, Partial, Wanted, Seekable, SeekablePrefix;
    var wire := Wire(Plain, EMPTY_CACHE, tx.enqueued);
    assert tx.wire + tx.Unsent() == wire;
    PlainStream(rx.maxIncomingMessageSize, EMPTY_CACHE, NEW_RX, tx.enqueued);
    var rest := wire[|rx.consumed|..];
    assert wire == rx.consumed + rest;
    FeedAppend(Plain, rx.maxIncomingMessageSize, NEW_RX, rx.consumed, rest);
    FeedOnlyAdds(Plain, rx.maxIncomingMessageSize, rx.Abs(), rest);
    AllSeekable(tx.enqueued);
    var readable := Normals(SeekablePrefix(tx.enqueued));
    assert [] + readable == readable;
    assert tx.Unsent() == [] ==> tx.wire == wire;
  }
}
