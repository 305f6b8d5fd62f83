/** What makes the template caches LRU caches: over every run they are ordered by the last use of their IDs, they give
    up what was used longest ago and no more of it than they must, and a Message is sent without its layout exactly when
    its ID is cached. */
module TemplateRecency {
  import opened Bytes
  import opened Messages
  import opened Unflattening
  import opened Templates
  import opened TemplatedCodec
  import opened TemplatingGateway

  // ---- uses ----

  predicate Holds(c: Cache, id: nat) {
    exists i :: 0 <= i < |c.slots| && c.slots[i].id == id
  }

  /** Whether sending a Message makes use of a template, one that is cached or one that can be made. */
  predicate UsesTemplate(h: NameHash, c: Cache, o: Outgoing) {
    |o.msg.entries| > 0 && o.okay && (Holds(c, TemplateHash(h, o.msg)) || Template(o.msg).Ok?)
  }

  function UseOf(h: NameHash, c: Cache, o: Outgoing): seq<nat> {
    if UsesTemplate(h, c, o) then [TemplateHash(h, o.msg)] else []
  }

  /** The IDs of the Messages of a run that make use of a template, in the order of sending. */
  function UsesOf(h: NameHash, limit: nat, c: Cache, msgs: seq<Outgoing>): seq<nat>
    decreases |msgs|
  {
    if |msgs| == 0 then []
    else UseOf(h, c, msgs[0]) + UsesOf(h, limit, Send(h, limit, c, msgs[0].msg, msgs[0].okay).cache, msgs[1..])
  }

  /** When an ID was last used, counting from one; zero if never. */
  function LastUse(uses: seq<nat>, id: nat): (n: nat)
    ensures n <= |uses|
    decreases |uses|
  {
    if |uses| == 0 then 0
    else if uses[|uses| - 1] == id then |uses|
    else LastUse(uses[..|uses| - 1], id)
  }

  /** The cache holds used IDs only, the one used last in front, and the others by how long ago they were used. */
  predicate OrderedByUse(c: Cache, uses: seq<nat>) {
    && (forall i :: 0 <= i < |c.slots| ==> LastUse(uses, c.slots[i].id) > 0)
    && (forall i, j :: 0 <= i < j < |c.slots| ==> LastUse(uses, c.slots[i].id) > LastUse(uses, c.slots[j].id))
    && (|uses| > 0 ==> |c.slots| > 0 && c.slots[0].id == uses[|uses| - 1])
  }

  lemma LastUseSnoc(uses: seq<nat>, id: nat, x: nat)
    ensures LastUse(uses + [id], x) == if x == id then |uses| + 1 else LastUse(uses, x)
  {
    assert (uses + [id])[..|uses|] == uses;
  }

  // ---- one step ----

  lemma MoveKeepsOrder(c: Cache, uses: seq<nat>, i: nat)
    requires OrderedByUse(c, uses) && i < |c.slots|
    ensures OrderedByUse(MoveToFront(c, i), uses + [c.slots[i].id])
  {
    hide LastUse, MoveToFront;
    var id := c.slots[i].id;
    forall x { LastUseSnoc(uses, id, x); }
    MovedSlots(c, i);
    assert forall k :: 0 <= k < |c.slots| && k != i ==> c.slots[k].id != id;
  }

  lemma AddKeepsOrder(limit: nat, c: Cache, uses: seq<nat>, id: nat, t: Message)
    requires OrderedByUse(c, uses) && !Holds(c, id)
    ensures OrderedByUse(AddTemplate(limit, c, id, t), uses + [id])
  {
    hide LastUse, FlattenedSize, Trim;
    forall x { LastUseSnoc(uses, id, x); }
    var grown := Cache([Cached(id, t)] + c.slots, (c.tally + FlattenedSize(t)) % TWO32);
    assert forall k :: 0 < k < |grown.slots| ==> grown.slots[k] == c.slots[k - 1];
    TrimKeepsFirst(limit, grown);
    assert forall k :: 0 <= k < |Trim(limit, grown).slots| ==> Trim(limit, grown).slots[k] == grown.slots[k];
  }

  lemma HeldIndex(c: Cache, id: nat)
    ensures Holds(c, id) <==> IndexOf(c.slots, id) < |c.slots|
  {
  }

  /** One Message keeps the order. */
  lemma SendKeepsOrder(h: NameHash, limit: nat, c: Cache, uses: seq<nat>, o: Outgoing)
    requires OrderedByUse(c, uses)
    ensures OrderedByUse(Send(h, limit, c, o.msg, o.okay).cache, uses + UseOf(h, c, o))
  {
    hide OrderedByUse, IndexOf, MoveToFront, AddTemplate, TemplateHash, Template, Frame, Flatten, Holds, TemplatedBytes;
    var id := TemplateHash(h, o.msg);
    HeldIndex(c, id);
    assert uses + [] == uses;
    if UsesTemplate(h, c, o) {
      if Holds(c, id) {
        MoveKeepsOrder(c, uses, IndexOf(c.slots, id));
      } else {
        AddKeepsOrder(limit, c, uses, id, Template(o.msg).value);
      }
    }
  }

  // ---- whole runs ----

  /** After every run the sender's cache is ordered by the last use of its IDs. */
  lemma {:induction false} SendRunIsOrdered(h: NameHash, limit: nat, c: Cache, uses: seq<nat>, msgs: seq<Outgoing>)
    requires OrderedByUse(c, uses)
    ensures OrderedByUse(SendAll(h, limit, c, msgs).cache, uses + UsesOf(h, limit, c, msgs))
    decreases |msgs|
  {
    hide OrderedByUse, Send, UseOf;
    if |msgs| == 0 {
      assert uses + [] == uses;
    } else {
      var c1, use := Send(h, limit, c, msgs[0].msg, msgs[0].okay).cache, UseOf(h, c, msgs[0]);
      SendKeepsOrder(h, limit, c, uses, msgs[0]);
      SendRunIsOrdered(h, limit, c1, uses + use, msgs[1..]);
      assert uses + use + UsesOf(h, limit, c1, msgs[1..]) == uses + (use + UsesOf(h, limit, c1, msgs[1..]));
    }
  }

  /** And so is the receiver's, by the last use of the IDs of the Messages sent to it. */
  lemma ReceiveRunIsOrdered(h: NameHash, U: set<Layout>, limit: nat, out: Cache, inc: Cache, uses: seq<nat>,
                            msgs: seq<Outgoing>)
    requires Collisionless(h, U) && Lockstep(h, U, out, inc) && OrderedByUse(out, uses)
    requires forall i :: 0 <= i < |msgs| ==> Sendable(U, msgs[i].msg, msgs[i].okay)
    ensures var frames := SendAll(h, limit, out, msgs).frames;
      OrderedByUse(ReceiveAll(h, limit, inc, frames).cache, uses + UsesOf(h, limit, out, msgs))
  {
    hide Collisionless, Sendable, SendAll, ReceiveAll, Sound, UsesOf, LastUse;
    DeliverAll(h, U, limit, out, inc, msgs);
    SendRunIsOrdered(h, limit, out, uses, msgs);
  }

  /** New gateways start ordered. */
  lemma NewCacheIsOrdered()
    ensures OrderedByUse(EMPTY_CACHE, [])
  {
  }

  // ---- evictions ----

  /** Whatever sending a Message evicts was used longer ago than everything that stays. */
  lemma EvictedIsLeastRecent(h: NameHash, limit: nat, c: Cache, uses: seq<nat>, o: Outgoing, gone: nat, kept: nat)
    requires OrderedByUse(c, uses)
    requires var c' := Send(h, limit, c, o.msg, o.okay).cache; Holds(c, gone) && !Holds(c', gone) && Holds(c', kept)
    ensures var uses' := uses + UseOf(h, c, o); LastUse(uses', gone) < LastUse(uses', kept)
  {
    hide IndexOf, TemplateHash, Template, Frame, Flatten, TemplatedBytes, LastUse, Trim, FlattenedSize;
    var id := TemplateHash(h, o.msg);
    HeldIndex(c, id);
    var c' := Send(h, limit, c, o.msg, o.okay).cache;
    if UsesTemplate(h, c, o) && Holds(c, id) {
      MovedHolds(c, IndexOf(c.slots, id), gone);
      assert false;
    } else if UsesTemplate(h, c, o) {
      var grown := Cache([Cached(id, Template(o.msg).value)] + c.slots,
                         (c.tally + FlattenedSize(Template(o.msg).value)) % TWO32);
      LastUseSnoc(uses, id, gone);
      LastUseSnoc(uses, id, kept);
      var i :| 0 <= i < |c.slots| && c.slots[i].id == gone;
      var k :| 0 <= k < |c'.slots| && c'.slots[k].id == kept;
      assert grown.slots[i + 1] == c.slots[i];
      assert c'.slots[k] == grown.slots[k];
      assert i + 1 >= |c'.slots|;
    }
  }

  lemma MovedHolds(c: Cache, i: nat, id: nat)
    requires i < |c.slots|
    ensures Holds(c, id) <==> Holds(MoveToFront(c, i), id)
  {
    hide MoveToFront;
    MovedSlots(c, i);
    var moved := MoveToFront(c, i);
    if k :| 0 <= k < |c.slots| && c.slots[k].id == id {
      assert moved.slots[if k == i then 0 else if k < i then k + 1 else k] == c.slots[k];
    }
  }

  lemma MovedSlots(c: Cache, i: nat)
    requires i < |c.slots|
    ensures var moved := MoveToFront(c, i).slots;
      && |moved| == |c.slots|
      && forall k :: 0 <= k < |moved| ==> moved[k] == c.slots[if k == 0 then i else if k <= i then k - 1 else k]
  {
  }

  /** Trimming gives up no more than it must: what stays is within the limit or a single slot, and with the next slot it
      would be over the limit. */
  lemma {:induction false} TrimGivesUpNoMore(limit: nat, c: Cache)
    requires c.tally == CacheSum(c.slots)
    ensures var r := Trim(limit, c);
      && r.slots <= c.slots && r.tally == CacheSum(r.slots)
      && (r.tally <= limit || |r.slots| <= 1)
      && (|r.slots| < |c.slots| ==> CacheSum(c.slots[..|r.slots| + 1]) > limit)
    decreases |c.slots|
  {
    hide FlattenedSize, CacheSum;
    if |c.slots| > 1 && c.tally > limit {
      var n := |c.slots| - 1;
      var last := FlattenedSize(c.slots[n].template);
      LastSlot(c.slots);
      var shorter := Cache(c.slots[..n], c.tally - last);
      TrimGivesUpNoMore(limit, shorter);
      var r := Trim(limit, shorter);
      if |r.slots| < n {
        assert shorter.slots[..|r.slots| + 1] == c.slots[..|r.slots| + 1];
      } else {
        assert c.slots[..n + 1] == c.slots;
      }
    }
  }

  lemma LastSlot(slots: seq<Cached>)
    requires |slots| > 0
    ensures var n := |slots| - 1; CacheSum(slots) == CacheSum(slots[..n]) + FlattenedSize(slots[n].template)
  {
    hide FlattenedSize;
  }

  // ---- the form of a frame ----

  /** The two flag bits on the wire, in the top bytes of the two header words: a frame carries a payload only exactly
      when the Message's ID is cached, and asks for a new template exactly when it is not and one can be made. */
  lemma FormOfFrame(h: NameHash, limit: nat, c: Cache, o: Outgoing)
    requires |Send(h, limit, c, o.msg, o.okay).frame| < TWO31 + 8
    ensures var frame := Send(h, limit, c, o.msg, o.okay).frame;
      && |frame| >= 8
      && (frame[7] >= 128 <==> UsesTemplate(h, c, o) && Holds(c, TemplateHash(h, o.msg)))
      && (frame[3] >= 128 <==> UsesTemplate(h, c, o) && !Holds(c, TemplateHash(h, o.msg)))
  {
    hide IndexOf, MoveToFront, AddTemplate, TemplateHash, Template, Frame, Flatten, Holds, TemplatedBytes, W32, ToLE;
    var id := TemplateHash(h, o.msg);
    HeldIndex(c, id);
    if |o.msg.entries| == 0 {
      FlagBits(W32(o.msg.what), false, false);
    } else if UsesTemplate(h, c, o) && Holds(c, id) {
      FlagBits(ToLE(id, 8) + TemplatedBytes(o.msg, c.slots[IndexOf(c.slots, id)].template), false, true);
    } else {
      FlagBits(Flatten(o.msg), UsesTemplate(h, c, o), false);
    }
  }

  /** What the receiver refuses without touching its cache: a length that is not that of the body, an encoding other
      than 'Enc0', both flags at once, or a payload whose ID is missing or not cached. */
  lemma RefusedFrames(h: NameHash, limit: nat, c: Cache, size: nat, encoding: nat, body: seq<Byte>)
    requires size < TWO32 && encoding < TWO32
    requires size % TWO31 != |body| || encoding % TWO31 != 0x456E6330 || (size >= TWO31 && encoding >= TWO31)
      || (encoding >= TWO31 && (|body| < 8 || !Holds(c, FromLE(body[..8]))))
    ensures Receive(h, limit, c, W32(size) + (W32(encoding) + body)) == RecvResult(c, Err)
  {
    hide W32, R32, ReceiveFull, IndexOf, Holds, FromLE;
    R32W32(size, W32(encoding) + body);
    R32W32(encoding, body);
    if |body| >= 8 { HeldIndex(c, FromLE(body[..8])); }
  }

  lemma FlagBits(body: seq<Byte>, create: bool, payloadOnly: bool)
    requires |Frame(body, create, payloadOnly)| < TWO31 + 8
    ensures var f := Frame(body, create, payloadOnly);
      |f| == 8 + |body| && (f[3] >= 128 <==> create) && (f[7] >= 128 <==> payloadOnly)
  {
    var a, b := W32(SetTopBit(|body|, create)), W32(SetTopBit(ENCODING_DEFAULT, payloadOnly));
    assert Frame(body, create, payloadOnly)[3] == a[3] && Frame(body, create, payloadOnly)[7] == b[3];
    TopByte(SetTopBit(|body|, create));
    TopByte(SetTopBit(ENCODING_DEFAULT, payloadOnly));
  }

  /** The last byte of a little-endian word holds its top bit. */
  lemma TopByte(w: nat)
    requires w < TWO32
    ensures |W32(w)| == 4 && (W32(w)[3] >= 128 <==> w >= TWO31)
  {
    WordIs(w);
  }
}
