/** TemplatingMessageIOGateway: two ends that keep LRU caches of templates in lockstep without ever exchanging them. */
module TemplatingGateway {
  import opened Bytes
  import opened Messages
  import opened Unflattening
  import opened Templates
  import opened TemplatedCodec
  import opened TemplateSizes

  const ENCODING_DEFAULT: nat := 1164862256

  type NameHash = seq<Byte> -> nat

  /** A cache slot: the Hashtable's key and value. */
  datatype Cached = Cached(id: nat, template: Message)

  /** An LRU cache, most recently used slot first, with its running byte tally. */
  datatype Cache = Cache(slots: seq<Cached>, tally: nat)

  const EMPTY_CACHE: Cache := Cache([], 0)

  function IndexOf(slots: seq<Cached>, id: nat): (i: nat)
    ensures i <= |slots|
    ensures i < |slots| ==> slots[i].id == id
    ensures forall j :: 0 <= j < i ==> slots[j].id != id
  {
    if |slots| == 0 || slots[0].id == id then 0 else 1 + IndexOf(slots[1..], id)
  }

  function MoveToFront(c: Cache, i: nat): Cache
    requires i < |c.slots|
  {
    Cache([c.slots[i]] + RemoveAt(c.slots, i), c.tally)
  }

  /** TrimLRUCache(): evict from the back while the tally is over the limit, but never the last slot. */
  function Trim(limit: nat, c: Cache): (r: Cache)
    ensures r.slots <= c.slots
    decreases |c.slots|
  {
    if |c.slots| > 1 && c.tally > limit then
      var last := FlattenedSize(c.slots[|c.slots| - 1].template);
      Trim(limit, Cache(c.slots[..|c.slots| - 1], if c.tally >= last then c.tally - last else 0))
    else c
  }

  /** Puts a template at the front; the tally is a 32-bit counter. */
  function AddTemplate(limit: nat, c: Cache, id: nat, t: Message): Cache {
    Trim(limit, Cache([Cached(id, t)] + c.slots, (c.tally + FlattenedSize(t)) % TWO32))
  }

  // ---- frames ----

  /** Bitwise-or of a 32-bit word with its top bit. */
  function SetTopBit(w: nat, b: bool): nat {
    if b && w % TWO32 < TWO31 then w + TWO31 else w
  }

  function Frame(body: seq<Byte>, create: bool, payloadOnly: bool): seq<Byte> {
    W32(SetTopBit(|body|, create)) + (W32(SetTopBit(ENCODING_DEFAULT, payloadOnly)) + body)
  }

  datatype SendResult = SendResult(cache: Cache, frame: seq<Byte>)

  /** FlattenHeaderAndMessage(); okay is the answer of IsOkayToTemplatizeMessage(). */
  function Send(h: NameHash, limit: nat, c: Cache, m: Message, okay: bool): SendResult {
    if |m.entries| == 0 then SendResult(c, Frame(W32(m.what), false, false))
    else if !okay then SendResult(c, Frame(Flatten(m), false, false))
    else
      var id := TemplateHash(h, m);
      var i := IndexOf(c.slots, id);
      if i < |c.slots| then
        SendResult(MoveToFront(c, i), Frame(ToLE(id, 8) + TemplatedBytes(m, c.slots[i].template), false, true))
      else
        match Template(m)
        case Err => SendResult(c, Frame(Flatten(m), false, false))
        case Ok(t) => SendResult(AddTemplate(limit, c, id, t), Frame(Flatten(m), true, false))
  }

  datatype RecvResult = RecvResult(cache: Cache, message: Result<Message>)

  /** UnflattenHeaderAndMessage() */
  function Receive(h: NameHash, limit: nat, c: Cache, buf: seq<Byte>): RecvResult {
    if |buf| < 8 || 8 + R32(buf) % TWO31 != |buf| || R32(buf[4..]) % TWO31 != ENCODING_DEFAULT then RecvResult(c, Err)
    else
      var create := R32(buf) >= TWO31;
      var body := buf[4..][4..];
      if R32(buf[4..]) >= TWO31 then
        if create then RecvResult(c, Err) else ReceivePayload(c, body)
      else ReceiveFull(h, limit, c, body, create)
  }

  function ReceivePayload(c: Cache, body: seq<Byte>): RecvResult {
    if |body| < 8 then RecvResult(c, Err)
    else
      var i := IndexOf(c.slots, FromLE(body[..8]));
      if i == |c.slots| then RecvResult(c, Err)
      else RecvResult(MoveToFront(c, i), TemplatedUnflatten(c.slots[i].template, body[8..]))
  }

  function ReceiveFull(h: NameHash, limit: nat, c: Cache, body: seq<Byte>, create: bool): RecvResult {
    match (if |body| == 4 then Ok(Parsed(Message(R32(body), []), 4)) else Unflatten(body))
    case Err => RecvResult(c, Err)
    case Ok(p) =>
      if !create then RecvResult(c, Ok(p.value))
      else
        match Template(p.value)
        case Err => RecvResult(c, Err)
        case Ok(t) => RecvResult(Remember(limit, c, TemplateHash(h, t), t), Ok(p.value))
  }

  /** The receiver first drops any older template that it holds under the same ID. */
  function Remember(limit: nat, c: Cache, id: nat, t: Message): Cache {
    var i := IndexOf(c.slots, id);
    if i < |c.slots| then
      var tally := (c.tally + TWO32 - FlattenedSize(c.slots[i].template) % TWO32) % TWO32;
      AddTemplate(limit, Cache(RemoveAt(c.slots, i), tally), id, t)
    else AddTemplate(limit, c, id, t)
  }

  // ---- lockstep ----

  /** Each slot holds a usable template, filed under the hash of its own layout, which is one of the layouts in U. */
  predicate Sound(h: NameHash, U: set<Layout>, slots: seq<Cached>) {
    forall i :: 0 <= i < |slots| ==> SoundSlot(h, U, slots[i])
  }

  predicate SoundSlot(h: NameHash, U: set<Layout>, s: Cached) {
    && Valid(s.template)
    && LayoutOf(s.template) in U && NonEmpty(LayoutOf(s.template))
    && s.id == LayoutHash(h, LayoutOf(s.template))
    && FlattenedSize(s.template) == LayoutSize(LayoutOf(s.template))
  }

  /** Same keys in the same LRU order, and templates of the same layout. */
  predicate Aligned(a: seq<Cached>, b: seq<Cached>) {
    && |a| == |b|
    && forall i :: 0 <= i < |a| ==> a[i].id == b[i].id && LayoutOf(a[i].template) == LayoutOf(b[i].template)
  }

  predicate Lockstep(h: NameHash, U: set<Layout>, out: Cache, inc: Cache) {
    && Sound(h, U, out.slots) && Sound(h, U, inc.slots)
    && Aligned(out.slots, inc.slots)
    && out.tally == inc.tally
  }

  /** No two of the layouts in use collide. */
  predicate Collisionless(h: NameHash, U: set<Layout>) {
    forall a, b :: a in U && b in U && LayoutHash(h, a) == LayoutHash(h, b) ==> a == b
  }

  /** What is asked of each Message: the flag bit of the length word must stay free, and a Message that is to be
      templated has no empty field. */
  predicate Sendable(U: set<Layout>, m: Message, okay: bool) {
    && Valid(m) && FlattenedSize(m) < TWO31
    && (okay ==> LayoutOf(m) in U && NonEmpty(LayoutOf(m)))
  }

  lemma {:induction false} TrimKeepsLockstep(h: NameHash, U: set<Layout>, limit: nat, out: Cache, inc: Cache)
    requires Lockstep(h, U, out, inc)
    ensures Lockstep(h, U, Trim(limit, out), Trim(limit, inc))
    decreases |out.slots|
  {
    hide SoundSlot, LayoutOf, FlattenedSize;
    if |out.slots| > 1 && out.tally > limit {
      var n := |out.slots| - 1;
      var last := FlattenedSize(out.slots[n].template);
      SameSize(h, U, out.slots[n], inc.slots[n]);
      var tally := if out.tally >= last then out.tally - last else 0;
      TrimKeepsLockstep(h, U, limit, Cache(out.slots[..n], tally), Cache(inc.slots[..n], tally));
    }
  }

  lemma SameSize(h: NameHash, U: set<Layout>, a: Cached, b: Cached)
    requires SoundSlot(h, U, a) && SoundSlot(h, U, b) && LayoutOf(a.template) == LayoutOf(b.template)
    ensures FlattenedSize(a.template) == FlattenedSize(b.template)
  {
  }

  lemma AddKeepsLockstep(h: NameHash, U: set<Layout>, limit: nat, out: Cache, inc: Cache, a: Cached, b: Cached)
    requires Lockstep(h, U, out, inc)
    requires SoundSlot(h, U, a) && SoundSlot(h, U, b) && a.id == b.id && LayoutOf(a.template) == LayoutOf(b.template)
    ensures Lockstep(h, U, AddTemplate(limit, out, a.id, a.template), AddTemplate(limit, inc, b.id, b.template))
  {
    hide SoundSlot, LayoutOf, FlattenedSize, Trim;
    SameSize(h, U, a, b);
    var tally := (out.tally + FlattenedSize(a.template)) % TWO32;
    TrimKeepsLockstep(h, U, limit, Cache([a] + out.slots, tally), Cache([b] + inc.slots, tally));
  }

  lemma MoveKeepsLockstep(h: NameHash, U: set<Layout>, out: Cache, inc: Cache, i: nat)
    requires Lockstep(h, U, out, inc) && i < |out.slots|
    ensures Lockstep(h, U, MoveToFront(out, i), MoveToFront(inc, i))
  {
    hide SoundSlot, LayoutOf;
  }

  lemma AlignedIndex(a: seq<Cached>, b: seq<Cached>, id: nat)
    requires |a| == |b| && forall i :: 0 <= i < |a| ==> a[i].id == b[i].id
    ensures IndexOf(a, id) == IndexOf(b, id)
  {
  }

  // ---- decoding a frame ----

  lemma ReceiveFrame(h: NameHash, limit: nat, c: Cache, body: seq<Byte>, create: bool, payloadOnly: bool)
    requires |body| < TWO31 && !(create && payloadOnly)
    ensures Receive(h, limit, c, Frame(body, create, payloadOnly))
         == if payloadOnly then ReceivePayload(c, body) else ReceiveFull(h, limit, c, body, create)
  {
    hide W32, R32, ReceivePayload, ReceiveFull;
    var w := W32(SetTopBit(ENCODING_DEFAULT, payloadOnly)) + body;
    R32W32(SetTopBit(|body|, create), w);
    R32W32(SetTopBit(ENCODING_DEFAULT, payloadOnly), body);
  }

  lemma {:induction false} HashFits(h: NameHash, m: Message)
    ensures TemplateHash(h, m) < TWO64
  {
    HashEntriesFit(h, m.entries, HashState(0, 0));
  }

  lemma {:induction false} HashEntriesFit(h: NameHash, es: seq<Entry>, st: HashState)
    requires st.sum < TWO64
    ensures HashEntries(h, es, st).sum < TWO64
    decreases es, 1
  {
    hide HashField;
    if |es| > 0 {
      if IsFlattenable(es[0].field.tc) {
        var st' := HashTerm(h, es[0].name, es[0].field.tc, |Items(es[0].field.rep)|, st);
        HashFieldFits(h, es[0].field, st');
        HashEntriesFit(h, es[1..], if es[0].field.tc == B_MESSAGE_TYPE then HashField(h, es[0].field, st') else st');
      } else {
        HashEntriesFit(h, es[1..], st);
      }
    }
  }

  lemma {:induction false} HashFieldFits(h: NameHash, f: Field, st: HashState)
    requires st.sum < TWO64
    ensures HashField(h, f, st).sum < TWO64
  {
    if f.rep.Array? { HashItemsFit(h, f.rep.items, st); }
  }

  lemma {:induction false} HashItemsFit(h: NameHash, items: seq<Item>, st: HashState)
    requires st.sum < TWO64
    ensures HashItems(h, items, st).sum < TWO64
  {
    if |items| > 0 { HashItemsFit(h, items[1..], HashItem(h, items[0], st)); }
  }

  lemma ReadID(id: nat, rest: seq<Byte>)
    requires id < TWO64
    ensures FromLE((ToLE(id, 8) + rest)[..8]) == id
    ensures (ToLE(id, 8) + rest)[8..] == rest
  {
    SplitAt(ToLE(id, 8), rest);
    assert Pow256(8) == TWO64;
    FromLEToLE(id, 8);
  }

  // ---- one Message across the wire ----

  /** The receiver reads every frame back as the flattenable part of the Message, and the caches stay in lockstep. */
  lemma DeliverOne(h: NameHash, U: set<Layout>, limit: nat, out: Cache, inc: Cache, m: Message, okay: bool)
    requires Collisionless(h, U) && Lockstep(h, U, out, inc) && Sendable(U, m, okay)
    ensures var s := Send(h, limit, out, m, okay);
      var r := Receive(h, limit, inc, s.frame);
      && r.message == Ok(Normal(m))
      && Lockstep(h, U, s.cache, r.cache)
  {
    hide Lockstep, Collisionless, Receive, Frame, Flatten, W32, ReceivePayload, AddTemplate, TemplateHash, IndexOf,
      LayoutOf;
    if |m.entries| == 0 {
      TrivialMessage(h, limit, inc, m);
    } else {
      FlattenFillsSize(m);
      if okay {
        HashIsOfLayout(h, m);
        var i := IndexOf(out.slots, TemplateHash(h, m));
        if i < |out.slots| {
          DeliverPayload(h, U, limit, out, inc, m, i);
        } else {
          DeliverNewTemplate(h, U, limit, out, inc, m);
        }
      } else {
        ReceiveFrame(h, limit, inc, Flatten(m), false, false);
        ReadFull(h, limit, inc, m, false);
      }
    }
  }

  lemma TrivialMessage(h: NameHash, limit: nat, c: Cache, m: Message)
    requires Valid(m) && |m.entries| == 0
    ensures Receive(h, limit, c, Frame(W32(m.what), false, false)) == RecvResult(c, Ok(Normal(m)))
  {
    hide W32, R32;
    ReceiveFrame(h, limit, c, W32(m.what), false, false);
    R32W32(m.what, []);
    assert W32(m.what) + [] == W32(m.what);
  }

  /** A full encoding is at least 12 bytes long, so it is never taken for a bare what-code. */
  lemma ReadFull(h: NameHash, limit: nat, c: Cache, m: Message, create: bool)
    requires Valid(m) && FlattenedSize(m) < TWO31
    ensures ReceiveFull(h, limit, c, Flatten(m), create)
         == if !create then RecvResult(c, Ok(Normal(m)))
            else match Template(Normal(m))
                 case Err => RecvResult(c, Err)
                 case Ok(t) => RecvResult(Remember(limit, c, TemplateHash(h, t), t), Ok(Normal(m)))
  {
    hide Flatten, Unflatten, Template, Remember, TemplateHash, Valid, Normal, Seekable;
    FlattenFillsSize(m);
    SmallIsSeekable(m);
    RoundTrip(m);
  }

  lemma DeliverPayload(h: NameHash, U: set<Layout>, limit: nat, out: Cache, inc: Cache, m: Message, i: nat)
    requires Collisionless(h, U) && Lockstep(h, U, out, inc) && Sendable(U, m, true)
    requires i == IndexOf(out.slots, LayoutHash(h, LayoutOf(m))) && i < |out.slots|
    requires TemplateHash(h, m) == LayoutHash(h, LayoutOf(m))
    ensures var body := ToLE(TemplateHash(h, m), 8) + TemplatedBytes(m, out.slots[i].template);
      var r := Receive(h, limit, inc, Frame(body, false, true));
      && r.message == Ok(Normal(m))
      && Lockstep(h, U, MoveToFront(out, i), r.cache)
  {
    hide LayoutHash, TemplateHash, IndexOf, MoveToFront, Frame, Receive, TemplatedBytes, TemplatedUnflatten, LayoutOf,
      Valid, NonEmpty, ToLE, FromLE, Normal;
    var id := TemplateHash(h, m);
    var t := out.slots[i].template;
    assert SoundSlot(h, U, out.slots[i]) && SoundSlot(h, U, inc.slots[i]);
    assert LayoutOf(t) == LayoutOf(m);
    var body := ToLE(id, 8) + TemplatedBytes(m, t);
    PayloadNoLarger(m, t);
    TemplatedRoundTrip(m, t);
    SmallPayloadIsSeekable(m, t);
    ReceiveFrame(h, limit, inc, body, false, true);
    HashFits(h, m);
    ReadID(id, TemplatedBytes(m, t));
    AlignedIndex(out.slots, inc.slots, id);
    TemplateOnlyFixesLayout(m, t);
    TemplateOnlyFixesLayout(m, inc.slots[i].template);
    PayloadNoLarger(m, inc.slots[i].template);
    TemplatedRoundTrip(m, inc.slots[i].template);
    SmallPayloadIsSeekable(m, inc.slots[i].template);
    MoveKeepsLockstep(h, U, out, inc, i);
  }

  lemma DeliverNewTemplate(h: NameHash, U: set<Layout>, limit: nat, out: Cache, inc: Cache, m: Message)
    requires Lockstep(h, U, out, inc) && Sendable(U, m, true) && |Flatten(m)| == FlattenedSize(m)
    requires TemplateHash(h, m) == LayoutHash(h, LayoutOf(m))
    requires IndexOf(out.slots, TemplateHash(h, m)) == |out.slots|
    ensures Template(m).Ok?
    ensures var r := Receive(h, limit, inc, Frame(Flatten(m), true, false));
      && r.message == Ok(Normal(m))
      && Lockstep(h, U, AddTemplate(limit, out, TemplateHash(h, m), Template(m).value), r.cache)
  {
    hide LayoutHash, TemplateHash, IndexOf, Frame, Receive, LayoutOf, Valid, NonEmpty, Normal, Template, AddTemplate,
      Flatten, FlattenedSize, LayoutSize;
    var id := TemplateHash(h, m);
    NormalKeepsLayout(m);
    TemplateKeepsLayout(m);
    TemplateKeepsLayout(Normal(m));
    var a, b := Template(m).value, Template(Normal(m)).value;
    HashIsOfLayout(h, b);
    ReceiveFrame(h, limit, inc, Flatten(m), true, false);
    ReadFull(h, limit, inc, m, true);
    AlignedIndex(out.slots, inc.slots, id);
    AddKeepsLockstep(h, U, limit, out, inc, Cached(id, a), Cached(id, b));
  }

  // ---- whole runs ----

  /** An outgoing Message and the answer that IsOkayToTemplatizeMessage() gives for it. */
  datatype Outgoing = Outgoing(msg: Message, okay: bool)

  datatype SendRun = SendRun(cache: Cache, frames: seq<seq<Byte>>)

  function SendAll(h: NameHash, limit: nat, c: Cache, msgs: seq<Outgoing>): (r: SendRun)
    ensures |r.frames| == |msgs|
    decreases |msgs|
  {
    if |msgs| == 0 then SendRun(c, [])
    else
      var s := Send(h, limit, c, msgs[0].msg, msgs[0].okay);
      var rest := SendAll(h, limit, s.cache, msgs[1..]);
      SendRun(rest.cache, [s.frame] + rest.frames)
  }

  datatype RecvRun = RecvRun(cache: Cache, messages: seq<Result<Message>>)

  function ReceiveAll(h: NameHash, limit: nat, c: Cache, frames: seq<seq<Byte>>): (r: RecvRun)
    ensures |r.messages| == |frames|
    decreases |frames|
  {
    if |frames| == 0 then RecvRun(c, [])
    else
      var s := Receive(h, limit, c, frames[0]);
      var rest := ReceiveAll(h, limit, s.cache, frames[1..]);
      RecvRun(rest.cache, [s.message] + rest.messages)
  }

  /** Over every run, from any pair of caches in lockstep (in particular from two empty ones), the i-th decoded Message
      is the flattenable part of the i-th sent Message, and afterwards the caches are in lockstep again. */
  lemma {:induction false} DeliverAll(h: NameHash, U: set<Layout>, limit: nat, out: Cache, inc: Cache,
                                      msgs: seq<Outgoing>)
    requires Collisionless(h, U) && Lockstep(h, U, out, inc)
    requires forall i :: 0 <= i < |msgs| ==> Sendable(U, msgs[i].msg, msgs[i].okay)
    ensures var s := SendAll(h, limit, out, msgs);
      var r := ReceiveAll(h, limit, inc, s.frames);
      && Lockstep(h, U, s.cache, r.cache)
      && forall i :: 0 <= i < |msgs| ==> r.messages[i] == Ok(Normal(msgs[i].msg))
    decreases |msgs|
  {
    hide Collisionless, Lockstep, Sendable, Send, Receive;
    if |msgs| > 0 {
      DeliverOne(h, U, limit, out, inc, msgs[0].msg, msgs[0].okay);
      var s := Send(h, limit, out, msgs[0].msg, msgs[0].okay);
      var r := Receive(h, limit, inc, s.frame);
      DeliverAll(h, U, limit, s.cache, r.cache, msgs[1..]);
      var rest := SendAll(h, limit, s.cache, msgs[1..]);
      assert SendAll(h, limit, out, msgs).frames[1..] == rest.frames;
    }
  }

  /** Two freshly constructed or Reset() gateways are in lockstep. */
  lemma FreshCachesAreInLockstep(h: NameHash, U: set<Layout>)
    ensures Lockstep(h, U, EMPTY_CACHE, EMPTY_CACHE)
  {
  }

  // ---- a Message that breaks the protocol ----

  lemma EmptyTextFacts(what: nat, name: seq<Byte>)
    requires what < TWO32 && NoNul(name)
    ensures var m, t := EmptyText(what, name), Message(what, []);
      && |m.entries| > 0 && Normal(m) == m && TemplatedBytes(m, t) == W32(what) && |W32(what)| == 4
      && TemplatedUnflatten(t, W32(what)) == Ok(t)
  {
    hide W32, R32;
    var m := EmptyText(what, name);
    assert m.entries[1..] == [];
    assert NormalEntries(m.entries) == [Entry(name, NormalField(m.entries[0].field))] + NormalEntries([]);
    assert NormalField(m.entries[0].field) == m.entries[0].field;
    R32W32(what, []);
    assert W32(what) + [] == W32(what);
  }

  lemma OneSlot(limit: nat, id: nat, t: Message)
    ensures AddTemplate(limit, EMPTY_CACHE, id, t).slots == [Cached(id, t)]
    ensures Remember(limit, EMPTY_CACHE, id, t) == AddTemplate(limit, EMPTY_CACHE, id, t)
  {
    hide FlattenedSize;
    assert [Cached(id, t)] + [] == [Cached(id, t)];
  }

  lemma TwoSends(h: NameHash, limit: nat, o: Outgoing)
    ensures var s1 := Send(h, limit, EMPTY_CACHE, o.msg, o.okay);
      var s2 := Send(h, limit, s1.cache, o.msg, o.okay);
      var r1 := Receive(h, limit, EMPTY_CACHE, s1.frame);
      && SendAll(h, limit, EMPTY_CACHE, [o, o]).frames == [s1.frame, s2.frame]
      && ReceiveAll(h, limit, EMPTY_CACHE, [s1.frame, s2.frame]).messages
      == [r1.message, Receive(h, limit, r1.cache, s2.frame).message]
  {
    hide Send, Receive;
    var s1 := Send(h, limit, EMPTY_CACHE, o.msg, o.okay);
    var s2 := Send(h, limit, s1.cache, o.msg, o.okay);
    var r1 := Receive(h, limit, EMPTY_CACHE, s1.frame);
    assert [o, o][1..] == [o] && [o][1..] == [];
    assert SendAll(h, limit, s1.cache, [o]).frames == [s2.frame] + [];
    assert [s1.frame, s2.frame][1..] == [s2.frame] && [s2.frame][1..] == [];
    assert ReceiveAll(h, limit, r1.cache, [s2.frame]).messages == [Receive(h, limit, r1.cache, s2.frame).message] + [];
  }

  /** Sent twice between two new gateways, such a Message arrives the first time only: the second frame is refused
      exactly when the two ends have filed the template under different IDs, and loses the field when they have not. */
  lemma EmptyTextBreaksTheProtocol(h: NameHash, limit: nat, what: nat, name: seq<Byte>)
    requires what < TWO32 && NoNul(name) && FlattenedSize(EmptyText(what, name)) < TWO31
    ensures var m := EmptyText(what, name);
      var frames := SendAll(h, limit, EMPTY_CACHE, [Outgoing(m, true), Outgoing(m, true)]).frames;
      ReceiveAll(h, limit, EMPTY_CACHE, frames).messages
      == [Ok(m), if h(name) % TWO64 in {0, 1} then Ok(Message(what, [])) else Err]
  {
    hide TemplateHash, Template, FlattenedSize, Flatten, Frame, Receive, Remember, AddTemplate, TemplatedBytes,
      TemplatedUnflatten, Normal, EmptyText, Valid, W32, ToLE, FromLE, NoNul;
    var m, t := EmptyText(what, name), Message(what, []);
    var id, id' := TemplateHash(h, m), TemplateHash(h, t);
    EmptyStringFieldSplitsTheHash(h, what, name);
    EmptyTextFacts(what, name);
    FlattenFillsSize(m);
    OneSlot(limit, id, t);
    OneSlot(limit, id', t);
    ReceiveFrame(h, limit, EMPTY_CACHE, Flatten(m), true, false);
    ReadFull(h, limit, EMPTY_CACHE, m, true);
    var body := ToLE(id, 8) + W32(what);
    HashFits(h, m);
    ReadID(id, W32(what));
    ReceiveFrame(h, limit, AddTemplate(limit, EMPTY_CACHE, id', t), body, false, true);
    TwoSends(h, limit, Outgoing(m, true));
  }

  // ---- the byte tally ----

  function CacheSum(slots: seq<Cached>): nat {
    if |slots| == 0 then 0 else FlattenedSize(slots[|slots| - 1].template) + CacheSum(slots[..|slots| - 1])
  }

  /** The tally is the total size of the cached templates, and the cache is within its limit or down to one slot. */
  predicate TallyExact(limit: nat, c: Cache) {
    c.tally == CacheSum(c.slots) && (|c.slots| > 1 ==> c.tally <= limit)
  }

  lemma {:induction false} TrimMakesTallyExact(limit: nat, c: Cache)
    requires c.tally == CacheSum(c.slots)
    ensures TallyExact(limit, Trim(limit, c))
    decreases |c.slots|
  {
    hide FlattenedSize;
    if |c.slots| > 1 && c.tally > limit {
      var n := |c.slots| - 1;
      TrimMakesTallyExact(limit, Cache(c.slots[..n], c.tally - FlattenedSize(c.slots[n].template)));
    }
  }

  lemma {:induction false} CacheSumCons(s: Cached, slots: seq<Cached>)
    ensures CacheSum([s] + slots) == FlattenedSize(s.template) + CacheSum(slots)
    decreases |slots|
  {
    hide FlattenedSize;
    if |slots| == 0 {
      assert ([s] + slots)[..0] == [];
    } else {
      var n := |slots| - 1;
      CacheSumCons(s, slots[..n]);
      assert ([s] + slots)[..n + 1] == [s] + slots[..n];
    }
  }

  lemma {:induction false} CacheSumSplit(a: seq<Cached>, b: seq<Cached>)
    ensures CacheSum(a + b) == CacheSum(a) + CacheSum(b)
    decreases |b|
  {
    hide FlattenedSize;
    if |b| == 0 {
      assert a + b == a;
    } else {
      var n := |b| - 1;
      CacheSumSplit(a, b[..n]);
      assert (a + b)[..|a| + n] == a + b[..n];
    }
  }

  lemma MoveKeepsTally(limit: nat, c: Cache, i: nat)
    requires TallyExact(limit, c) && i < |c.slots|
    ensures TallyExact(limit, MoveToFront(c, i))
  {
    MoveKeepsSum(c, i);
  }

  /** The 32-bit tally stays exact whenever the templates and the newcomer together take less than 2^32 bytes. */
  lemma AddKeepsTally(limit: nat, c: Cache, id: nat, t: Message)
    requires TallyExact(limit, c) && CacheSum(c.slots) + FlattenedSize(t) < TWO32
    ensures TallyExact(limit, AddTemplate(limit, c, id, t))
  {
    hide Trim, FlattenedSize, CacheSum;
    CacheSumCons(Cached(id, t), c.slots);
    TrimMakesTallyExact(limit, Cache([Cached(id, t)] + c.slots, c.tally + FlattenedSize(t)));
  }

  lemma {:induction false} TrimKeepsTallyShort(limit: nat, c: Cache)
    requires |c.slots| > 0 && c.tally < CacheSum(c.slots)
    ensures Trim(limit, c).tally < CacheSum(Trim(limit, c).slots)
    decreases |c.slots|
  {
    hide FlattenedSize;
    if |c.slots| > 1 && c.tally > limit {
      var n := |c.slots| - 1;
      var last := FlattenedSize(c.slots[n].template);
      NotEmptyNotZero(c.slots[..n]);
      TrimKeepsTallyShort(limit, Cache(c.slots[..n], if c.tally >= last then c.tally - last else 0));
    }
  }

  lemma NotEmptyNotZero(slots: seq<Cached>)
    requires |slots| > 0
    ensures CacheSum(slots) > 0
  {
  }

  /** And only then: once the total reaches 2^32 the tally wraps around and falls short for as long as the slots
      last. */
  lemma AddTallyExactIff(limit: nat, c: Cache, id: nat, t: Message)
    requires TallyExact(limit, c)
    ensures TallyExact(limit, AddTemplate(limit, c, id, t)) <==> CacheSum(c.slots) + FlattenedSize(t) < TWO32
  {
    hide Trim, FlattenedSize, CacheSum;
    CacheSumCons(Cached(id, t), c.slots);
    if CacheSum(c.slots) + FlattenedSize(t) < TWO32 {
      AddKeepsTally(limit, c, id, t);
    } else {
      TrimKeepsTallyShort(limit, Cache([Cached(id, t)] + c.slots, (c.tally + FlattenedSize(t)) % TWO32));
    }
  }

  /** That is always so when the limit leaves room for one more template. */
  lemma SendKeepsTally(h: NameHash, U: set<Layout>, limit: nat, c: Cache, m: Message, okay: bool)
    requires TallyExact(limit, c) && Sendable(U, m, okay) && (okay ==> limit + LayoutSize(LayoutOf(m)) < TWO32)
    requires |c.slots| == 1 ==> c.tally < TWO31
    ensures var c' := Send(h, limit, c, m, okay).cache;
      TallyExact(limit, c') && (|c'.slots| == 1 ==> c'.tally < TWO31)
  {
    hide TemplateHash, LayoutOf, Template, Valid, Flatten, TemplatedBytes, Frame, FlattenedSize, LayoutSize, NonEmpty;
    if |m.entries| > 0 && okay {
      var id := TemplateHash(h, m);
      var i := IndexOf(c.slots, id);
      if i < |c.slots| {
        MoveKeepsTally(limit, c, i);
      } else {
        TemplateKeepsLayout(m);
        TemplateNoLarger(m);
        var t := Template(m).value;
        if |c.slots| == 0 { assert CacheSum([]) == 0; }
        AddKeepsTally(limit, c, id, t);
        OneSlotTally(limit, c, id, t);
      }
    }
  }

  /** After every run both tallies are exact and both caches are within the limit or down to a single slot, if the limit
      leaves room for one more template. */
  lemma {:induction false} RunKeepsTallies(h: NameHash, U: set<Layout>, limit: nat, out: Cache, inc: Cache,
                                           msgs: seq<Outgoing>)
    requires Collisionless(h, U) && Lockstep(h, U, out, inc)
    requires TallyExact(limit, out) && (|out.slots| == 1 ==> out.tally < TWO31)
    requires forall i :: 0 <= i < |msgs| ==>
      Sendable(U, msgs[i].msg, msgs[i].okay) && (msgs[i].okay ==> limit + LayoutSize(LayoutOf(msgs[i].msg)) < TWO32)
    ensures var s := SendAll(h, limit, out, msgs);
      TallyExact(limit, s.cache) && TallyExact(limit, ReceiveAll(h, limit, inc, s.frames).cache)
    decreases |msgs|
  {
    hide Collisionless, Lockstep, Sendable, Send, Receive, LayoutSize, LayoutOf;
    if |msgs| == 0 {
      LockstepTally(h, U, limit, out, inc);
    } else {
      DeliverOne(h, U, limit, out, inc, msgs[0].msg, msgs[0].okay);
      SendKeepsTally(h, U, limit, out, msgs[0].msg, msgs[0].okay);
      var s := Send(h, limit, out, msgs[0].msg, msgs[0].okay);
      var r := Receive(h, limit, inc, s.frame);
      RunKeepsTallies(h, U, limit, s.cache, r.cache, msgs[1..]);
      assert SendAll(h, limit, out, msgs).frames[1..] == SendAll(h, limit, s.cache, msgs[1..]).frames;
    }
  }

  /** Sending this Message adds a template to the cache. */
  predicate Creates(h: NameHash, c: Cache, o: Outgoing) {
    |o.msg.entries| > 0 && o.okay && IndexOf(c.slots, TemplateHash(h, o.msg)) == |c.slots|
  }

  /** No template is ever added that takes the cached sizes to 2^32 bytes or more. */
  predicate NeverOverflows(h: NameHash, limit: nat, c: Cache, msgs: seq<Outgoing>)
    decreases |msgs|
  {
    |msgs| > 0 ==>
      && (Creates(h, c, msgs[0]) ==> CacheSum(c.slots) + LayoutSize(LayoutOf(msgs[0].msg)) < TWO32)
      && NeverOverflows(h, limit, Send(h, limit, c, msgs[0].msg, msgs[0].okay).cache, msgs[1..])
  }

  /** The tally has lost 2^32 bytes at some time. */
  predicate Short(c: Cache) {
    |c.slots| > 0 && c.tally < CacheSum(c.slots)
  }

  lemma SendCreates(h: NameHash, U: set<Layout>, limit: nat, c: Cache, o: Outgoing)
    requires Sendable(U, o.msg, o.okay) && Creates(h, c, o)
    ensures Template(o.msg).Ok? && FlattenedSize(Template(o.msg).value) == LayoutSize(LayoutOf(o.msg))
    ensures Send(h, limit, c, o.msg, o.okay).cache
         == AddTemplate(limit, c, TemplateHash(h, o.msg), Template(o.msg).value)
  {
    hide TemplateHash, LayoutOf, Template, Valid, Flatten, Frame, FlattenedSize, LayoutSize, NonEmpty, AddTemplate;
    TemplateKeepsLayout(o.msg);
  }

  lemma SendOtherwise(h: NameHash, limit: nat, c: Cache, o: Outgoing)
    requires !Creates(h, c, o)
    ensures var c' := Send(h, limit, c, o.msg, o.okay).cache;
      c' == c || exists i :: 0 <= i < |c.slots| && c' == MoveToFront(c, i)
  {
    hide TemplateHash, Template, Flatten, Frame, TemplatedBytes, AddTemplate, MoveToFront;
  }

  lemma MoveKeepsSum(c: Cache, i: nat)
    requires i < |c.slots|
    ensures CacheSum(MoveToFront(c, i).slots) == CacheSum(c.slots)
  {
    hide FlattenedSize, CacheSum;
    var a, b := c.slots[..i], c.slots[i + 1..];
    assert c.slots == a + ([c.slots[i]] + b);
    CacheSumSplit(a, [c.slots[i]] + b);
    CacheSumCons(c.slots[i], b);
    CacheSumSplit(a, b);
    CacheSumCons(c.slots[i], a + b);
  }

  lemma AddKeepsShort(limit: nat, c: Cache, id: nat, t: Message)
    requires c.tally <= CacheSum(c.slots) && (Short(c) || CacheSum(c.slots) + FlattenedSize(t) >= TWO32)
    ensures Short(AddTemplate(limit, c, id, t))
  {
    hide Trim, FlattenedSize, CacheSum;
    CacheSumCons(Cached(id, t), c.slots);
    var c1 := Cache([Cached(id, t)] + c.slots, (c.tally + FlattenedSize(t)) % TWO32);
    TrimKeepsTallyShort(limit, c1);
    TrimKeepsFirst(limit, c1);
  }

  lemma SendKeepsShort(h: NameHash, U: set<Layout>, limit: nat, c: Cache, o: Outgoing)
    requires Short(c) && Sendable(U, o.msg, o.okay)
    ensures Short(Send(h, limit, c, o.msg, o.okay).cache)
  {
    hide Send, AddTemplate, Creates, Template, TemplateHash, FlattenedSize, CacheSum, LayoutOf, LayoutSize, Sendable;
    if Creates(h, c, o) {
      SendCreates(h, U, limit, c, o);
      AddKeepsShort(limit, c, TemplateHash(h, o.msg), Template(o.msg).value);
    } else {
      SendOtherwise(h, limit, c, o);
      forall i | 0 <= i < |c.slots| ensures Short(MoveToFront(c, i)) { MoveKeepsSum(c, i); }
    }
  }

  lemma SendTallyExactIff(h: NameHash, U: set<Layout>, limit: nat, c: Cache, o: Outgoing)
    requires TallyExact(limit, c) && Sendable(U, o.msg, o.okay)
    ensures var c' := Send(h, limit, c, o.msg, o.okay).cache;
      if Creates(h, c, o) && CacheSum(c.slots) + LayoutSize(LayoutOf(o.msg)) >= TWO32 then Short(c')
      else TallyExact(limit, c')
  {
    hide Send, AddTemplate, Creates, Template, TemplateHash, FlattenedSize, CacheSum, LayoutOf, LayoutSize, Sendable,
      MoveToFront;
    if Creates(h, c, o) {
      SendCreates(h, U, limit, c, o);
      var t := Template(o.msg).value;
      if CacheSum(c.slots) + FlattenedSize(t) < TWO32 {
        AddKeepsTally(limit, c, TemplateHash(h, o.msg), t);
      } else {
        AddKeepsShort(limit, c, TemplateHash(h, o.msg), t);
      }
    } else {
      SendOtherwise(h, limit, c, o);
      forall i | 0 <= i < |c.slots| ensures TallyExact(limit, MoveToFront(c, i)) { MoveKeepsTally(limit, c, i); }
    }
  }

  lemma {:induction false} ShortForGood(h: NameHash, U: set<Layout>, limit: nat, c: Cache, msgs: seq<Outgoing>)
    requires Short(c) && forall i :: 0 <= i < |msgs| ==> Sendable(U, msgs[i].msg, msgs[i].okay)
    ensures Short(SendAll(h, limit, c, msgs).cache)
    decreases |msgs|
  {
    hide Send, Sendable, Short;
    if |msgs| > 0 {
      SendKeepsShort(h, U, limit, c, msgs[0]);
      ShortForGood(h, U, limit, Send(h, limit, c, msgs[0].msg, msgs[0].okay).cache, msgs[1..]);
    }
  }

  /** For every limit: after a run the tally is exact if and only if no template was added that took the cached sizes to
      2^32 bytes; once the tally has wrapped around it never recovers. */
  lemma {:induction false} RunTallyExactIff(h: NameHash, U: set<Layout>, limit: nat, c: Cache, msgs: seq<Outgoing>)
    requires TallyExact(limit, c) && forall i :: 0 <= i < |msgs| ==> Sendable(U, msgs[i].msg, msgs[i].okay)
    ensures TallyExact(limit, SendAll(h, limit, c, msgs).cache) <==> NeverOverflows(h, limit, c, msgs)
    decreases |msgs|
  {
    hide Send, Sendable, Short, TallyExact, Creates, LayoutSize, LayoutOf, CacheSum;
    if |msgs| > 0 {
      SendTallyExactIff(h, U, limit, c, msgs[0]);
      var c' := Send(h, limit, c, msgs[0].msg, msgs[0].okay).cache;
      if Creates(h, c, msgs[0]) && CacheSum(c.slots) + LayoutSize(LayoutOf(msgs[0].msg)) >= TWO32 {
        ShortForGood(h, U, limit, c', msgs[1..]);
        ShortIsNotExact(limit, SendAll(h, limit, c', msgs[1..]).cache);
      } else {
        RunTallyExactIff(h, U, limit, c', msgs[1..]);
      }
    }
  }

  lemma ShortIsNotExact(limit: nat, c: Cache)
    requires Short(c)
    ensures !TallyExact(limit, c)
  {
  }

  const BIG_NAME: nat := TWO31 - 27

  /** A Message of 2^31 - 1 bytes with one field, whose name consists of one letter only. */
  function Big(letter: Byte): Message {
    Message(0, [Entry(seq(BIG_NAME, i => letter), Field(B_INT8_TYPE, Inline(Pod([0]))))])
  }

  lemma BigIsSendable(letter: Byte, U: set<Layout>)
    requires letter != 0 && LayoutOf(Big(letter)) in U
    ensures Sendable(U, Big(letter), true) && LayoutSize(LayoutOf(Big(letter))) == TWO31 - 1
  {
    var m := Big(letter);
    var e := m.entries[0];
    assert m.entries[1..] == [];
    assert ValidItem(B_INT8_TYPE, Pod([0]));
    assert NoNul(e.name) && ValidField(e.field);
    assert EntriesSize(m.entries) == 13 + BIG_NAME + FieldSize(e.field) + EntriesSize([]);
    var lf := LayoutOfField(e.name, e.field);
    assert LayoutEntries(m.entries) == [lf] + LayoutEntries([]);
    assert LayoutOf(m).fields == [lf];
    assert LayoutFieldsSize([lf]) == 13 + |lf.name| + LayoutFieldSize(lf) + LayoutFieldsSize([lf][1..]);
    assert LayoutFieldsSize([lf][1..]) == 0;
  }

  lemma AddWithinLimit(limit: nat, c: Cache, id: nat, t: Message)
    requires c.tally + FlattenedSize(t) <= limit < TWO32
    ensures AddTemplate(limit, c, id, t) == Cache([Cached(id, t)] + c.slots, c.tally + FlattenedSize(t))
  {
    hide FlattenedSize;
  }

  /** With the largest limit, three such Messages are enough: the tally no longer is the sum of the cached sizes. */
  lemma ThreeBigMessagesBreakTheTally(h: NameHash)
    requires TemplateHash(h, Big(97)) != TemplateHash(h, Big(98))
    requires TemplateHash(h, Big(99)) !in {TemplateHash(h, Big(97)), TemplateHash(h, Big(98))}
    ensures var msgs := [Outgoing(Big(97), true), Outgoing(Big(98), true), Outgoing(Big(99), true)];
      !TallyExact(TWO32 - 1, SendAll(h, TWO32 - 1, EMPTY_CACHE, msgs).cache)
  {
    hide TemplateHash, Big, LayoutOf, LayoutSize, FlattenedSize, AddTemplate, Send, Sendable, Template;
    var limit := TWO32 - 1;
    var U := {LayoutOf(Big(97)), LayoutOf(Big(98)), LayoutOf(Big(99))};
    var m1, m2, m3 := Outgoing(Big(97), true), Outgoing(Big(98), true), Outgoing(Big(99), true);
    BigIsSendable(97, U);
    BigIsSendable(98, U);
    BigIsSendable(99, U);
    BigHasAField(97);
    BigHasAField(98);
    BigHasAField(99);
    SendCreates(h, U, limit, EMPTY_CACHE, m1);
    var s1 := Cached(TemplateHash(h, m1.msg), Template(m1.msg).value);
    AddWithinLimit(limit, EMPTY_CACHE, s1.id, s1.template);
    var c1 := Cache([s1], TWO31 - 1);
    assert [s1] + EMPTY_CACHE.slots == [s1];
    SendCreates(h, U, limit, c1, m2);
    var s2 := Cached(TemplateHash(h, m2.msg), Template(m2.msg).value);
    AddWithinLimit(limit, c1, s2.id, s2.template);
    var c2 := Cache([s2] + [s1], TWO32 - 2);
    CacheSumCons(s1, []);
    CacheSumCons(s2, [s1]);
    assert [s1] + [] == [s1];
    SendTallyExactIff(h, U, limit, c2, m3);
    ShortIsNotExact(limit, Send(h, limit, c2, m3.msg, true).cache);
    ThreeSends(h, limit, m1, m2, m3);
  }

  lemma BigHasAField(letter: Byte)
    ensures |Big(letter).entries| > 0
  {
  }

  lemma ThreeSends(h: NameHash, limit: nat, m1: Outgoing, m2: Outgoing, m3: Outgoing)
    ensures SendAll(h, limit, EMPTY_CACHE, [m1, m2, m3]).cache ==
      (var c1 := Send(h, limit, EMPTY_CACHE, m1.msg, m1.okay).cache;
       var c2 := Send(h, limit, c1, m2.msg, m2.okay).cache;
       Send(h, limit, c2, m3.msg, m3.okay).cache)
  {
    hide Send;
    var c1 := Send(h, limit, EMPTY_CACHE, m1.msg, m1.okay).cache;
    var c2 := Send(h, limit, c1, m2.msg, m2.okay).cache;
    assert [m1, m2, m3][1..] == [m2, m3] && [m2, m3][1..] == [m3] && [m3][1..] == [];
    assert SendAll(h, limit, c2, [m3]).cache == Send(h, limit, c2, m3.msg, m3.okay).cache;
    assert SendAll(h, limit, c1, [m2, m3]).cache == SendAll(h, limit, c2, [m3]).cache;
  }

  lemma LockstepTally(h: NameHash, U: set<Layout>, limit: nat, out: Cache, inc: Cache)
    requires Lockstep(h, U, out, inc) && TallyExact(limit, out)
    ensures TallyExact(limit, inc)
  {
    AlignedSums(h, U, out.slots, inc.slots);
  }

  lemma {:induction false} AlignedSums(h: NameHash, U: set<Layout>, a: seq<Cached>, b: seq<Cached>)
    requires Sound(h, U, a) && Sound(h, U, b) && Aligned(a, b)
    ensures CacheSum(a) == CacheSum(b)
    decreases |a|
  {
    hide SoundSlot, FlattenedSize, LayoutOf;
    if |a| > 0 {
      var n := |a| - 1;
      SameSize(h, U, a[n], b[n]);
      AlignedSums(h, U, a[..n], b[..n]);
    }
  }

  lemma OneSlotTally(limit: nat, c: Cache, id: nat, t: Message)
    requires TallyExact(limit, AddTemplate(limit, c, id, t)) && FlattenedSize(t) < TWO31
    ensures var c' := AddTemplate(limit, c, id, t); |c'.slots| == 1 ==> c'.tally < TWO31
  {
    var c' := AddTemplate(limit, c, id, t);
    if |c'.slots| == 1 {
      TrimKeepsFirst(limit, Cache([Cached(id, t)] + c.slots, (c.tally + FlattenedSize(t)) % TWO32));
      assert c'.slots == [Cached(id, t)];
      assert CacheSum(c'.slots[..0]) == 0;
    }
  }

  lemma {:induction false} TrimKeepsFirst(limit: nat, c: Cache)
    requires |c.slots| > 0
    ensures |Trim(limit, c).slots| > 0 && Trim(limit, c).slots[0] == c.slots[0]
    decreases |c.slots|
  {
    hide FlattenedSize;
    if |c.slots| > 1 && c.tally > limit {
      var n := |c.slots| - 1;
      var last := FlattenedSize(c.slots[n].template);
      TrimKeepsFirst(limit, Cache(c.slots[..n], if c.tally >= last then c.tally - last else 0));
    }
  }

  // ---- the gateway object ----

  class TemplatingMessageIOGateway {
    const hash: NameHash
    const maxLRUCacheSizeBytes: nat
    var incomingTemplates: seq<Cached>
    var incomingTally: nat
    var outgoingTemplates: seq<Cached>
    var outgoingTally: nat

    constructor (hash: NameHash, maxLRUCacheSizeBytes: nat)
      ensures this.hash == hash && this.maxLRUCacheSizeBytes == maxLRUCacheSizeBytes
      ensures Incoming() == EMPTY_CACHE && Outgoing() == EMPTY_CACHE
    {
      this.hash := hash;
      this.maxLRUCacheSizeBytes := maxLRUCacheSizeBytes;
      incomingTemplates, incomingTally := [], 0;
      outgoingTemplates, outgoingTally := [], 0;
    }

    function Incoming(): Cache
      reads this
    {
      Cache(incomingTemplates, incomingTally)
    }

    function Outgoing(): Cache
      reads this
    {
      Cache(outgoingTemplates, outgoingTally)
    }

    method Reset()
      modifies this
      ensures Incoming() == EMPTY_CACHE && Outgoing() == EMPTY_CACHE
    {
      incomingTemplates, incomingTally := [], 0;
      outgoingTemplates, outgoingTally := [], 0;
    }

    /** The eviction loop; the source edits the table and tally that it is handed. */
    method TrimLRUCache(table: seq<Cached>, tally: nat) returns (table': seq<Cached>, tally': nat)
      ensures Cache(table', tally') == Trim(maxLRUCacheSizeBytes, Cache(table, tally))
    {
      table', tally' := table, tally;
      while |table'| > 1 && tally' > maxLRUCacheSizeBytes
        invariant Trim(maxLRUCacheSizeBytes, Cache(table', tally')) == Trim(maxLRUCacheSizeBytes, Cache(table, tally))
        decreases |table'|
      {
        var lastSize := FlattenedSize(table'[|table'| - 1].template);
        table' := table'[..|table'| - 1];
        if tally' >= lastSize {
          tally' := tally' - lastSize;
        } else {
          tally' := 0;
        }
      }
    }

    method FlattenHeaderAndMessage(m: Message, okay: bool) returns (buf: seq<Byte>)
      modifies this`outgoingTemplates, this`outgoingTally
      ensures SendResult(Outgoing(), buf) == Send(hash, maxLRUCacheSizeBytes, old(Outgoing()), m, okay)
    {
      hide Trim, TemplateHash, Template, Flatten, TemplatedBytes, W32;
      var createTemplate := false;
      var found := false;
      var templateID := 0;
      var template := m;
      var isTrivial := |m.entries| == 0;
      if !isTrivial && okay {
        templateID := TemplateHash(hash, m);
        var i := IndexOf(outgoingTemplates, templateID);
        if i < |outgoingTemplates| {
          found, template := true, outgoingTemplates[i].template;
          outgoingTemplates := [outgoingTemplates[i]] + RemoveAt(outgoingTemplates, i);
        } else {
          var t := Template(m);
          if t.Ok? {
            createTemplate := true;
            outgoingTemplates := [Cached(templateID, t.value)] + outgoingTemplates;
            outgoingTally := (outgoingTally + FlattenedSize(t.value)) % TWO32;
            outgoingTemplates, outgoingTally := TrimLRUCache(outgoingTemplates, outgoingTally);
          }
        }
      }
      var body := if found then ToLE(templateID, 8) + TemplatedBytes(m, template)
                  else if isTrivial then W32(m.what)
                  else Flatten(m);
      buf := Frame(body, createTemplate, found);
    }

    /** The part of UnflattenHeaderAndMessage() that replaces an older template under the same ID. */
    method PutIncomingTemplate(id: nat, t: Message)
      modifies this`incomingTemplates, this`incomingTally
      ensures Incoming() == Remember(maxLRUCacheSizeBytes, old(Incoming()), id, t)
    {
      hide Trim, FlattenedSize, IndexOf;
      var i := IndexOf(incomingTemplates, id);
      if i < |incomingTemplates| {
        incomingTally := (incomingTally + TWO32 - FlattenedSize(incomingTemplates[i].template) % TWO32) % TWO32;
        incomingTemplates := RemoveAt(incomingTemplates, i);
      }
      incomingTemplates := [Cached(id, t)] + incomingTemplates;
      incomingTally := (incomingTally + FlattenedSize(t)) % TWO32;
      incomingTemplates, incomingTally := TrimLRUCache(incomingTemplates, incomingTally);
    }

    method UnflattenHeaderAndMessage(buf: seq<Byte>) returns (r: Result<Message>)
      modifies this`incomingTemplates, this`incomingTally
      ensures RecvResult(Incoming(), r) == Receive(hash, maxLRUCacheSizeBytes, old(Incoming()), buf)
    {
      hide Remember, TemplateHash, Template, Unflatten, TemplatedUnflatten, R32, FromLE, IndexOf;
      if |buf| < 8 || 8 + R32(buf) % TWO31 != |buf| { return Err; }
      var lengthWord, encodingWord := R32(buf), R32(buf[4..]);
      if encodingWord % TWO31 != ENCODING_DEFAULT { return Err; }
      var createTemplate := lengthWord >= TWO31;
      var body := buf[4..][4..];
      if encodingWord >= TWO31 {
        if createTemplate || |body| < 8 { return Err; }
        var i := IndexOf(incomingTemplates, FromLE(body[..8]));
        if i == |incomingTemplates| { return Err; }
        var template := incomingTemplates[i].template;
        incomingTemplates := [incomingTemplates[i]] + RemoveAt(incomingTemplates, i);
        r := TemplatedUnflatten(template, body[8..]);
      } else {
        var m := Message(0, []);
        if |body| == 4 {
          m := Message(R32(body), []);
        } else {
          var p := Unflatten(body);
          if p.Err? { return Err; }
          m := p.value.value;
        }
        if createTemplate {
          var t := Template(m);
          if t.Err? { return Err; }
          PutIncomingTemplate(TemplateHash(hash, t.value), t.value);
        }
        r := Ok(m);
      }
    }
  }
}
