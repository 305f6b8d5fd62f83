/** Payload-only encoding: Message::TemplatedFlatten() and Message::TemplatedUnflatten() against a template. */
module TemplatedCodec {
  import opened Bytes
  import opened Messages
  import opened Unflattening
  import opened Templates

  function Find(es: seq<Entry>, name: seq<Byte>): Option<Field> {
    var i := Lookup(es, name);
    if i < |es| then Some(es[i].field) else None
  }

  function ItemsOf(f: Option<Field>): seq<Item> {
    if f.Some? then Items(f.value.rep) else []
  }

  /** The items that go on the wire: the payload's, padded with the template's when the payload has fewer. */
  function Merge(items: seq<Item>, ts: seq<Item>): seq<Item> {
    if |items| >= |ts| then items[..|ts|] else items + ts[|items|..]
  }

  function Rest(items: seq<Item>): seq<Item> {
    if |items| == 0 then [] else items[1..]
  }

  /** The sub-Message that supplies the data for one template sub-Message. */
  function Source(items: seq<Item>, t: Item): Message
    requires t.Sub?
  {
    if |items| > 0 && items[0].Sub? then items[0].msg else t.msg
  }

  // ---- TemplatedFlattenedSize() ----

  function TemplatedSize(m: Message, t: Message): nat
    decreases t
  {
    4 + TemplatedEntriesSize(m, t.entries)
  }

  function TemplatedEntriesSize(m: Message, ts: seq<Entry>): nat
    decreases ts
  {
    if |ts| == 0 then 0
    else if !IsFlattenable(ts[0].field.tc) then TemplatedEntriesSize(m, ts[1..])
    else TemplatedFieldSize(ts[0].field, Find(m.entries, ts[0].name)) + TemplatedEntriesSize(m, ts[1..])
  }

  function TemplatedFieldSize(tf: Field, p: Option<Field>): nat
    decreases tf
  {
    if tf.tc == B_MESSAGE_TYPE then
      match tf.rep
      case Empty => 4
      case Inline(t) => 4 + TemplatedItemSize(ItemsOf(p), t)
      case Array(ts) => 4 + TemplatedItemsSize(ItemsOf(p), ts)
    else if p.None? || FixedSize(tf.tc) > 0 then FieldSize(tf)
    else 4 + PrefixedSize(Merge(ItemsOf(p), Items(tf.rep)))
  }

  function TemplatedItemsSize(items: seq<Item>, ts: seq<Item>): nat
    decreases ts
  {
    if |ts| == 0 then 0 else TemplatedItemSize(items, ts[0]) + TemplatedItemsSize(Rest(items), ts[1..])
  }

  function TemplatedItemSize(items: seq<Item>, t: Item): nat
    decreases t
  {
    if t.Sub? then 4 + TemplatedSize(Source(items, t), t.msg) else 4
  }

  // ---- TemplatedFlatten() ----

  function TemplatedBytes(m: Message, t: Message): seq<Byte>
    decreases t
  {
    W32(m.what) + TemplatedEntriesBytes(m, t.entries)
  }

  /** Unlike the size computation, the write ignores a payload field whose type differs from the template's. */
  function TemplatedEntriesBytes(m: Message, ts: seq<Entry>): seq<Byte>
    decreases ts
  {
    if |ts| == 0 then []
    else if !IsFlattenable(ts[0].field.tc) then TemplatedEntriesBytes(m, ts[1..])
    else
      var p := Find(m.entries, ts[0].name);
      TemplatedFieldBytes(ts[0].field, if p.Some? && p.value.tc == ts[0].field.tc then p else None)
      + TemplatedEntriesBytes(m, ts[1..])
  }

  function TemplatedFieldBytes(tf: Field, p: Option<Field>): seq<Byte>
    decreases tf
  {
    if tf.tc == B_MESSAGE_TYPE then
      match tf.rep
      case Empty => W32(0)
      case Inline(t) => W32(1) + TemplatedItemBytes(ItemsOf(p), t)
      case Array(ts) => W32(|ts|) + TemplatedItemsBytes(ItemsOf(p), ts)
    else if p.None? then FieldBytes(tf)
    else if |ItemsOf(p)| >= |Items(tf.rep)| then FirstItemsBytes(p.value, |Items(tf.rep)|)
    else ArrayBytes(tf.tc, Merge(ItemsOf(p), Items(tf.rep)))
  }

  /** MessageField::TemplatedFlatten() with a limit on the number of items; an inline item ignores the limit. */
  function FirstItemsBytes(f: Field, n: nat): seq<Byte> {
    match f.rep
    case Empty => []
    case Inline(item) => SingleBytes(f.tc, item)
    case Array(items) => ArrayBytes(f.tc, if n < |items| then items[..n] else items)
  }

  function TemplatedItemsBytes(items: seq<Item>, ts: seq<Item>): seq<Byte>
    decreases ts
  {
    if |ts| == 0 then [] else TemplatedItemBytes(items, ts[0]) + TemplatedItemsBytes(Rest(items), ts[1..])
  }

  /** A sub-Message is itself payload-only, behind its size. */
  function TemplatedItemBytes(items: seq<Item>, t: Item): seq<Byte>
    decreases t
  {
    if t.Sub? then
      W32(TemplatedSize(Source(items, t), t.msg)) + TemplatedBytes(Source(items, t), t.msg)
    else W32(0)
  }

  // ---- TemplatedUnflatten() ----

  function TemplatedUnflatten(t: Message, buf: seq<Byte>): Result<Message>
    decreases t
  {
    if |buf| < 4 then Err
    else
      match TemplatedUnflattenEntries(t.entries, buf[4..])
      case Err => Err
      case Ok(es) => Ok(Message(R32(buf), es))
  }

  function TemplatedUnflattenEntries(ts: seq<Entry>, buf: seq<Byte>): Result<seq<Entry>>
    decreases ts
  {
    if |ts| == 0 then Ok([])
    else if !IsFlattenable(ts[0].field.tc) then TemplatedUnflattenEntries(ts[1..], buf)
    else
      match TemplatedUnflattenField(ts[0].field, buf)
      case Err => Err
      case Ok(p) =>
        match TemplatedUnflattenEntries(ts[1..], buf[p.used..])
        case Err => Err
        case Ok(es) => Ok([Entry(ts[0].name, p.value)] + es)
  }

  function TemplatedUnflattenField(tf: Field, buf: seq<Byte>): (r: Result<Parsed<Field>>)
    ensures r.Ok? ==> r.value.used <= |buf|
    decreases tf
  {
    if FixedSize(tf.tc) > 0 then
      if |buf| < FieldSize(tf) then Err else UnflattenField(tf.tc, buf[..FieldSize(tf)])
    else if |buf| < 4 || R32(buf) != |Items(tf.rep)| then Err
    else if tf.tc == B_MESSAGE_TYPE then
      match tf.rep
      case Empty => Ok(Parsed(Field(tf.tc, Empty), 4))
      case Inline(t) =>
        (match TemplatedUnflattenItem(t, buf[4..])
         case Err => Err
         case Ok(p) => Ok(Parsed(Field(tf.tc, Inline(p.value)), 4 + p.used)))
      case Array(ts) =>
        match TemplatedUnflattenItems(ts, buf[4..])
        case Err => Err
        case Ok(p) => Ok(Parsed(Field(tf.tc, if p.value == [] then Empty else RepOf(p.value)), 4 + p.used))
    else
      match WalkItems(buf[4..], R32(buf))
      case Err => Err
      case Ok(n) => UnflattenField(tf.tc, buf[..4 + n])
  }

  /** Measures n length-prefixed items.  The signed argument of SeekRelative() rules out sizes of 2^31 and more. */
  function WalkItems(buf: seq<Byte>, n: nat): (r: Result<nat>)
    ensures r.Ok? ==> r.value <= |buf|
    decreases |buf|
  {
    if n == 0 then Ok(0)
    else if |buf| < 4 || R32(buf) > |buf| - 4 || R32(buf) >= TWO31 then Err
    else
      match WalkItems(buf[4 + R32(buf)..], n - 1)
      case Err => Err
      case Ok(k) => Ok(4 + R32(buf) + k)
  }

  function TemplatedUnflattenItems(ts: seq<Item>, buf: seq<Byte>): (r: Result<Parsed<seq<Item>>>)
    ensures r.Ok? ==> r.value.used <= |buf|
    decreases ts
  {
    if |ts| == 0 then Ok(Parsed([], 0))
    else
      match TemplatedUnflattenItem(ts[0], buf)
      case Err => Err
      case Ok(p) =>
        match TemplatedUnflattenItems(ts[1..], buf[p.used..])
        case Err => Err
        case Ok(q) => Ok(Parsed([p.value] + q.value, p.used + q.used))
  }

  function TemplatedUnflattenItem(t: Item, buf: seq<Byte>): (r: Result<Parsed<Item>>)
    ensures r.Ok? ==> r.value.used <= |buf|
    decreases t
  {
    if !t.Sub? || |buf| < 4 || R32(buf) > |buf| - 4 || R32(buf) >= TWO31 then Err
    else
      match TemplatedUnflatten(t.msg, buf[4..][..R32(buf)])
      case Err => Err
      case Ok(m) => Ok(Parsed(Sub(m), 4 + R32(buf)))
  }

  // ---- what can be read back ----

  /** No String, ByteBuffer or sub-Message takes 2^31 bytes or more of the payload. */
  predicate PayloadSeekable(m: Message, t: Message)
    decreases t
  {
    PayloadEntriesSeekable(m, t.entries)
  }

  predicate PayloadEntriesSeekable(m: Message, ts: seq<Entry>)
    decreases ts
  {
    |ts| > 0 ==>
      && (IsFlattenable(ts[0].field.tc) ==> PayloadFieldSeekable(ts[0].field, Find(m.entries, ts[0].name)))
      && PayloadEntriesSeekable(m, ts[1..])
  }

  predicate PayloadFieldSeekable(tf: Field, p: Option<Field>)
    decreases tf
  {
    if tf.tc == B_MESSAGE_TYPE then
      match tf.rep
      case Empty => true
      case Inline(t) => PayloadItemSeekable(ItemsOf(p), t)
      case Array(ts) => PayloadItemsSeekable(ItemsOf(p), ts)
    else FixedSize(tf.tc) > 0 || ShortItems(Merge(ItemsOf(p), Items(tf.rep)))
  }

  predicate PayloadItemsSeekable(items: seq<Item>, ts: seq<Item>)
    decreases ts
  {
    |ts| > 0 ==> PayloadItemSeekable(items, ts[0]) && PayloadItemsSeekable(Rest(items), ts[1..])
  }

  predicate PayloadItemSeekable(items: seq<Item>, t: Item)
    decreases t
  {
    t.Sub? ==> TemplatedSize(Source(items, t), t.msg) < TWO31 && PayloadSeekable(Source(items, t), t.msg)
  }

  predicate ShortItems(items: seq<Item>) {
    |items| > 0 ==> ItemSize(items[0]) < TWO31 && ShortItems(items[1..])
  }

  // ---- the round trip, for any two Messages of the same layout ----

  lemma {:induction false} TemplatedRoundTrip(m: Message, t: Message)
    requires Valid(m) && Valid(t) && LayoutOf(m) == LayoutOf(t) && NonEmpty(LayoutOf(m))
    requires TemplatedSize(m, t) < NO_LIMIT
    ensures |TemplatedBytes(m, t)| == TemplatedSize(m, t)
    ensures TemplatedUnflatten(t, TemplatedBytes(m, t)) == if PayloadSeekable(m, t) then Ok(Normal(m)) else Err
    decreases t, m
  {
    hide W32, R32, ValidEntry, NonEmptyField, LayoutEntries;
    R32W32(m.what, TemplatedEntriesBytes(m, t.entries));
    FindDistinct(m.entries);
    TemplatedEntriesRoundTrip(m, m.entries, t.entries);
  }

  lemma FindDistinct(es: seq<Entry>)
    requires DistinctNames(es)
    ensures forall i :: 0 <= i < |es| ==> Find(es, es[i].name) == Some(es[i].field)
  {
  }

  lemma {:induction false} TemplatedEntriesRoundTrip(m: Message, es: seq<Entry>, ts: seq<Entry>)
    requires forall i :: 0 <= i < |es| ==> ValidEntry(es[i]) && Find(m.entries, es[i].name) == Some(es[i].field)
    requires forall i :: 0 <= i < |ts| ==> ValidEntry(ts[i])
    requires LayoutEntries(es) == LayoutEntries(ts)
    requires forall i :: 0 <= i < |LayoutEntries(es)| ==> NonEmptyField(LayoutEntries(es)[i])
    requires TemplatedEntriesSize(m, ts) < NO_LIMIT
    ensures |TemplatedEntriesBytes(m, ts)| == TemplatedEntriesSize(m, ts)
    ensures TemplatedUnflattenEntries(ts, TemplatedEntriesBytes(m, ts))
         == if PayloadEntriesSeekable(m, ts) then Ok(NormalEntries(es)) else Err
    decreases ts, es
  {
    hide W32, R32, Find, ValidField, NonEmptyField, NormalField,
      TemplatedFieldBytes, TemplatedFieldSize, TemplatedUnflattenField, PayloadFieldSeekable;
    if |ts| > 0 && !IsFlattenable(ts[0].field.tc) {
      TemplatedEntriesRoundTrip(m, es, ts[1..]);
    } else if |es| > 0 && !IsFlattenable(es[0].field.tc) {
      TemplatedEntriesRoundTrip(m, es[1..], ts);
    } else if |ts| > 0 && |es| > 0 {
      var a, b := LayoutEntries(es), LayoutEntries(ts);
      assert a[0] == b[0] && a[1..] == b[1..];
      assert a[1..] == LayoutEntries(es[1..]) && b[1..] == LayoutEntries(ts[1..]);
      assert forall i :: 0 <= i < |a[1..]| ==> a[1..][i] == a[i + 1];
      var e, t := es[0], ts[0];
      SameLayoutField(e, t);
      TemplatedFieldRoundTrip(e.name, e.field, t.field, TemplatedEntriesBytes(m, ts[1..]));
      TemplatedEntriesRoundTrip(m, es[1..], ts[1..]);
      SplitAt(TemplatedFieldBytes(t.field, Some(e.field)), TemplatedEntriesBytes(m, ts[1..]));
    }
  }

  lemma SameLayoutField(e: Entry, t: Entry)
    requires LayoutOfField(e.name, e.field) == LayoutOfField(t.name, t.field)
    ensures e.name == t.name && e.field.tc == t.field.tc
  {
  }

  lemma {:induction false} TemplatedFieldRoundTrip(name: seq<Byte>, f: Field, tf: Field, rest: seq<Byte>)
    requires ValidField(f) && ValidField(tf) && IsFlattenable(f.tc)
    requires LayoutOfField(name, f) == LayoutOfField(name, tf) && NonEmptyField(LayoutOfField(name, f))
    requires TemplatedFieldSize(tf, Some(f)) < NO_LIMIT
    ensures |TemplatedFieldBytes(tf, Some(f))| == TemplatedFieldSize(tf, Some(f))
    ensures TemplatedUnflattenField(tf, TemplatedFieldBytes(tf, Some(f)) + rest)
         == if PayloadFieldSeekable(tf, Some(f))
            then Ok(Parsed(NormalField(f), TemplatedFieldSize(tf, Some(f)))) else Err
    decreases tf, f
  {
    if f.tc == B_MESSAGE_TYPE {
      TemplatedMessageFieldRoundTrip(name, f, tf, rest);
    } else {
      PlainFieldRoundTrip(name, f, tf, rest);
    }
  }

  lemma LayoutCount(name: seq<Byte>, f: Field)
    ensures LayoutOfField(name, f).count == |Items(f.rep)|
  {
  }

  lemma PlainFieldRoundTrip(name: seq<Byte>, f: Field, tf: Field, rest: seq<Byte>)
    requires ValidField(f) && ValidField(tf) && IsFlattenable(f.tc) && f.tc != B_MESSAGE_TYPE
    requires LayoutOfField(name, f) == LayoutOfField(name, tf)
    requires TemplatedFieldSize(tf, Some(f)) < NO_LIMIT
    ensures |TemplatedFieldBytes(tf, Some(f))| == TemplatedFieldSize(tf, Some(f))
    ensures TemplatedUnflattenField(tf, TemplatedFieldBytes(tf, Some(f)) + rest)
         == if PayloadFieldSeekable(tf, Some(f))
            then Ok(Parsed(NormalField(f), TemplatedFieldSize(tf, Some(f)))) else Err
  {
    hide W32, R32, UnflattenField, NormalField, PrefixedBytes, PlainBytes, PrefixedSize, SeekableField, ShortItems;
    var items, ts := Items(f.rep), Items(tf.rep);
    LayoutCount(name, f);
    LayoutCount(name, tf);
    FieldIsArray(f);
    FieldIsArray(tf);
    FieldFillsSize(f);
    assert items[..|items|] == items;
    assert Merge(items, ts) == items;
    assert FirstItemsBytes(f, |ts|) == FieldBytes(f);
    FieldRoundTrip(f);
    if FixedSize(f.tc) > 0 || ShortItems(items) { ShortFieldIsSeekable(f); }
    SplitAt(FieldBytes(f), rest);
    if FixedSize(f.tc) == 0 {
      assert FieldBytes(f) + rest == W32(|items|) + (PrefixedBytes(items) + rest);
      ItemCountFits(items);
      R32W32(|items|, PrefixedBytes(items) + rest);
      WalkPrefixed(f.tc, items, rest);
    }
  }

  lemma ShortFieldIsSeekable(f: Field)
    requires ValidField(f) && IsFlattenable(f.tc) && f.tc != B_MESSAGE_TYPE
    requires FixedSize(f.tc) > 0 || ShortItems(Items(f.rep))
    ensures SeekableField(f)
  {
    hide ItemSize;
    match f.rep
    case Inline(item) => assert ValidItem(f.tc, item);
    case Array(items) => ShortItemsAreSeekable(f.tc, items);
  }

  lemma {:induction false} ShortItemsAreSeekable(tc: nat, items: seq<Item>)
    requires ValidItems(tc, items) && IsFlattenable(tc) && tc != B_MESSAGE_TYPE
    requires FixedSize(tc) > 0 || ShortItems(items)
    ensures SeekableItems(tc, items)
    decreases |items|
  {
    hide ItemSize;
    if |items| > 0 {
      assert ValidItem(tc, items[0]);
      ShortItemsAreSeekable(tc, items[1..]);
    }
  }

  lemma ItemCountFits(items: seq<Item>)
    requires PrefixedSize(items) < TWO32
    ensures |items| < TWO32
  {
    PrefixedSizeBound(items);
  }

  lemma {:induction false} WalkPrefixed(tc: nat, items: seq<Item>, rest: seq<Byte>)
    requires ValidItems(tc, items) && PrefixedSize(items) < TWO32
    ensures WalkItems(PrefixedBytes(items) + rest, |items|)
         == if ShortItems(items) then Ok(PrefixedSize(items)) else Err
    ensures |PrefixedBytes(items)| == PrefixedSize(items)
    decreases items
  {
    hide W32, R32, ItemBytes, ItemSize;
    if |items| > 0 {
      assert ValidItem(tc, items[0]);
      ItemFillsSize(tc, items[0]);
      WalkPrefixed(tc, items[1..], rest);
      var body, tail := ItemBytes(items[0]), PrefixedBytes(items[1..]) + rest;
      var s := W32(|body|) + (body + tail);
      assert PrefixedBytes(items) + rest == s;
      R32W32(|body|, body + tail);
      assert s[4 + |body|..] == tail;
    }
  }

  lemma {:induction false} TemplatedMessageFieldRoundTrip(name: seq<Byte>, f: Field, tf: Field, rest: seq<Byte>)
    requires ValidField(f) && ValidField(tf) && f.tc == B_MESSAGE_TYPE
    requires LayoutOfField(name, f) == LayoutOfField(name, tf) && NonEmptyField(LayoutOfField(name, f))
    requires TemplatedFieldSize(tf, Some(f)) < NO_LIMIT
    ensures |TemplatedFieldBytes(tf, Some(f))| == TemplatedFieldSize(tf, Some(f))
    ensures TemplatedUnflattenField(tf, TemplatedFieldBytes(tf, Some(f)) + rest)
         == if PayloadFieldSeekable(tf, Some(f))
            then Ok(Parsed(NormalField(f), TemplatedFieldSize(tf, Some(f)))) else Err
    decreases tf, f, 0
  {
    hide W32, R32, Valid, NonEmpty, TemplatedUnflattenItem, TemplatedItemBytes, TemplatedItemSize, LayoutOf,
      NormalField, PayloadItemSeekable;
    var items := Items(f.rep);
    LayoutCount(name, f);
    LayoutCount(name, tf);
    FieldIsArray(f);
    MessageFieldSubs(name, f);
    MessageFieldSubs(name, tf);
    match tf.rep
    case Inline(t) =>
      var body := TemplatedItemBytes(items, t);
      assert items == [items[0]];
      assert LayoutItems(items)[0] == LayoutOfItem(items[0]) && LayoutItems([t])[0] == LayoutOfItem(t);
      TemplatedItemRoundTrip(items, t, rest);
      R32W32(1, body + rest);
      assert W32(1) + body + rest == W32(1) + (body + rest);
      assert NormalItems(items) == [NormalItem(items[0])];
    case Array(ts) =>
      var body := TemplatedItemsBytes(items, ts);
      TemplatedItemsRoundTrip(items, ts, rest);
      R32W32(|ts|, body + rest);
      assert W32(|ts|) + body + rest == W32(|ts|) + (body + rest);
  }

  lemma MessageFieldSubs(name: seq<Byte>, f: Field)
    requires f.tc == B_MESSAGE_TYPE
    ensures LayoutOfField(name, f).subs == LayoutItems(Items(f.rep))
  {
    if f.rep.Inline? { assert LayoutItems([f.rep.item]) == [LayoutOfItem(f.rep.item)]; }
  }

  lemma {:induction false} TemplatedItemsRoundTrip(items: seq<Item>, ts: seq<Item>, rest: seq<Byte>)
    requires ValidItems(B_MESSAGE_TYPE, items) && ValidItems(B_MESSAGE_TYPE, ts)
    requires LayoutItems(items) == LayoutItems(ts)
    requires forall i :: 0 <= i < |items| ==> NonEmpty(LayoutItems(items)[i])
    requires TemplatedItemsSize(items, ts) < NO_LIMIT
    ensures |TemplatedItemsBytes(items, ts)| == TemplatedItemsSize(items, ts)
    ensures 4 * |ts| <= TemplatedItemsSize(items, ts)
    ensures TemplatedUnflattenItems(ts, TemplatedItemsBytes(items, ts) + rest)
         == if PayloadItemsSeekable(items, ts)
            then Ok(Parsed(NormalItems(items), TemplatedItemsSize(items, ts))) else Err
    decreases ts, items
  {
    hide W32, R32, NonEmpty, TemplatedUnflattenItem, TemplatedItemBytes, NormalItem, LayoutOfItem, LayoutItems,
      ValidItem, TemplatedSize, PayloadItemSeekable;
    LayoutItemsCount(items, ts);
    if |ts| > 0 {
      LayoutItemsSplit(items, ts);
      var head, tail := TemplatedItemBytes(items, ts[0]), TemplatedItemsBytes(items[1..], ts[1..]);
      TemplatedItemRoundTrip(items, ts[0], tail + rest);
      TemplatedItemsRoundTrip(items[1..], ts[1..], rest);
      assert head + tail + rest == head + (tail + rest);
      SplitAt(head, tail + rest);
    }
  }

  lemma LayoutItemsCount(items: seq<Item>, ts: seq<Item>)
    requires LayoutItems(items) == LayoutItems(ts)
    ensures |items| == |ts|
  {
    assert |LayoutItems(items)| == |LayoutItems(ts)|;
  }

  lemma LayoutItemsSplit(items: seq<Item>, ts: seq<Item>)
    requires LayoutItems(items) == LayoutItems(ts) && |items| == |ts| > 0
    requires forall i :: 0 <= i < |items| ==> NonEmpty(LayoutItems(items)[i])
    ensures LayoutOfItem(items[0]) == LayoutOfItem(ts[0]) && NonEmpty(LayoutOfItem(items[0]))
    ensures LayoutItems(items[1..]) == LayoutItems(ts[1..])
    ensures forall i :: 0 <= i < |items[1..]| ==> NonEmpty(LayoutItems(items[1..])[i])
  {
    hide NonEmpty, LayoutOfItem;
    var L := LayoutItems(items);
    assert L[0] == LayoutOfItem(items[0]) == LayoutOfItem(ts[0]);
    assert L[1..] == LayoutItems(items[1..]) == LayoutItems(ts[1..]);
    assert forall i :: 0 <= i < |L[1..]| ==> L[1..][i] == L[i + 1];
  }

  lemma {:induction false} TemplatedItemRoundTrip(items: seq<Item>, t: Item, rest: seq<Byte>)
    requires |items| > 0 && ValidItem(B_MESSAGE_TYPE, items[0]) && ValidItem(B_MESSAGE_TYPE, t)
    requires LayoutOfItem(items[0]) == LayoutOfItem(t) && NonEmpty(LayoutOfItem(items[0]))
    requires TemplatedItemSize(items, t) < NO_LIMIT
    ensures |TemplatedItemBytes(items, t)| == TemplatedItemSize(items, t)
    ensures TemplatedUnflattenItem(t, TemplatedItemBytes(items, t) + rest)
         == if PayloadItemSeekable(items, t) then Ok(Parsed(NormalItem(items[0]), TemplatedItemSize(items, t))) else Err
    decreases t, items
  {
    hide W32, R32, Valid, NonEmpty, TemplatedUnflatten, TemplatedBytes, TemplatedSize, LayoutOf, Normal,
      PayloadSeekable;
    TemplatedRoundTrip(items[0].msg, t.msg);
    var body := TemplatedBytes(items[0].msg, t.msg);
    assert W32(|body|) + body + rest == W32(|body|) + (body + rest);
    R32W32(|body|, body + rest);
    SplitAt(body, rest);
  }

  // ---- payloads below 2^31 bytes are always read back ----

  lemma {:induction false} SmallPayloadIsSeekable(m: Message, t: Message)
    requires TemplatedSize(m, t) < TWO31
    ensures PayloadSeekable(m, t)
    decreases t
  {
    SmallPayloadEntries(m, t.entries);
  }

  lemma {:induction false} SmallPayloadEntries(m: Message, ts: seq<Entry>)
    requires TemplatedEntriesSize(m, ts) < TWO31
    ensures PayloadEntriesSeekable(m, ts)
    decreases ts
  {
    hide TemplatedFieldSize, PayloadFieldSeekable, Find;
    if |ts| > 0 {
      if IsFlattenable(ts[0].field.tc) { SmallPayloadField(ts[0].field, Find(m.entries, ts[0].name)); }
      SmallPayloadEntries(m, ts[1..]);
    }
  }

  lemma {:induction false} SmallPayloadField(tf: Field, p: Option<Field>)
    requires TemplatedFieldSize(tf, p) < TWO31
    ensures PayloadFieldSeekable(tf, p)
    decreases tf
  {
    hide TemplatedItemSize, PayloadItemSeekable, ItemSize;
    if tf.tc == B_MESSAGE_TYPE {
      match tf.rep
      case Empty =>
      case Inline(t) => SmallPayloadItem(ItemsOf(p), t);
      case Array(ts) => SmallPayloadItems(ItemsOf(p), ts);
    } else if FixedSize(tf.tc) == 0 {
      var written := Merge(ItemsOf(p), Items(tf.rep));
      if p.None? {
        assert written == Items(tf.rep);
        VariableSize(tf);
      }
      SmallMeansShort(written);
    }
  }

  lemma VariableSize(f: Field)
    requires FixedSize(f.tc) == 0 && f.tc != B_MESSAGE_TYPE
    ensures PrefixedSize(Items(f.rep)) <= FieldSize(f)
  {
    hide ItemSize;
    match f.rep
    case Empty =>
    case Inline(item) =>
      assert [item][1..] == [];
      assert PrefixedSize([item]) == 4 + ItemSize(item) + PrefixedSize([]);
      assert FieldSize(f) == SingleSize(f.tc, item) == 8 + ItemSize(item);
    case Array(items) =>
      assert FieldSize(f) == ArraySize(f.tc, items) == 4 + PrefixedSize(items);
  }

  lemma {:induction false} SmallMeansShort(items: seq<Item>)
    requires PrefixedSize(items) < TWO31
    ensures ShortItems(items)
    decreases |items|
  {
    hide ItemSize;
    if |items| > 0 { SmallMeansShort(items[1..]); }
  }

  lemma {:induction false} SmallPayloadItems(items: seq<Item>, ts: seq<Item>)
    requires TemplatedItemsSize(items, ts) < TWO31
    ensures PayloadItemsSeekable(items, ts)
    decreases ts
  {
    hide TemplatedItemSize, PayloadItemSeekable;
    if |ts| > 0 {
      SmallPayloadItem(items, ts[0]);
      SmallPayloadItems(Rest(items), ts[1..]);
    }
  }

  lemma {:induction false} SmallPayloadItem(items: seq<Item>, t: Item)
    requires TemplatedItemSize(items, t) < TWO31
    ensures PayloadItemSeekable(items, t)
    decreases t
  {
    hide TemplatedSize, PayloadSeekable;
    if t.Sub? { SmallPayloadIsSeekable(Source(items, t), t.msg); }
  }

  // ---- a payload that is not read back ----

  /** A Message with a single String. */
  function OneText(chars: seq<Byte>): Message {
    Message(0, [Entry([97], Field(B_STRING_TYPE, Inline(Text(chars))))])
  }

  lemma OneTextFacts(chars: seq<Byte>)
    requires NoNul(chars)
    ensures var m := OneText(chars);
      && Valid(m) && Seekable(m) && LayoutOf(m) == Layout([LayoutField([97], B_STRING_TYPE, 1, [])])
      && NonEmpty(LayoutOf(m)) && FlattenedSize(m) == 35 + |chars|
  {
    var m := OneText(chars);
    var e := m.entries[0];
    assert m.entries[1..] == [];
    assert ValidItem(B_STRING_TYPE, Text(chars)) && ValidField(e.field);
    assert SeekableEntries(m.entries[1..]) && SeekableField(e.field);
    assert LayoutEntries(m.entries) == [LayoutOfField([97], e.field)] + LayoutEntries([]);
    assert FieldSize(e.field) == SingleSize(B_STRING_TYPE, Text(chars)) == 9 + |chars|;
    assert EntriesSize(m.entries) == 14 + FieldSize(e.field) + EntriesSize([]);
  }

  /** A String of 2^31 - 1 characters cannot be read back from a payload, although it can be from the full encoding. */
  lemma HugeTextIsNotReadBack()
    ensures var m, t := OneText(seq(TWO31 - 1, i => 97)), OneText([]);
      && Valid(m) && Valid(t) && LayoutOf(m) == LayoutOf(t) && TemplatedSize(m, t) < NO_LIMIT
      && TemplatedUnflatten(t, TemplatedBytes(m, t)) == Err
      && Unflatten(Flatten(m)).Ok?
  {
    hide TemplatedUnflatten, TemplatedBytes, Unflatten, Flatten, LayoutOf, NonEmpty, Seekable, Valid, FlattenedSize;
    var text := seq(TWO31 - 1, i => 97);
    var m, t := OneText(text), OneText([]);
    OneTextFacts(text);
    OneTextFacts([]);
    OneTextPayload(text);
    TemplatedRoundTrip(m, t);
    RoundTrip(m);
  }

  lemma OneTextPayload(chars: seq<Byte>)
    ensures var m, t := OneText(chars), OneText([]);
      TemplatedSize(m, t) == 13 + |chars| && PayloadSeekable(m, t) == (|chars| + 1 < TWO31)
  {
    var m, t := OneText(chars), OneText([]);
    assert t.entries[1..] == [];
    var written := Merge([Text(chars)], [Text([])]);
    assert written == [Text(chars)] && written[1..] == [];
    assert PrefixedSize(written) == 4 + (|chars| + 1) + PrefixedSize([]);
    assert ShortItems(written) == (|chars| + 1 < TWO31);
    assert TemplatedEntriesSize(m, t.entries) == 4 + PrefixedSize(written) + TemplatedEntriesSize(m, []);
  }
}
