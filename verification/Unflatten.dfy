/** Message::Unflatten() on arbitrary bytes, and the round trip with Message::Flatten(). */
module Unflattening {
  import opened Bytes
  import opened Messages

  /** A parsed value and how many bytes of the buffer were consumed for it. */
  datatype Parsed<+T> = Parsed(value: T, used: nat)

  /** String::Unflatten(): the bytes before the first NUL; an unterminated buffer reads as the empty String. */
  function CString(s: seq<Byte>): (r: seq<Byte>)
    ensures NoNul(r) && |r| <= |s|
  {
    var k := FirstNul(s);
    if k < |s| then s[..k] else []
  }

  function FirstNul(s: seq<Byte>): (k: nat)
    ensures k <= |s| && NoNul(s[..k])
    ensures k < |s| ==> s[k] == 0
  {
    if |s| == 0 || s[0] == 0 then 0
    else
      var k := FirstNul(s[1..]);
      assert s[..k + 1] == [s[0]] + s[1..][..k];
      k + 1
  }

  function Lookup(es: seq<Entry>, name: seq<Byte>): (i: nat)
    ensures i <= |es|
    ensures i < |es| ==> es[i].name == name
    ensures forall j :: 0 <= j < i ==> es[j].name != name
  {
    if |es| == 0 || es[0].name == name then 0 else 1 + Lookup(es[1..], name)
  }

  /** Where a field of the given name and type lives, or will be appended. */
  datatype Slot = Slot(index: nat, tc: nat)

  /** Message::GetOrCreateMessageField(): an existing field is reused if its type fits; a clash is an error. */
  function GetOrCreateField(es: seq<Entry>, name: seq<Byte>, tc: nat): (r: Result<Slot>)
    ensures r.Ok? ==> r.value.index <= |es|
  {
    var i := Lookup(es, name);
    if i == |es| then Ok(Slot(i, tc))
    else if tc == B_ANY_TYPE || tc == es[i].field.tc then Ok(Slot(i, es[i].field.tc))
    else Err
  }

  function PutField(es: seq<Entry>, i: nat, e: Entry): seq<Entry>
    requires i <= |es|
  {
    if i < |es| then es[i := e] else es + [e]
  }

  function Unflatten(buf: seq<Byte>): (r: Result<Parsed<Message>>)
    ensures r.Ok? ==> r.value.used <= |buf|
    decreases |buf|, 5
  {
    if |buf| < 12 || R32(buf) != PROTOCOL_VERSION then Err
    else
      var s4 := buf[4..];
      var s8 := s4[4..];
      var s12 := s8[4..];
      if R32(s8) > |s12| / 12 then Err
      else match UnflattenEntries(s12, R32(s8), [])
        case Err => Err
        case Ok(p) => Ok(Parsed(Message(R32(s4), p.value), 12 + p.used))
  }

  /** The entry loop of Message::Unflatten(); acc holds the entries created so far. */
  function UnflattenEntries(buf: seq<Byte>, n: nat, acc: seq<Entry>): (r: Result<Parsed<seq<Entry>>>)
    ensures r.Ok? ==> r.value.used <= |buf|
    decreases |buf|, 4
  {
    if n == 0 then Ok(Parsed(acc, 0))
    else
      match UnflattenEntry(buf, acc)
      case Err => Err
      case Ok(p) =>
        match UnflattenEntries(buf[p.used..], n - 1, p.value)
        case Err => Err
        case Ok(q) => Ok(Parsed(q.value, p.used + q.used))
  }

  /** One turn of the entry loop: the entries afterwards, and the bytes consumed. */
  function UnflattenEntry(buf: seq<Byte>, acc: seq<Entry>): (r: Result<Parsed<seq<Entry>>>)
    ensures r.Ok? ==> 0 < r.value.used <= |buf|
    decreases |buf|, 3
  {
    if |buf| < 4 || |buf| - 4 < R32(buf) || |buf| - 4 - R32(buf) < 8 then Err
    else
      var nameLen := R32(buf);
      var s1 := buf[4..];
      var name := CString(s1[..nameLen]);
      var s2 := s1[nameLen..];
      var s3 := s2[4..];
      var body := s3[4..];
      match GetOrCreateField(acc, name, R32(s2))
      case Err => Err
      case Ok(slot) =>
        match UnflattenField(slot.tc, if R32(s3) <= |body| then body[..R32(s3)] else body)
        case Err => Err
        case Ok(p) => Ok(Parsed(PutField(acc, slot.index, Entry(name, p.value)), 12 + nameLen + p.used))
  }

  /** MessageField::GetNumItemsInFlattenedBuffer() */
  function NumItemsInBuffer(tc: nat, buf: seq<Byte>): nat {
    if FixedSize(tc) > 0 then |buf| / FixedSize(tc)
    else if |buf| < 4 then 0
    else if tc == B_MESSAGE_TYPE then
      if R32(buf) > |buf| - 4 then 0 else if R32(buf) == |buf| - 4 then 1 else 2
    else R32(buf)
  }

  function UnflattenField(tc: nat, buf: seq<Byte>): (r: Result<Parsed<Field>>)
    ensures r.Ok? ==> r.value.used <= |buf| && r.value.value.tc == tc
    decreases |buf|, 2
  {
    if NumItemsInBuffer(tc, buf) == 1 then
      match SingleUnflatten(tc, buf)
      case Err => Err
      case Ok(p) => Ok(Parsed(Field(tc, Inline(p.value)), p.used))
    else
      match ArrayUnflatten(tc, buf)
      case Err => Err
      case Ok(p) => Ok(Parsed(Field(tc, Array(p.value)), p.used))
  }

  /** A bool is read as "not zero"; every other POD is its memory image. */
  function PodItem(tc: nat, image: seq<Byte>): Item {
    if tc == B_BOOL_TYPE && |image| == 1 then Pod([if image[0] != 0 then 1 else 0]) else Pod(image)
  }

  /** MessageField::SingleUnflatten() */
  function SingleUnflatten(tc: nat, buf: seq<Byte>): (r: Result<Parsed<Item>>)
    requires NumItemsInBuffer(tc, buf) == 1
    ensures r.Ok? ==> r.value.used <= |buf|
    decreases |buf|, 1
  {
    if !IsFlattenable(tc) then Err
    else if FixedSize(tc) > 0 then Ok(Parsed(PodItem(tc, buf[..FixedSize(tc)]), FixedSize(tc)))
    else if tc == B_MESSAGE_TYPE then
      match Unflatten(buf[4..])
      case Err => Err
      case Ok(p) => Ok(Parsed(Sub(p.value), |buf|))
    else if |buf| < 8 || R32(buf[4..]) > |buf| - 8 then Err
    else if tc == B_STRING_TYPE then Ok(Parsed(Text(CString(buf[8..8 + R32(buf[4..])])), 8 + R32(buf[4..])))
    else if R32(buf[4..]) != |buf| - 8 then Err
    else Ok(Parsed(Blob(buf[8..]), |buf|))
  }

  /** TemplatedUnflatten() of the data-array classes.  Tag and pointer arrays assert that they are never called. */
  function ArrayUnflatten(tc: nat, buf: seq<Byte>): (r: Result<Parsed<seq<Item>>>)
    ensures r.Ok? ==> r.value.used <= |buf|
    decreases |buf|, 1
  {
    if !IsFlattenable(tc) then Err
    else if FixedSize(tc) > 0 then
      if |buf| % FixedSize(tc) != 0 then Err else Ok(Parsed(UnflattenPods(tc, buf), |buf|))
    else if tc == B_MESSAGE_TYPE then UnflattenSubs(buf)
    else if |buf| < 4 then Err
    else match UnflattenPrefixed(tc, buf[4..], R32(buf))
      case Err => Err
      case Ok(p) => Ok(Parsed(p.value, 4 + p.used))
  }

  function UnflattenPods(tc: nat, buf: seq<Byte>): seq<Item>
    requires FixedSize(tc) > 0
    decreases |buf|
  {
    if |buf| < FixedSize(tc) then []
    else [PodItem(tc, buf[..FixedSize(tc)])] + UnflattenPods(tc, buf[FixedSize(tc)..])
  }

  /** The item loop shared by StringDataArray and ByteBufferDataArray.  The latter moves on with SeekRelative(), whose
      argument is a signed 32-bit number: a size of 2^31 or more is an attempt to go back beyond the start. */
  function UnflattenPrefixed(tc: nat, buf: seq<Byte>, n: nat): (r: Result<Parsed<seq<Item>>>)
    ensures r.Ok? ==> r.value.used <= |buf|
    decreases |buf|
  {
    if n == 0 then Ok(Parsed([], 0))
    else if |buf| < 4 || R32(buf) > |buf| - 4 || (tc != B_STRING_TYPE && R32(buf) >= TWO31) then Err
    else
      var size := R32(buf);
      match UnflattenPrefixed(tc, buf[4 + size..], n - 1)
      case Err => Err
      case Ok(p) => Ok(Parsed([PrefixedItem(tc, buf[4..4 + size])] + p.value, 4 + size + p.used))
  }

  function PrefixedItem(tc: nat, bytes: seq<Byte>): Item {
    if tc == B_STRING_TYPE then Text(CString(bytes)) else Blob(bytes)
  }

  /** MessageDataArray: there is no item count, so sub-Messages are read until the buffer is used up; each
      read resumes where the sub-Message's own Unflatten() stopped. */
  function UnflattenSubs(buf: seq<Byte>): (r: Result<Parsed<seq<Item>>>)
    ensures r.Ok? ==> r.value.used <= |buf|
    decreases |buf|, 0
  {
    if |buf| == 0 then Ok(Parsed([], 0))
    else if |buf| < 4 || R32(buf) > |buf| - 4 then Err
    else match Unflatten(buf[4..4 + R32(buf)])
      case Err => Err
      case Ok(m) =>
        match UnflattenSubs(buf[4 + m.used..])
        case Err => Err
        case Ok(p) => Ok(Parsed([Sub(m.value)] + p.value, 4 + m.used + p.used))
  }

  // ---- what survives the wire ----

  /** The flattenable part of a Message, with every field in the state that Unflatten() leaves it in. */
  function Normal(m: Message): Message
    decreases m
  {
    Message(m.what, NormalEntries(m.entries))
  }

  function NormalEntries(es: seq<Entry>): seq<Entry>
    decreases es
  {
    if |es| == 0 then []
    else if !IsFlattenable(es[0].field.tc) then NormalEntries(es[1..])
    else [Entry(es[0].name, NormalField(es[0].field))] + NormalEntries(es[1..])
  }

  function NormalField(f: Field): Field
    decreases f
  {
    match f.rep
    case Empty => Field(f.tc, Array([]))
    case Inline(item) => Field(f.tc, Inline(NormalItem(item)))
    case Array(items) => Field(f.tc, RepOf(NormalItems(items)))
  }

  /** One item is held inline, any other number in an array. */
  function RepOf(items: seq<Item>): Rep {
    if |items| == 1 then Inline(items[0]) else Array(items)
  }

  function NormalItems(items: seq<Item>): (r: seq<Item>)
    ensures |r| == |items|
    decreases items
  {
    if |items| == 0 then [] else [NormalItem(items[0])] + NormalItems(items[1..])
  }

  function NormalItem(item: Item): Item
    decreases item
  {
    if item.Sub? then Sub(Normal(item.msg)) else item
  }

  // ---- what can be read back ----

  /** A flattenable Message in which no ByteBuffer of 2^31 bytes or more shares its field with other ByteBuffers. */
  predicate Seekable(m: Message)
    decreases m
  {
    SeekableEntries(m.entries)
  }

  predicate SeekableEntries(es: seq<Entry>)
    decreases es
  {
    |es| > 0 ==> (IsFlattenable(es[0].field.tc) ==> SeekableField(es[0].field)) && SeekableEntries(es[1..])
  }

  predicate SeekableField(f: Field)
    decreases f
  {
    match f.rep
    case Empty => true
    case Inline(item) => SeekableItem(item)
    case Array(items) => if |items| == 1 then SeekableItem(items[0]) else SeekableItems(f.tc, items)
  }

  predicate SeekableItems(tc: nat, items: seq<Item>)
    decreases items
  {
    |items| > 0 ==>
      SeekableItem(items[0]) && (HoldsBuffers(tc) ==> ItemSize(items[0]) < TWO31) && SeekableItems(tc, items[1..])
  }

  predicate SeekableItem(item: Item)
    decreases item
  {
    item.Sub? ==> Seekable(item.msg)
  }

  predicate HoldsBuffers(tc: nat) {
    FixedSize(tc) == 0 && tc != B_MESSAGE_TYPE && tc != B_STRING_TYPE
  }

  // ---- the round trip ----

  /** A buffer length that the source takes for "no limit". */
  const NO_LIMIT: nat := TWO32 - 1

  /** The bytes of a Message are read back exactly when it is seekable, and then give its flattenable part. */
  lemma {:induction false} RoundTrip(m: Message)
    requires Valid(m) && FlattenedSize(m) < NO_LIMIT
    ensures Unflatten(Flatten(m)) == if Seekable(m) then Ok(Parsed(Normal(m), FlattenedSize(m))) else Err
    decreases m, 5
  {
    hide W32, R32, UnflattenEntries, EntriesBytes, ValidEntry;
    var body := EntriesBytes(m.entries);
    var t8 := W32(NumFlattenable(m.entries)) + body;
    var t4 := W32(m.what) + t8;
    R32W32(PROTOCOL_VERSION, t4);
    R32W32(m.what, t8);
    EntriesFillSize(m.entries);
    EntriesNeedTwelveBytes(m.entries);
    R32W32(NumFlattenable(m.entries), body);
    EntriesRoundTrip(m.entries, []);
    assert [] + NormalEntries(m.entries) == NormalEntries(m.entries);
  }

  lemma {:induction false} EntriesNeedTwelveBytes(es: seq<Entry>)
    ensures 12 * NumFlattenable(es) <= EntriesSize(es)
  {
    if |es| > 0 { EntriesNeedTwelveBytes(es[1..]); }
  }

  lemma {:induction false} EntriesRoundTrip(es: seq<Entry>, acc: seq<Entry>)
    requires forall i :: 0 <= i < |es| ==> ValidEntry(es[i])
    requires DistinctNames(es)
    requires forall i, j :: 0 <= i < |acc| && 0 <= j < |es| ==> acc[i].name != es[j].name
    requires EntriesSize(es) < NO_LIMIT
    ensures UnflattenEntries(EntriesBytes(es), NumFlattenable(es), acc)
         == if SeekableEntries(es) then Ok(Parsed(acc + NormalEntries(es), EntriesSize(es))) else Err
    decreases es, 4
  {
    hide UnflattenEntries, UnflattenField, EntryBytes, FieldBytes, ValidItem, ValidItems, SeekableField;
    if |es| == 0 {
      EntriesNil(acc);
      assert acc + [] == acc;
    } else if !IsFlattenable(es[0].field.tc) {
      EntriesRoundTrip(es[1..], acc);
    } else {
      var e := es[0];
      var f' := NormalField(e.field);
      FieldRoundTrip(e.field);
      FieldFillsSize(e.field);
      EntriesRoundTrip(es[1..], acc + [Entry(e.name, f')]);
      EntriesCons(e.name, e.field.tc, FieldBytes(e.field), EntriesBytes(es[1..]), NumFlattenable(es[1..]), acc);
      assert acc + [Entry(e.name, f')] + NormalEntries(es[1..]) == acc + ([Entry(e.name, f')] + NormalEntries(es[1..]));
    }
  }

  lemma EntriesNil(acc: seq<Entry>)
    ensures UnflattenEntries([], 0, acc) == Ok(Parsed(acc, 0))
  {
  }

  /** The entry loop, over the bytes of one entry followed by any others. */
  lemma EntriesCons(name: seq<Byte>, tc: nat, fb: seq<Byte>, rest: seq<Byte>, n: nat, acc: seq<Entry>)
    requires NoNul(name) && |name| + 1 < TWO32 && tc < TWO32 && |fb| < TWO32
    requires UnflattenField(tc, fb).Ok? ==> UnflattenField(tc, fb).value.used == |fb|
    requires forall i :: 0 <= i < |acc| ==> acc[i].name != name
    ensures UnflattenEntries(EntryBytes(name, tc, |fb|, fb, rest), n + 1, acc)
         == match UnflattenField(tc, fb)
            case Err => Err
            case Ok(p) =>
              match UnflattenEntries(rest, n, acc + [Entry(name, p.value)])
              case Err => Err
              case Ok(q) => Ok(Parsed(q.value, 13 + |name| + |fb| + q.used))
  {
    hide UnflattenEntry, UnflattenField, EntryBytes;
    EntryStep(name, tc, fb, rest, acc);
    EntrySuffix(name, tc, fb, rest);
  }

  lemma EntryStep(name: seq<Byte>, tc: nat, fb: seq<Byte>, rest: seq<Byte>, acc: seq<Entry>)
    requires NoNul(name) && |name| + 1 < TWO32 && tc < TWO32 && |fb| < TWO32
    requires UnflattenField(tc, fb).Ok? ==> UnflattenField(tc, fb).value.used == |fb|
    requires forall i :: 0 <= i < |acc| ==> acc[i].name != name
    ensures UnflattenEntry(EntryBytes(name, tc, |fb|, fb, rest), acc)
         == match UnflattenField(tc, fb)
            case Err => Err
            case Ok(p) => Ok(Parsed(acc + [Entry(name, p.value)], 13 + |name| + |fb|))
  {
    hide R32, UnflattenField, CString, NoNul, EntryBytes, GetOrCreateField, PutField;
    EntryParts(name, tc, fb, rest);
    var field := UnflattenField(tc, fb);
    NewName(acc, name, tc, if field.Ok? then field.value.value else Field(tc, Empty));
    var s1 := EntryBytes(name, tc, |fb|, fb, rest)[4..];
    var body := s1[|name| + 1..][4..][4..];
    assert body == fb + rest && body[..|fb|] == fb;
  }

  lemma NewName(acc: seq<Entry>, name: seq<Byte>, tc: nat, f: Field)
    requires forall i :: 0 <= i < |acc| ==> acc[i].name != name
    ensures GetOrCreateField(acc, name, tc) == Ok(Slot(|acc|, tc))
    ensures PutField(acc, |acc|, Entry(name, f)) == acc + [Entry(name, f)]
  {
  }

  /** Where the parts of an entry lie. */
  lemma EntryParts(name: seq<Byte>, tc: nat, fb: seq<Byte>, rest: seq<Byte>)
    requires NoNul(name) && |name| + 1 < TWO32 && tc < TWO32 && |fb| < TWO32
    ensures var s := EntryBytes(name, tc, |fb|, fb, rest);
      && |s| == 13 + |name| + |fb| + |rest| && R32(s) == |name| + 1
      && CString(s[4..][..|name| + 1]) == name
      && R32(s[4..][|name| + 1..]) == tc
      && R32(s[4..][|name| + 1..][4..]) == |fb|
      && s[4..][|name| + 1..][4..][4..] == fb + rest && (fb + rest)[..|fb|] == fb
  {
    hide W32, R32, CString, NoNul;
    var body := fb + rest;
    var t3 := W32(|fb|) + body;
    var t2 := W32(tc) + t3;
    R32W32(|name| + 1, (name + [0]) + t2);
    SplitAt(name + [0], t2);
    CStringOfText(name);
    R32W32(tc, t3);
    R32W32(|fb|, body);
    SplitAt(fb, rest);
  }

  lemma EntrySuffix(name: seq<Byte>, tc: nat, fb: seq<Byte>, rest: seq<Byte>)
    ensures |EntryBytes(name, tc, |fb|, fb, rest)| == 13 + |name| + |fb| + |rest|
    ensures EntryBytes(name, tc, |fb|, fb, rest)[13 + |name| + |fb|..] == rest
  {
    hide W32;
  }

  lemma CStringOfText(chars: seq<Byte>)
    requires NoNul(chars)
    ensures CString(chars + [0]) == chars
  {
    var s := chars + [0];
    var k := FirstNul(s);
    assert forall i :: 0 <= i < |chars| ==> s[i] == chars[i];
    assert s[|chars|] == 0;
    assert forall i :: 0 <= i < k ==> s[..k][i] == s[i];
  }

  lemma {:induction false} FieldRoundTrip(f: Field)
    requires ValidField(f) && IsFlattenable(f.tc) && FieldSize(f) < NO_LIMIT
    ensures UnflattenField(f.tc, FieldBytes(f))
         == if SeekableField(f) then Ok(Parsed(NormalField(f), FieldSize(f))) else Err
    decreases f, 3
  {
    match f.rep
    case Inline(item) =>
      SingleIsArray(f.tc, item);
      SingleRoundTrip(f.tc, item);
    case Array(items) =>
      if |items| == 1 {
        assert items == [items[0]];
        SingleIsArray(f.tc, items[0]);
        SingleRoundTrip(f.tc, items[0]);
      } else {
        ArrayRoundTrip(f.tc, items);
      }
  }

  /** An inline item and a one-element array have the same wire image and the same computed size. */
  lemma SingleIsArray(tc: nat, item: Item)
    requires ValidItem(tc, item) && IsFlattenable(tc)
    ensures SingleBytes(tc, item) == ArrayBytes(tc, [item])
    ensures SingleSize(tc, item) == ArraySize(tc, [item])
  {
    assert [item][1..] == [];
    assert PlainBytes([item]) == ItemBytes(item) + PlainBytes([]);
    assert PrefixedBytes([item]) == W32(ItemSize(item)) + (ItemBytes(item) + PrefixedBytes([]));
    assert PrefixedSize([item]) == 4 + ItemSize(item) + PrefixedSize([]);
  }

  lemma FieldIsArray(f: Field)
    requires ValidField(f) && IsFlattenable(f.tc)
    ensures FieldBytes(f) == ArrayBytes(f.tc, Items(f.rep))
    ensures FieldSize(f) == ArraySize(f.tc, Items(f.rep))
    ensures ValidItems(f.tc, Items(f.rep))
    ensures NormalField(f) == Field(f.tc, RepOf(NormalItems(Items(f.rep))))
  {
    if f.rep.Inline? {
      SingleIsArray(f.tc, f.rep.item);
      assert NormalItems([f.rep.item]) == [NormalItem(f.rep.item)];
    }
  }

  lemma {:induction false} SingleRoundTrip(tc: nat, item: Item)
    requires ValidItem(tc, item) && IsFlattenable(tc) && SingleSize(tc, item) < NO_LIMIT
    ensures UnflattenField(tc, SingleBytes(tc, item))
         == if SeekableItem(item) then Ok(Parsed(Field(tc, Inline(NormalItem(item))), SingleSize(tc, item))) else Err
    decreases item, 2
  {
    hide W32, R32, Unflatten, CString, Flatten, Valid, Seekable;
    var s := SingleBytes(tc, item);
    ItemFillsSize(tc, item);
    if FixedSize(tc) > 0 {
      MultipleOf(1, FixedSize(tc));
      assert s[..FixedSize(tc)] == s;
      if tc == B_BOOL_TYPE { assert s == [s[0]]; }
    } else if tc == B_MESSAGE_TYPE {
      RoundTrip(item.msg);
      R32W32(ItemSize(item), ItemBytes(item));
    } else {
      var tail := W32(ItemSize(item)) + ItemBytes(item);
      R32W32(1, tail);
      R32W32(ItemSize(item), ItemBytes(item));
      assert s[4..] == tail;
      assert s[8..] == ItemBytes(item);
      if tc == B_STRING_TYPE {
        CStringOfText(item.chars);
        assert s[8..8 + ItemSize(item)] == ItemBytes(item);
      }
    }
  }

  lemma {:induction false} ArrayRoundTrip(tc: nat, items: seq<Item>)
    requires ValidItems(tc, items) && IsFlattenable(tc) && |items| != 1 && ArraySize(tc, items) < NO_LIMIT
    ensures UnflattenField(tc, ArrayBytes(tc, items))
         == if SeekableItems(tc, items)
            then Ok(Parsed(Field(tc, Array(NormalItems(items))), ArraySize(tc, items))) else Err
    decreases items, 2
  {
    hide W32, R32, SeekableItems;
    ItemsFillSize(tc, items);
    if FixedSize(tc) > 0 {
      PodsRoundTrip(tc, items);
      PodsAreSeekable(tc, items);
      MultipleOf(|items|, FixedSize(tc));
    } else if tc == B_MESSAGE_TYPE {
      SubsRoundTrip(items);
      SubsCount(items);
    } else {
      PrefixedSizeBound(items);
      R32W32(|items|, PrefixedBytes(items));
      PrefixedRoundTrip(tc, items);
    }
  }

  lemma {:induction false} PodsAreSeekable(tc: nat, items: seq<Item>)
    requires ValidItems(tc, items) && IsFlattenable(tc) && FixedSize(tc) > 0
    ensures SeekableItems(tc, items)
    decreases |items|
  {
    if |items| > 0 {
      assert ValidItem(tc, items[0]);
      PodsAreSeekable(tc, items[1..]);
    }
  }

  lemma MultipleOf(n: nat, k: nat)
    requires k == 1 || k == 2 || k == 4 || k == 8 || k == 16
    ensures (n * k) / k == n && (n * k) % k == 0
  {
  }

  lemma PrefixedSizeBound(items: seq<Item>)
    ensures 4 * |items| <= PrefixedSize(items)
  {
  }

  lemma {:induction false} PodsRoundTrip(tc: nat, items: seq<Item>)
    requires ValidItems(tc, items) && IsFlattenable(tc) && FixedSize(tc) > 0
    ensures UnflattenPods(tc, PlainBytes(items)) == items == NormalItems(items)
    decreases items, 1
  {
    if |items| > 0 {
      var s := PlainBytes(items);
      assert ValidItem(tc, items[0]);
      assert ItemBytes(items[0]) == items[0].image;
      assert s[..FixedSize(tc)] == items[0].image;
      if tc == B_BOOL_TYPE { assert items[0].image == [items[0].image[0]]; }
      assert s[FixedSize(tc)..] == PlainBytes(items[1..]);
      PodsRoundTrip(tc, items[1..]);
      assert items == [items[0]] + items[1..];
    }
  }

  lemma {:induction false} PrefixedRoundTrip(tc: nat, items: seq<Item>)
    requires ValidItems(tc, items) && IsFlattenable(tc) && FixedSize(tc) == 0 && tc != B_MESSAGE_TYPE
    requires PrefixedSize(items) < NO_LIMIT
    ensures UnflattenPrefixed(tc, PrefixedBytes(items), |items|)
         == if SeekableItems(tc, items) then Ok(Parsed(items, PrefixedSize(items))) else Err
    ensures NormalItems(items) == items
    decreases items, 1
  {
    hide W32, R32, UnflattenPrefixed, ItemBytes, ItemSize;
    if |items| == 0 {
      PrefixedNil(tc);
    } else {
      assert ValidItem(tc, items[0]);
      ItemFillsSize(tc, items[0]);
      PrefixedRoundTrip(tc, items[1..]);
      PrefixedStep(tc, items[0], PrefixedBytes(items[1..]), |items| - 1);
      assert items == [items[0]] + items[1..];
    }
  }

  lemma PrefixedNil(tc: nat)
    ensures UnflattenPrefixed(tc, [], 0) == Ok(Parsed([], 0))
  {
  }

  lemma PrefixedStep(tc: nat, item: Item, rest: seq<Byte>, n: nat)
    requires ValidItem(tc, item) && IsFlattenable(tc) && FixedSize(tc) == 0 && tc != B_MESSAGE_TYPE
    requires ItemSize(item) < TWO32
    ensures UnflattenPrefixed(tc, W32(ItemSize(item)) + (ItemBytes(item) + rest), n + 1)
         == if HoldsBuffers(tc) && ItemSize(item) >= TWO31 then Err
            else
              match UnflattenPrefixed(tc, rest, n)
              case Err => Err
              case Ok(p) => Ok(Parsed([item] + p.value, 4 + ItemSize(item) + p.used))
  {
    hide W32, UnflattenPrefixed, ItemBytes, ItemSize, FixedSize, ValidItem;
    PrefixedItemOf(tc, item);
    PrefixedStepBytes(tc, ItemBytes(item), rest, n);
  }

  lemma PrefixedItemOf(tc: nat, item: Item)
    requires ValidItem(tc, item) && IsFlattenable(tc) && FixedSize(tc) == 0 && tc != B_MESSAGE_TYPE
    ensures PrefixedItem(tc, ItemBytes(item)) == item && |ItemBytes(item)| == ItemSize(item)
  {
    hide CString;
    if tc == B_STRING_TYPE { CStringOfText(item.chars); }
  }

  lemma PrefixedStepBytes(tc: nat, body: seq<Byte>, rest: seq<Byte>, n: nat)
    requires |body| < TWO32
    ensures UnflattenPrefixed(tc, W32(|body|) + (body + rest), n + 1)
         == if tc != B_STRING_TYPE && |body| >= TWO31 then Err
            else
              match UnflattenPrefixed(tc, rest, n)
              case Err => Err
              case Ok(p) => Ok(Parsed([PrefixedItem(tc, body)] + p.value, 4 + |body| + p.used))
  {
    hide W32, R32, PrefixedItem;
    var s := W32(|body|) + (body + rest);
    R32W32(|body|, body + rest);
    assert s[4..4 + |body|] == body;
    assert s[4 + |body|..] == rest;
  }

  lemma {:induction false} SubRoundTrip(item: Item)
    requires item.Sub? && Valid(item.msg) && ItemSize(item) < NO_LIMIT
    ensures Unflatten(ItemBytes(item))
         == if SeekableItem(item) then Ok(Parsed(NormalItem(item).msg, ItemSize(item))) else Err
    decreases item, 1
  {
    RoundTrip(item.msg);
  }

  lemma {:induction false} SubsRoundTrip(items: seq<Item>)
    requires ValidItems(B_MESSAGE_TYPE, items) && PrefixedSize(items) < NO_LIMIT
    ensures UnflattenSubs(PrefixedBytes(items))
         == if SeekableItems(B_MESSAGE_TYPE, items) then Ok(Parsed(NormalItems(items), PrefixedSize(items))) else Err
    decreases items, 1
  {
    hide W32, R32, Unflatten, UnflattenSubs, Valid, ItemBytes, SeekableItem;
    if |items| == 0 {
      SubsNil();
    } else {
      assert ValidItem(B_MESSAGE_TYPE, items[0]);
      ItemFillsSize(B_MESSAGE_TYPE, items[0]);
      SubRoundTrip(items[0]);
      SubsRoundTrip(items[1..]);
      SubsStep(ItemBytes(items[0]), PrefixedBytes(items[1..]));
    }
  }

  lemma SubsNil()
    ensures UnflattenSubs([]) == Ok(Parsed([], 0))
  {
  }

  lemma SubsStep(body: seq<Byte>, rest: seq<Byte>)
    requires |body| < TWO32
    requires Unflatten(body).Ok? ==> Unflatten(body).value.used == |body|
    ensures UnflattenSubs(W32(|body|) + (body + rest))
         == match Unflatten(body)
            case Err => Err
            case Ok(m) =>
              match UnflattenSubs(rest)
              case Err => Err
              case Ok(p) => Ok(Parsed([Sub(m.value)] + p.value, 4 + |body| + p.used))
  {
    hide W32, R32, Unflatten;
    var s := W32(|body|) + (body + rest);
    R32W32(|body|, body + rest);
    assert s[4..4 + |body|] == body;
    assert s[4 + |body|..] == rest;
  }

  /** A Message array of other than one element is never taken for a single inline Message. */
  lemma SubsCount(items: seq<Item>)
    requires ValidItems(B_MESSAGE_TYPE, items) && |items| != 1 && PrefixedSize(items) < TWO32
    ensures NumItemsInBuffer(B_MESSAGE_TYPE, PrefixedBytes(items)) != 1
  {
    hide W32, R32, ItemBytes, ItemSize, ValidItem;
    if |items| > 1 {
      var body := ItemBytes(items[0]);
      var rest := PrefixedBytes(items[1..]);
      ItemFillsSize(B_MESSAGE_TYPE, items[0]);
      R32W32(|body|, body + rest);
      assert |rest| >= 4;
    }
  }

  // ---- Messages below 2^31 bytes are always read back ----

  lemma {:induction false} SmallIsSeekable(m: Message)
    requires Valid(m) && FlattenedSize(m) < TWO31
    ensures Seekable(m)
    decreases m
  {
    hide ValidEntry;
    SmallEntriesAreSeekable(m.entries);
  }

  lemma {:induction false} SmallEntriesAreSeekable(es: seq<Entry>)
    requires EntriesSize(es) < TWO31 && forall i :: 0 <= i < |es| ==> ValidEntry(es[i])
    ensures SeekableEntries(es)
    decreases es
  {
    hide FieldSize, SeekableField, ValidField;
    if |es| > 0 {
      if IsFlattenable(es[0].field.tc) { SmallFieldIsSeekable(es[0].field); }
      SmallEntriesAreSeekable(es[1..]);
    }
  }

  lemma {:induction false} SmallFieldIsSeekable(f: Field)
    requires ValidField(f) && IsFlattenable(f.tc) && FieldSize(f) < TWO31
    ensures SeekableField(f)
    decreases f
  {
    hide ValidItem, ItemSize;
    match f.rep
    case Inline(item) =>
      SmallItemIsSeekable(f.tc, item);
    case Array(items) =>
      if FixedSize(f.tc) > 0 {
        PodsAreSeekable(f.tc, items);
      } else {
        SmallItemsAreSeekable(f.tc, items);
      }
  }

  lemma {:induction false} SmallItemsAreSeekable(tc: nat, items: seq<Item>)
    requires ValidItems(tc, items) && FixedSize(tc) == 0 && PrefixedSize(items) < TWO31
    ensures SeekableItems(tc, items)
    decreases items
  {
    hide ValidItem, ItemSize;
    if |items| > 0 {
      SmallItemIsSeekable(tc, items[0]);
      SmallItemsAreSeekable(tc, items[1..]);
    }
  }

  lemma {:induction false} SmallItemIsSeekable(tc: nat, item: Item)
    requires ValidItem(tc, item) && (tc == B_MESSAGE_TYPE ==> ItemSize(item) < TWO31)
    ensures SeekableItem(item)
    decreases item
  {
    hide Valid, Seekable;
    if tc == B_MESSAGE_TYPE { SmallIsSeekable(item.msg); }
  }

  // ---- a Message that is not read back ----

  /** Two ByteBuffers in one field, of which the first is as long as a signed 32-bit number can just not say. */
  function HugeBuffers(tc: nat): Message {
    Message(0, [Entry([97], Field(tc, Array([Blob(seq(TWO31, i => 0))] + [Blob([])])))])
  }

  lemma HugeBuffersAreNotReadBack(tc: nat)
    requires tc < TWO32 && IsFlattenable(tc) && HoldsBuffers(tc)
    ensures Valid(HugeBuffers(tc)) && FlattenedSize(HugeBuffers(tc)) < NO_LIMIT
    ensures Unflatten(Flatten(HugeBuffers(tc))) == Err
  {
    hide Unflatten, Flatten;
    var m := HugeBuffers(tc);
    var f := m.entries[0].field;
    var big, small := Blob(seq(TWO31, i => 0)), Blob([]);
    var items := [big] + [small];
    assert ValidItem(tc, big) && ValidItem(tc, small);
    assert ValidField(f) && ValidEntry(m.entries[0]);
    assert m.entries[1..] == [] && items[1..] == [small] && [small][1..] == [];
    assert PrefixedSize([small]) == 4 + PrefixedSize([]);
    assert PrefixedSize(items) == 4 + TWO31 + PrefixedSize([small]);
    assert FieldSize(f) == 4 + PrefixedSize(items);
    assert EntriesSize(m.entries) == 14 + FieldSize(f) + EntriesSize([]);
    assert !SeekableItems(tc, items);
    assert !SeekableField(f);
    RoundTrip(m);
  }
}
