/** The Message data model and Message::Flatten(), with the sizes that are computed ahead of each write. */
module Messages {
  import opened Bytes

  const PROTOCOL_VERSION: nat := 1347235888

  const B_ANY_TYPE: nat := 1095653716
  const B_BOOL_TYPE: nat := 1112493900
  const B_DOUBLE_TYPE: nat := 1145195589
  const B_FLOAT_TYPE: nat := 1179406164
  const B_INT64_TYPE: nat := 1280069191
  const B_INT32_TYPE: nat := 1280265799
  const B_INT16_TYPE: nat := 1397248596
  const B_INT8_TYPE: nat := 1113150533
  const B_MESSAGE_TYPE: nat := 1297303367
  const B_POINTER_TYPE: nat := 1347310674
  const B_POINT_TYPE: nat := 1112559188
  const B_RECT_TYPE: nat := 1380270932
  const B_STRING_TYPE: nat := 1129534546
  const B_TAG_TYPE: nat := 1297367367

  /** A Message: a what-code and an insertion-ordered table of named fields. */
  datatype Message = Message(what: nat, entries: seq<Entry>)

  datatype Entry = Entry(name: seq<Byte>, field: Field)

  datatype Field = Field(tc: nat, rep: Rep)

  /** The three states of a MessageField: no items, one inline item, or an allocated array of items. */
  datatype Rep = Empty | Inline(item: Item) | Array(items: seq<Item>)

  /** A value held by a field.  A POD value is identified with its little-endian memory image;
      tags and pointers are opaque identities, since they never reach the wire, but a tag may refer to a ByteBuffer. */
  datatype Item =
    | Pod(image: seq<Byte>)
    | Text(chars: seq<Byte>)
    | Sub(msg: Message)
    | Blob(data: seq<Byte>)
    | Opaque(id: nat, bytes: Option<seq<Byte>>)

  /** GetFlattenedSizeForFixedSizeType(): the wire size of a fixed-size type, or 0. */
  function FixedSize(tc: nat): nat {
    if tc == B_BOOL_TYPE || tc == B_INT8_TYPE then 1
    else if tc == B_INT16_TYPE then 2
    else if tc == B_INT32_TYPE || tc == B_FLOAT_TYPE then 4
    else if tc == B_INT64_TYPE || tc == B_DOUBLE_TYPE || tc == B_POINT_TYPE || tc == B_POINTER_TYPE then 8
    else if tc == B_RECT_TYPE then 16
    else 0
  }

  predicate IsFlattenable(tc: nat) {
    tc != B_TAG_TYPE && tc != B_POINTER_TYPE
  }

  function Items(rep: Rep): seq<Item> {
    match rep
    case Empty => []
    case Inline(item) => [item]
    case Array(items) => items
  }

  predicate NoNul(s: seq<Byte>) {
    forall i :: 0 <= i < |s| ==> s[i] != 0
  }

  /** What C++'s static types and Message's own Add*() methods guarantee of every Message;
      a flattenable field in the empty state would trip the assertion in SingleFlattenedSize(). */
  predicate Valid(m: Message)
    decreases m
  {
    && m.what < TWO32
    && DistinctNames(m.entries)
    && forall i :: 0 <= i < |m.entries| ==> ValidEntry(m.entries[i])
  }

  predicate DistinctNames(es: seq<Entry>) {
    forall i, j :: 0 <= i < j < |es| ==> es[i].name != es[j].name
  }

  predicate ValidEntry(e: Entry)
    decreases e
  {
    NoNul(e.name) && ValidField(e.field)
  }

  predicate ValidField(f: Field)
    decreases f
  {
    && f.tc < TWO32
    && (IsFlattenable(f.tc) ==> !f.rep.Empty?)
    && match f.rep
       case Empty => true
       case Inline(item) => ValidItem(f.tc, item)
       case Array(items) => ValidItems(f.tc, items)
  }

  predicate ValidItems(tc: nat, items: seq<Item>)
    decreases items
  {
    forall i :: 0 <= i < |items| ==> ValidItem(tc, items[i])
  }

  predicate ValidItem(tc: nat, item: Item)
    decreases item
  {
    if tc == B_MESSAGE_TYPE then item.Sub? && Valid(item.msg)
    else if tc == B_STRING_TYPE then item.Text? && NoNul(item.chars)
    else if !IsFlattenable(tc) then item.Opaque? && (tc == B_POINTER_TYPE ==> item.bytes.None?)
    else if FixedSize(tc) > 0 then
      item.Pod? && |item.image| == FixedSize(tc) && (tc == B_BOOL_TYPE ==> item.image[0] <= 1)
    else item.Blob?
  }

  // ---- FlattenedSize() ----

  function FlattenedSize(m: Message): nat
    decreases m
  {
    12 + EntriesSize(m.entries)
  }

  function EntriesSize(es: seq<Entry>): nat
    decreases es
  {
    if |es| == 0 then 0
    else (if IsFlattenable(es[0].field.tc) then 4 + (|es[0].name| + 1) + 4 + 4 + FieldSize(es[0].field) else 0)
         + EntriesSize(es[1..])
  }

  function FieldSize(f: Field): nat
    decreases f
  {
    match f.rep
    case Empty => 0
    case Inline(item) => SingleSize(f.tc, item)
    case Array(items) => ArraySize(f.tc, items)
  }

  /** MessageField::SingleFlattenedSize() */
  function SingleSize(tc: nat, item: Item): nat
    decreases item, 1
  {
    if tc == B_BOOL_TYPE then 1
    else if tc == B_MESSAGE_TYPE then 4 + ItemSize(item)
    else if tc == B_STRING_TYPE then 4 + 4 + ItemSize(item)
    else if FixedSize(tc) > 0 then FixedSize(tc)
    else 4 + 4 + ItemSize(item)
  }

  /** TemplatedFlattenedSize() of the data-array classes, over the items that are to be written. */
  function ArraySize(tc: nat, items: seq<Item>): nat
    decreases items, 1
  {
    if FixedSize(tc) > 0 then |items| * FixedSize(tc)
    else (if tc == B_MESSAGE_TYPE then 0 else 4) + PrefixedSize(items)
  }

  function PrefixedSize(items: seq<Item>): nat
    decreases items, 0
  {
    if |items| == 0 then 0 else 4 + ItemSize(items[0]) + PrefixedSize(items[1..])
  }

  /** GetItemSize() */
  function ItemSize(item: Item): nat
    decreases item, 0
  {
    match item
    case Pod(image) => |image|
    case Text(chars) => |chars| + 1
    case Sub(msg) => FlattenedSize(msg)
    case Blob(data) => |data|
    case Opaque(_, _) => 0
  }

  // ---- Flatten() ----

  function Flatten(m: Message): (s: seq<Byte>)
    decreases m
  {
    W32(PROTOCOL_VERSION) + (W32(m.what) + (W32(NumFlattenable(m.entries)) + EntriesBytes(m.entries)))
  }

  function NumFlattenable(es: seq<Entry>): (n: nat)
    ensures n <= |es|
  {
    if |es| == 0 then 0 else (if IsFlattenable(es[0].field.tc) then 1 else 0) + NumFlattenable(es[1..])
  }

  function EntriesBytes(es: seq<Entry>): seq<Byte>
    decreases es
  {
    if |es| == 0 then []
    else if !IsFlattenable(es[0].field.tc) then EntriesBytes(es[1..])
    else EntryBytes(es[0].name, es[0].field.tc, FieldSize(es[0].field), FieldBytes(es[0].field), EntriesBytes(es[1..]))
  }

  /** One entry of a flattened Message, followed by the bytes of the entries after it. */
  function EntryBytes(name: seq<Byte>, tc: nat, size: nat, body: seq<Byte>, rest: seq<Byte>): seq<Byte> {
    W32(|name| + 1) + ((name + [0]) + (W32(tc) + (W32(size) + (body + rest))))
  }

  function FieldBytes(f: Field): seq<Byte>
    decreases f
  {
    match f.rep
    case Empty => []
    case Inline(item) => SingleBytes(f.tc, item)
    case Array(items) => ArrayBytes(f.tc, items)
  }

  /** MessageField::SingleFlatten() */
  function SingleBytes(tc: nat, item: Item): seq<Byte>
    decreases item, 1
  {
    if tc == B_MESSAGE_TYPE then W32(ItemSize(item)) + ItemBytes(item)
    else if FixedSize(tc) > 0 then ItemBytes(item)
    else W32(1) + (W32(ItemSize(item)) + ItemBytes(item))
  }

  /** TemplatedFlatten() of the data-array classes, over the items that are to be written. */
  function ArrayBytes(tc: nat, items: seq<Item>): seq<Byte>
    decreases items, 1
  {
    if FixedSize(tc) > 0 then PlainBytes(items)
    else if tc == B_MESSAGE_TYPE then PrefixedBytes(items)
    else W32(|items|) + PrefixedBytes(items)
  }

  function PlainBytes(items: seq<Item>): seq<Byte>
    decreases items, 0
  {
    if |items| == 0 then [] else ItemBytes(items[0]) + PlainBytes(items[1..])
  }

  function PrefixedBytes(items: seq<Item>): seq<Byte>
    decreases items, 0
  {
    if |items| == 0 then [] else W32(ItemSize(items[0])) + (ItemBytes(items[0]) + PrefixedBytes(items[1..]))
  }

  function ItemBytes(item: Item): seq<Byte>
    decreases item, 0
  {
    match item
    case Pod(image) => image
    case Text(chars) => chars + [0]
    case Sub(msg) => Flatten(msg)
    case Blob(data) => data
    case Opaque(_, _) => []
  }

  // ---- Flatten() writes exactly FlattenedSize() bytes ----

  lemma {:induction false} FlattenFillsSize(m: Message)
    requires Valid(m)
    ensures |Flatten(m)| == FlattenedSize(m)
    decreases m
  {
    EntriesFillSize(m.entries);
  }

  lemma {:induction false} EntriesFillSize(es: seq<Entry>)
    requires forall i :: 0 <= i < |es| ==> ValidEntry(es[i])
    ensures |EntriesBytes(es)| == EntriesSize(es)
    decreases es
  {
    if |es| > 0 {
      if IsFlattenable(es[0].field.tc) { FieldFillsSize(es[0].field); }
      EntriesFillSize(es[1..]);
    }
  }

  lemma {:induction false} FieldFillsSize(f: Field)
    requires ValidField(f) && IsFlattenable(f.tc)
    ensures |FieldBytes(f)| == FieldSize(f)
    decreases f
  {
    match f.rep
    case Empty =>
    case Inline(item) => ItemFillsSize(f.tc, item);
    case Array(items) => ItemsFillSize(f.tc, items);
  }

  lemma {:induction false} ItemsFillSize(tc: nat, items: seq<Item>)
    requires ValidItems(tc, items)
    ensures |PrefixedBytes(items)| == PrefixedSize(items)
    ensures FixedSize(tc) > 0 && IsFlattenable(tc) ==> |PlainBytes(items)| == |items| * FixedSize(tc)
    decreases items
  {
    if |items| > 0 {
      ItemFillsSize(tc, items[0]);
      ItemsFillSize(tc, items[1..]);
    }
  }

  lemma {:induction false} ItemFillsSize(tc: nat, item: Item)
    requires ValidItem(tc, item)
    ensures |ItemBytes(item)| == ItemSize(item)
    decreases item
  {
    if item.Sub? {
      FlattenFillsSize(item.msg);
    }
  }
}
