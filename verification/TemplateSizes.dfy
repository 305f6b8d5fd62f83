/** Templates and payload-only encodings are never larger than the Messages they stand for. */
module TemplateSizes {
  import opened Bytes
  import opened Messages
  import opened Unflattening
  import opened Templates
  import opened TemplatedCodec

  // ---- a template is no larger than its Message ----

  lemma {:induction false} TemplateNoLarger(m: Message)
    requires Valid(m)
    ensures LayoutSize(LayoutOf(m)) <= FlattenedSize(m)
    decreases m
  {
    hide ValidEntry;
    EntriesNoLarger(m.entries);
  }

  lemma {:induction false} EntriesNoLarger(es: seq<Entry>)
    requires forall i :: 0 <= i < |es| ==> ValidEntry(es[i])
    ensures LayoutFieldsSize(LayoutEntries(es)) <= EntriesSize(es)
    decreases es
  {
    hide ValidField, FieldSize, LayoutFieldSize, LayoutOfField;
    if |es| > 0 {
      EntriesNoLarger(es[1..]);
      if IsFlattenable(es[0].field.tc) {
        FieldNoLarger(es[0].name, es[0].field);
        assert LayoutEntries(es)[1..] == LayoutEntries(es[1..]);
      }
    }
  }

  lemma {:induction false} FieldNoLarger(name: seq<Byte>, f: Field)
    requires ValidField(f) && IsFlattenable(f.tc)
    ensures LayoutOfField(name, f).name == name
    ensures LayoutFieldSize(LayoutOfField(name, f)) <= FieldSize(f)
    decreases f
  {
    hide Valid, LayoutOf, LayoutSize, FlattenedSize;
    match f.rep
    case Inline(item) =>
      ItemNoLarger(f.tc, item);
      assert LayoutsSize([LayoutOfItem(item)]) == 4 + LayoutSize(LayoutOfItem(item)) + LayoutsSize([]);
    case Array(items) =>
      ItemsNoLarger(f.tc, items);
  }

  lemma {:induction false} ItemsNoLarger(tc: nat, items: seq<Item>)
    requires ValidItems(tc, items) && IsFlattenable(tc)
    ensures tc == B_MESSAGE_TYPE ==> LayoutsSize(LayoutItems(items)) <= PrefixedSize(items)
    ensures tc == B_STRING_TYPE ==> 5 * |items| <= PrefixedSize(items)
    ensures 4 * |items| <= PrefixedSize(items)
    decreases items
  {
    hide Valid, LayoutOf, LayoutSize, FlattenedSize;
    if |items| > 0 {
      assert ValidItem(tc, items[0]);
      ItemNoLarger(tc, items[0]);
      ItemsNoLarger(tc, items[1..]);
      assert LayoutItems(items)[1..] == LayoutItems(items[1..]);
    }
  }

  lemma {:induction false} ItemNoLarger(tc: nat, item: Item)
    requires ValidItem(tc, item)
    ensures tc == B_MESSAGE_TYPE ==> LayoutSize(LayoutOfItem(item)) <= ItemSize(item)
    ensures tc == B_STRING_TYPE ==> 1 <= ItemSize(item)
    decreases item
  {
    if item.Sub? { TemplateNoLarger(item.msg); }
  }

  // ---- a payload-only encoding, with its template ID, is no larger than the full encoding ----

  lemma {:induction false} PayloadNoLarger(m: Message, t: Message)
    requires Valid(m) && Valid(t) && LayoutOf(m) == LayoutOf(t)
    ensures 8 + TemplatedSize(m, t) <= FlattenedSize(m)
    decreases t, m
  {
    hide ValidEntry, LayoutEntries;
    FindDistinct(m.entries);
    EntriesPayloadNoLarger(m, m.entries, t.entries);
  }

  lemma {:induction false} EntriesPayloadNoLarger(m: Message, es: seq<Entry>, ts: seq<Entry>)
    requires forall i :: 0 <= i < |es| ==> ValidEntry(es[i]) && Find(m.entries, es[i].name) == Some(es[i].field)
    requires forall i :: 0 <= i < |ts| ==> ValidEntry(ts[i])
    requires LayoutEntries(es) == LayoutEntries(ts)
    ensures TemplatedEntriesSize(m, ts) <= EntriesSize(es)
    decreases ts, es
  {
    hide Find, ValidField, TemplatedFieldSize, FieldSize;
    if |ts| > 0 && !IsFlattenable(ts[0].field.tc) {
      EntriesPayloadNoLarger(m, es, ts[1..]);
    } else if |es| > 0 && !IsFlattenable(es[0].field.tc) {
      EntriesPayloadNoLarger(m, es[1..], ts);
    } else if |ts| > 0 && |es| > 0 {
      var a, b := LayoutEntries(es), LayoutEntries(ts);
      assert a[0] == b[0] && a[1..] == b[1..];
      assert a[1..] == LayoutEntries(es[1..]) && b[1..] == LayoutEntries(ts[1..]);
      SameLayoutField(es[0], ts[0]);
      FieldPayloadNoLarger(es[0].name, es[0].field, ts[0].field);
      EntriesPayloadNoLarger(m, es[1..], ts[1..]);
    }
  }

  lemma {:induction false} FieldPayloadNoLarger(name: seq<Byte>, f: Field, tf: Field)
    requires ValidField(f) && ValidField(tf) && IsFlattenable(f.tc)
    requires LayoutOfField(name, f) == LayoutOfField(name, tf)
    ensures TemplatedFieldSize(tf, Some(f)) <= 4 + FieldSize(f)
    decreases tf, f
  {
    hide Valid, LayoutOf, LayoutOfItem, PrefixedSize, TemplatedItemSize;
    var items := Items(f.rep);
    LayoutCount(name, f);
    LayoutCount(name, tf);
    FieldIsArray(f);
    FieldIsArray(tf);
    if f.tc == B_MESSAGE_TYPE {
      MessageFieldSubs(name, f);
      MessageFieldSubs(name, tf);
      match tf.rep
      case Empty =>
      case Inline(t) =>
        assert LayoutItems(items)[0] == LayoutOfItem(items[0]) && LayoutItems([t])[0] == LayoutOfItem(t);
        assert ValidItem(B_MESSAGE_TYPE, items[0]);
        ItemPayloadNoLarger(items, t);
      case Array(ts) => ItemsPayloadNoLarger(items, ts);
    } else {
      assert Merge(items, Items(tf.rep)) == items;
    }
  }

  lemma {:induction false} ItemsPayloadNoLarger(items: seq<Item>, ts: seq<Item>)
    requires ValidItems(B_MESSAGE_TYPE, items) && ValidItems(B_MESSAGE_TYPE, ts)
    requires LayoutItems(items) == LayoutItems(ts)
    ensures TemplatedItemsSize(items, ts) <= PrefixedSize(items)
    decreases ts, items
  {
    hide Valid, LayoutOf, LayoutOfItem, TemplatedItemSize, ItemSize;
    if |ts| > 0 {
      var L := LayoutItems(items);
      assert L[0] == LayoutOfItem(items[0]) == LayoutOfItem(ts[0]);
      assert L[1..] == LayoutItems(items[1..]) == LayoutItems(ts[1..]);
      assert ValidItem(B_MESSAGE_TYPE, items[0]) && ValidItem(B_MESSAGE_TYPE, ts[0]);
      ItemPayloadNoLarger(items, ts[0]);
      ItemsPayloadNoLarger(items[1..], ts[1..]);
      assert PrefixedSize(items) == 4 + ItemSize(items[0]) + PrefixedSize(items[1..]);
    }
  }

  lemma {:induction false} ItemPayloadNoLarger(items: seq<Item>, t: Item)
    requires |items| > 0 && ValidItem(B_MESSAGE_TYPE, items[0]) && ValidItem(B_MESSAGE_TYPE, t)
    requires LayoutOfItem(items[0]) == LayoutOfItem(t)
    ensures TemplatedItemSize(items, t) <= ItemSize(items[0])
    ensures ItemSize(items[0]) <= PrefixedSize(items)
    decreases t, items
  {
    PayloadNoLarger(items[0].msg, t.msg);
  }

  // ---- the payload does not depend on which template of the layout was used ----

  function PayloadSize(m: Message): nat
    decreases m
  {
    4 + PayloadEntriesSize(m.entries)
  }

  function PayloadEntriesSize(es: seq<Entry>): nat
    decreases es
  {
    if |es| == 0 then 0
    else (if IsFlattenable(es[0].field.tc) then PayloadFieldSize(es[0].field) else 0) + PayloadEntriesSize(es[1..])
  }

  function PayloadFieldSize(f: Field): nat
    decreases f
  {
    if f.tc != B_MESSAGE_TYPE then FieldSize(f)
    else match f.rep
      case Empty => 4
      case Inline(item) => 4 + PayloadItemSize(item)
      case Array(items) => 4 + PayloadItemsSize(items)
  }

  function PayloadItemsSize(items: seq<Item>): nat
    decreases items
  {
    if |items| == 0 then 0 else PayloadItemSize(items[0]) + PayloadItemsSize(items[1..])
  }

  function PayloadItemSize(item: Item): nat
    decreases item
  {
    if item.Sub? then 4 + PayloadSize(item.msg) else 4
  }

  /** The data of a Message without its metadata: no names, types or field sizes. */
  function Payload(m: Message): seq<Byte>
    decreases m
  {
    W32(m.what) + PayloadEntries(m.entries)
  }

  function PayloadEntries(es: seq<Entry>): seq<Byte>
    decreases es
  {
    if |es| == 0 then []
    else if !IsFlattenable(es[0].field.tc) then PayloadEntries(es[1..])
    else PayloadField(es[0].field) + PayloadEntries(es[1..])
  }

  function PayloadField(f: Field): seq<Byte>
    decreases f
  {
    if f.tc != B_MESSAGE_TYPE then FieldBytes(f)
    else match f.rep
      case Empty => W32(0)
      case Inline(item) => W32(1) + PayloadItem(item)
      case Array(items) => W32(|items|) + PayloadItems(items)
  }

  function PayloadItems(items: seq<Item>): seq<Byte>
    decreases items
  {
    if |items| == 0 then [] else PayloadItem(items[0]) + PayloadItems(items[1..])
  }

  function PayloadItem(item: Item): seq<Byte>
    decreases item
  {
    if item.Sub? then W32(PayloadSize(item.msg)) + Payload(item.msg) else W32(0)
  }

  lemma {:induction false} TemplateOnlyFixesLayout(m: Message, t: Message)
    requires Valid(m) && Valid(t) && LayoutOf(m) == LayoutOf(t)
    ensures TemplatedSize(m, t) == PayloadSize(m)
    ensures TemplatedBytes(m, t) == Payload(m)
    decreases t, m
  {
    hide W32, ValidEntry, LayoutEntries;
    FindDistinct(m.entries);
    TemplateEntriesOnlyFixLayout(m, m.entries, t.entries);
  }

  lemma {:induction false} TemplateEntriesOnlyFixLayout(m: Message, es: seq<Entry>, ts: seq<Entry>)
    requires forall i :: 0 <= i < |es| ==> ValidEntry(es[i]) && Find(m.entries, es[i].name) == Some(es[i].field)
    requires forall i :: 0 <= i < |ts| ==> ValidEntry(ts[i])
    requires LayoutEntries(es) == LayoutEntries(ts)
    ensures TemplatedEntriesSize(m, ts) == PayloadEntriesSize(es)
    ensures TemplatedEntriesBytes(m, ts) == PayloadEntries(es)
    decreases ts, es
  {
    hide Find, ValidField, TemplatedFieldSize, TemplatedFieldBytes, PayloadField, PayloadFieldSize;
    if |ts| > 0 && !IsFlattenable(ts[0].field.tc) {
      TemplateEntriesOnlyFixLayout(m, es, ts[1..]);
    } else if |es| > 0 && !IsFlattenable(es[0].field.tc) {
      TemplateEntriesOnlyFixLayout(m, es[1..], ts);
    } else if |ts| > 0 && |es| > 0 {
      var a, b := LayoutEntries(es), LayoutEntries(ts);
      assert a[0] == b[0] && a[1..] == b[1..];
      assert a[1..] == LayoutEntries(es[1..]) && b[1..] == LayoutEntries(ts[1..]);
      SameLayoutField(es[0], ts[0]);
      TemplateFieldOnlyFixesLayout(es[0].name, es[0].field, ts[0].field);
      TemplateEntriesOnlyFixLayout(m, es[1..], ts[1..]);
    }
  }

  lemma {:induction false} TemplateFieldOnlyFixesLayout(name: seq<Byte>, f: Field, tf: Field)
    requires ValidField(f) && ValidField(tf) && IsFlattenable(f.tc)
    requires LayoutOfField(name, f) == LayoutOfField(name, tf)
    ensures TemplatedFieldSize(tf, Some(f)) == PayloadFieldSize(f)
    ensures TemplatedFieldBytes(tf, Some(f)) == PayloadField(f)
    decreases tf, f
  {
    hide W32, Valid, LayoutOf, LayoutOfItem, PrefixedSize, PrefixedBytes, PlainBytes, TemplatedItemSize,
      TemplatedItemBytes, PayloadItem, PayloadItemSize;
    var items, ts := Items(f.rep), Items(tf.rep);
    LayoutCount(name, f);
    LayoutCount(name, tf);
    FieldIsArray(f);
    FieldIsArray(tf);
    if f.tc == B_MESSAGE_TYPE {
      MessageFieldSubs(name, f);
      MessageFieldSubs(name, tf);
      if f.rep.Inline? { SinglePayloadItem(f.rep.item); }
      match tf.rep
      case Inline(t) =>
        assert items == [items[0]];
        assert LayoutItems(items)[0] == LayoutOfItem(items[0]) && LayoutItems([t])[0] == LayoutOfItem(t);
        TemplateItemOnlyFixesLayout(items, t);
        SinglePayloadItem(items[0]);
      case Array(ts) => TemplateItemsOnlyFixLayout(items, ts);
    } else {
      assert items[..|items|] == items;
      assert Merge(items, ts) == items;
    }
  }

  lemma SinglePayloadItem(item: Item)
    ensures PayloadItemsSize([item]) == PayloadItemSize(item)
    ensures PayloadItems([item]) == PayloadItem(item)
  {
    assert [item][1..] == [];
    assert PayloadItem(item) + [] == PayloadItem(item);
  }

  lemma {:induction false} TemplateItemsOnlyFixLayout(items: seq<Item>, ts: seq<Item>)
    requires ValidItems(B_MESSAGE_TYPE, items) && ValidItems(B_MESSAGE_TYPE, ts)
    requires LayoutItems(items) == LayoutItems(ts)
    ensures TemplatedItemsSize(items, ts) == PayloadItemsSize(items)
    ensures TemplatedItemsBytes(items, ts) == PayloadItems(items)
    decreases ts, items
  {
    hide W32, Valid, LayoutOf, LayoutOfItem, TemplatedItemSize, TemplatedItemBytes, PayloadItem, PayloadItemSize;
    if |ts| > 0 {
      var L := LayoutItems(items);
      assert L[0] == LayoutOfItem(items[0]) == LayoutOfItem(ts[0]);
      assert L[1..] == LayoutItems(items[1..]) == LayoutItems(ts[1..]);
      assert ValidItem(B_MESSAGE_TYPE, items[0]) && ValidItem(B_MESSAGE_TYPE, ts[0]);
      TemplateItemOnlyFixesLayout(items, ts[0]);
      TemplateItemsOnlyFixLayout(items[1..], ts[1..]);
    }
  }

  lemma {:induction false} TemplateItemOnlyFixesLayout(items: seq<Item>, t: Item)
    requires |items| > 0 && ValidItem(B_MESSAGE_TYPE, items[0]) && ValidItem(B_MESSAGE_TYPE, t)
    requires LayoutOfItem(items[0]) == LayoutOfItem(t)
    ensures TemplatedItemSize(items, t) == PayloadItemSize(items[0])
    ensures TemplatedItemBytes(items, t) == PayloadItem(items[0])
    decreases t, items
  {
    TemplateOnlyFixesLayout(items[0].msg, t.msg);
  }
}
