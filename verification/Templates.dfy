/** Message templates: CreateMessageTemplate(), TemplateHashCode64() and what they preserve of a Message's layout. */
module Templates {
  import opened Bytes
  import opened Messages
  import opened Unflattening

  /** The layout of a Message: for each flattenable field in order, its name, type and item count,
      and for a Message field the layouts of its sub-Messages. */
  datatype Layout = Layout(fields: seq<LayoutField>)
  datatype LayoutField = LayoutField(name: seq<Byte>, tc: nat, count: nat, subs: seq<Layout>)

  function LayoutOf(m: Message): Layout
    decreases m
  {
    Layout(LayoutEntries(m.entries))
  }

  function LayoutEntries(es: seq<Entry>): seq<LayoutField>
    decreases es
  {
    if |es| == 0 then []
    else if !IsFlattenable(es[0].field.tc) then LayoutEntries(es[1..])
    else [LayoutOfField(es[0].name, es[0].field)] + LayoutEntries(es[1..])
  }

  function LayoutOfField(name: seq<Byte>, f: Field): LayoutField
    decreases f
  {
    match f.rep
    case Empty => LayoutField(name, f.tc, 0, [])
    case Inline(item) => LayoutField(name, f.tc, 1, if f.tc == B_MESSAGE_TYPE then [LayoutOfItem(item)] else [])
    case Array(items) => LayoutField(name, f.tc, |items|, if f.tc == B_MESSAGE_TYPE then LayoutItems(items) else [])
  }

  function LayoutItems(items: seq<Item>): (r: seq<Layout>)
    ensures |r| == |items|
    decreases items
  {
    if |items| == 0 then [] else [LayoutOfItem(items[0])] + LayoutItems(items[1..])
  }

  function LayoutOfItem(item: Item): Layout
    decreases item
  {
    if item.Sub? then LayoutOf(item.msg) else Layout([])
  }

  /** Every field of the layout, at every depth, has at least one item. */
  predicate NonEmpty(l: Layout)
    decreases l
  {
    forall i :: 0 <= i < |l.fields| ==> NonEmptyField(l.fields[i])
  }

  predicate NonEmptyField(lf: LayoutField)
    decreases lf
  {
    lf.count > 0 && forall i :: 0 <= i < |lf.subs| ==> NonEmpty(lf.subs[i])
  }

  // ---- CreateMessageTemplate() ----

  function Zeros(n: nat): (s: seq<Byte>)
    ensures |s| == n
  {
    if n == 0 then [] else [0] + Zeros(n - 1)
  }

  /** Message::CreateMessageTemplate(): the same fields with default-valued items.  A Message or String field without
      items is dropped, because nothing is ever added under its name; a fixed-size field without items is an error. */
  function Template(m: Message): Result<Message>
    decreases m
  {
    match TemplateEntries(m.entries)
    case Err => Err
    case Ok(es) => Ok(Message(m.what, es))
  }

  function TemplateEntries(es: seq<Entry>): Result<seq<Entry>>
    decreases es
  {
    if |es| == 0 then Ok([])
    else if !IsFlattenable(es[0].field.tc) || DroppedByTemplate(es[0].field) then TemplateEntries(es[1..])
    else
      match TemplateField(es[0].field)
      case Err => Err
      case Ok(f) =>
        match TemplateEntries(es[1..])
        case Err => Err
        case Ok(rest) => Ok([Entry(es[0].name, f)] + rest)
  }

  predicate DroppedByTemplate(f: Field) {
    Items(f.rep) == [] && (f.tc == B_MESSAGE_TYPE || f.tc == B_STRING_TYPE)
  }

  function TemplateField(f: Field): Result<Field>
    decreases f
  {
    match f.rep
    case Empty => if FixedSize(f.tc) > 0 then Err else Ok(f)
    case Inline(item) =>
      (match TemplateItem(f.tc, item) case Err => Err case Ok(t) => Ok(Field(f.tc, Inline(t))))
    case Array(items) =>
      if items == [] && FixedSize(f.tc) > 0 then Err
      else match TemplateItems(f.tc, items)
        case Err => Err
        case Ok(ts) => Ok(Field(f.tc, if KeepsArray(f.tc) then Array(ts) else RepOf(ts)))
  }

  /** User-defined types are copied as they are and then emptied in place; other types are added item by item. */
  predicate KeepsArray(tc: nat) {
    tc != B_MESSAGE_TYPE && tc != B_STRING_TYPE && FixedSize(tc) == 0
  }

  function TemplateItems(tc: nat, items: seq<Item>): (r: Result<seq<Item>>)
    ensures r.Ok? ==> |r.value| == |items|
    decreases items
  {
    if |items| == 0 then Ok([])
    else
      match TemplateItem(tc, items[0])
      case Err => Err
      case Ok(t) =>
        match TemplateItems(tc, items[1..])
        case Err => Err
        case Ok(ts) => Ok([t] + ts)
  }

  function TemplateItem(tc: nat, item: Item): Result<Item>
    decreases item
  {
    if item.Sub? then
      match Template(item.msg)
      case Err => Err
      case Ok(t) => Ok(Sub(t))
    else if item.Text? then Ok(Text([]))
    else if FixedSize(tc) > 0 then Ok(Pod(Zeros(FixedSize(tc))))
    else Ok(Blob([]))
  }

  // ---- TemplateHashCode64() ----

  /** A partial sum, and the position counter that is threaded through every sub-Message. */
  datatype HashState = HashState(sum: nat, count: nat)

  function TemplateHash(h: seq<Byte> -> nat, m: Message): (id: nat)
    ensures id > 0
  {
    var r := HashEntries(h, m.entries, HashState(0, 0)).sum;
    if r != 0 then r else 1
  }

  function HashEntries(h: seq<Byte> -> nat, es: seq<Entry>, st: HashState): HashState
    decreases es
  {
    if |es| == 0 then st
    else if !IsFlattenable(es[0].field.tc) then HashEntries(h, es[1..], st)
    else
      var st' := HashTerm(h, es[0].name, es[0].field.tc, |Items(es[0].field.rep)|, st);
      HashEntries(h, es[1..], if es[0].field.tc == B_MESSAGE_TYPE then HashField(h, es[0].field, st') else st')
  }

  /** One field's own contribution, in 64-bit arithmetic, weighted by its 32-bit position. */
  function HashTerm(h: seq<Byte> -> nat, name: seq<Byte>, tc: nat, count: nat, st: HashState): HashState {
    var pos := (st.count + 1) % TWO32;
    HashState((st.sum + pos * (h(name) + count * tc)) % TWO64, pos)
  }

  function HashField(h: seq<Byte> -> nat, f: Field, st: HashState): HashState
    decreases f
  {
    match f.rep
    case Empty => st
    case Inline(item) => HashItem(h, item, st)
    case Array(items) => HashItems(h, items, st)
  }

  function HashItems(h: seq<Byte> -> nat, items: seq<Item>, st: HashState): HashState
    decreases items
  {
    if |items| == 0 then st else HashItems(h, items[1..], HashItem(h, items[0], st))
  }

  function HashItem(h: seq<Byte> -> nat, item: Item, st: HashState): HashState
    decreases item
  {
    if item.Sub? then
      var r := HashEntries(h, item.msg.entries, HashState(0, st.count));
      HashState((st.sum + r.sum) % TWO64, r.count)
    else st
  }

  // ---- the hash and the template's size are functions of the layout alone ----

  function LayoutHash(h: seq<Byte> -> nat, l: Layout): nat {
    var r := HashLayout(h, l.fields, HashState(0, 0)).sum;
    if r != 0 then r else 1
  }

  function HashLayout(h: seq<Byte> -> nat, fs: seq<LayoutField>, st: HashState): HashState
    decreases fs
  {
    if |fs| == 0 then st
    else HashLayout(h, fs[1..], HashLayouts(h, fs[0].subs, HashTerm(h, fs[0].name, fs[0].tc, fs[0].count, st)))
  }

  function HashLayouts(h: seq<Byte> -> nat, ls: seq<Layout>, st: HashState): HashState
    decreases ls
  {
    if |ls| == 0 then st
    else
      var r := HashLayout(h, ls[0].fields, HashState(0, st.count));
      HashLayouts(h, ls[1..], HashState((st.sum + r.sum) % TWO64, r.count))
  }

  /** FlattenedSize() of a template with the given layout. */
  function LayoutSize(l: Layout): nat
    decreases l
  {
    12 + LayoutFieldsSize(l.fields)
  }

  function LayoutFieldsSize(fs: seq<LayoutField>): nat
    decreases fs
  {
    if |fs| == 0 then 0
    else 13 + |fs[0].name| + LayoutFieldSize(fs[0]) + LayoutFieldsSize(fs[1..])
  }

  function LayoutFieldSize(lf: LayoutField): nat
    decreases lf
  {
    if lf.tc == B_MESSAGE_TYPE then LayoutsSize(lf.subs)
    else if FixedSize(lf.tc) > 0 then lf.count * FixedSize(lf.tc)
    else 4 + lf.count * (if lf.tc == B_STRING_TYPE then 5 else 4)
  }

  function LayoutsSize(ls: seq<Layout>): nat
    decreases ls
  {
    if |ls| == 0 then 0 else 4 + LayoutSize(ls[0]) + LayoutsSize(ls[1..])
  }

  lemma HashIsOfLayout(h: seq<Byte> -> nat, m: Message)
    requires Valid(m)
    ensures TemplateHash(h, m) == LayoutHash(h, LayoutOf(m))
  {
    HashEntriesIsOfLayout(h, m.entries, HashState(0, 0));
  }

  lemma {:induction false} HashEntriesIsOfLayout(h: seq<Byte> -> nat, es: seq<Entry>, st: HashState)
    requires forall i :: 0 <= i < |es| ==> ValidEntry(es[i])
    ensures HashEntries(h, es, st) == HashLayout(h, LayoutEntries(es), st)
    decreases es
  {
    if |es| == 0 {
    } else if !IsFlattenable(es[0].field.tc) {
      HashEntriesIsOfLayout(h, es[1..], st);
    } else {
      var f := es[0].field;
      var lf := LayoutOfField(es[0].name, f);
      var st1 := HashTerm(h, es[0].name, f.tc, |Items(f.rep)|, st);
      var st2 := if f.tc == B_MESSAGE_TYPE then HashField(h, f, st1) else st1;
      HashFieldIsOfLayout(h, es[0].name, f, st1);
      HashEntriesIsOfLayout(h, es[1..], st2);
      assert LayoutEntries(es)[1..] == LayoutEntries(es[1..]);
    }
  }

  lemma {:induction false} HashFieldIsOfLayout(h: seq<Byte> -> nat, name: seq<Byte>, f: Field, st: HashState)
    requires ValidField(f) && IsFlattenable(f.tc)
    ensures (if f.tc == B_MESSAGE_TYPE then HashField(h, f, st) else st)
         == HashLayouts(h, LayoutOfField(name, f).subs, st)
    decreases f
  {
    if f.tc == B_MESSAGE_TYPE {
      match f.rep
      case Inline(item) =>
        HashItemIsOfLayout(h, item, st);
        assert [LayoutOfItem(item)][1..] == [];
      case Array(items) => HashItemsIsOfLayout(h, items, st);
    }
  }

  lemma {:induction false} HashItemsIsOfLayout(h: seq<Byte> -> nat, items: seq<Item>, st: HashState)
    requires ValidItems(B_MESSAGE_TYPE, items)
    ensures HashItems(h, items, st) == HashLayouts(h, LayoutItems(items), st)
    decreases items
  {
    if |items| > 0 {
      assert ValidItem(B_MESSAGE_TYPE, items[0]);
      HashItemIsOfLayout(h, items[0], st);
      HashItemsIsOfLayout(h, items[1..], HashItem(h, items[0], st));
      assert LayoutItems(items)[1..] == LayoutItems(items[1..]);
    }
  }

  lemma {:induction false} HashItemIsOfLayout(h: seq<Byte> -> nat, item: Item, st: HashState)
    requires item.Sub? && Valid(item.msg)
    ensures var r := HashLayout(h, LayoutOfItem(item).fields, HashState(0, st.count));
            HashItem(h, item, st) == HashState((st.sum + r.sum) % TWO64, r.count)
    decreases item
  {
    HashEntriesIsOfLayout(h, item.msg.entries, HashState(0, st.count));
  }

  // ---- a template has the layout of its Message, and only the layout decides its size ----

  lemma {:induction false} TemplateKeepsLayout(m: Message)
    requires Valid(m) && NonEmpty(LayoutOf(m))
    ensures Template(m).Ok? && Valid(Template(m).value)
    ensures LayoutOf(Template(m).value) == LayoutOf(m)
    ensures FlattenedSize(Template(m).value) == LayoutSize(LayoutOf(m))
    decreases m
  {
    hide ValidEntry, NonEmptyField;
    TemplateEntriesKeepLayout(m.entries);
  }

  lemma {:induction false} TemplateEntriesKeepLayout(es: seq<Entry>)
    requires forall i :: 0 <= i < |es| ==> ValidEntry(es[i])
    requires DistinctNames(es)
    requires forall i :: 0 <= i < |LayoutEntries(es)| ==> NonEmptyField(LayoutEntries(es)[i])
    ensures TemplateEntries(es).Ok?
    ensures var ts := TemplateEntries(es).value;
      && (forall i :: 0 <= i < |ts| ==> ValidEntry(ts[i]) && IsFlattenable(ts[i].field.tc))
      && DistinctNames(ts)
      && (forall i :: 0 <= i < |ts| ==> exists j :: 0 <= j < |es| && es[j].name == ts[i].name)
      && LayoutEntries(ts) == LayoutEntries(es)
      && EntriesSize(ts) == LayoutFieldsSize(LayoutEntries(es))
    decreases es
  {
    hide ValidField, TemplateField, FieldSize, LayoutFieldSize, NonEmptyField;
    if |es| == 0 {
    } else if !IsFlattenable(es[0].field.tc) {
      assert LayoutEntries(es) == LayoutEntries(es[1..]);
      TemplateEntriesKeepLayout(es[1..]);
      assert TemplateEntries(es) == TemplateEntries(es[1..]);
      assert forall j :: 0 <= j < |es[1..]| ==> es[1..][j].name == es[j + 1].name;
    } else {
      var e := es[0];
      var L := LayoutEntries(es);
      assert L == [LayoutOfField(e.name, e.field)] + LayoutEntries(es[1..]);
      assert NonEmptyField(L[0]);
      assert forall i :: 0 <= i < |L[1..]| ==> NonEmptyField(L[1..][i]) by {
        forall i | 0 <= i < |L[1..]| ensures NonEmptyField(L[1..][i]) { assert L[1..][i] == L[i + 1]; }
      }
      assert L[1..] == LayoutEntries(es[1..]);
      TemplateFieldKeepsLayout(e.name, e.field);
      TemplateEntriesKeepLayout(es[1..]);
      var rest := TemplateEntries(es[1..]).value;
      var ts := [Entry(e.name, TemplateField(e.field).value)] + rest;
      assert TemplateEntries(es).value == ts;
      assert ts[1..] == rest;
      TemplateNamesStayDistinct(es, ts);
    }
  }

  lemma TemplateNamesStayDistinct(es: seq<Entry>, ts: seq<Entry>)
    requires |es| > 0 && |ts| > 0 && DistinctNames(es) && DistinctNames(ts[1..])
    requires ts[0].name == es[0].name
    requires forall i :: 0 <= i < |ts[1..]| ==> exists j :: 0 <= j < |es[1..]| && es[1..][j].name == ts[1..][i].name
    ensures DistinctNames(ts)
    ensures forall i :: 0 <= i < |ts| ==> exists j :: 0 <= j < |es| && es[j].name == ts[i].name
  {
    forall i | 0 <= i < |ts|
      ensures exists j :: 0 <= j < |es| && es[j].name == ts[i].name && (i == 0 || j > 0)
    {
      if i == 0 {
        assert es[0].name == ts[0].name;
      } else {
        var j :| 0 <= j < |es[1..]| && es[1..][j].name == ts[1..][i - 1].name;
        assert es[j + 1].name == ts[i].name;
      }
    }
    forall i, j | 0 <= i < j < |ts|
      ensures ts[i].name != ts[j].name
    {
      if i > 0 { assert ts[1..][i - 1].name != ts[1..][j - 1].name; }
    }
  }

  lemma {:induction false} TemplateFieldKeepsLayout(name: seq<Byte>, f: Field)
    requires ValidField(f) && IsFlattenable(f.tc)
    requires NonEmptyField(LayoutOfField(name, f))
    ensures TemplateField(f).Ok? && !DroppedByTemplate(f)
    ensures var t := TemplateField(f).value;
      && t.tc == f.tc && ValidField(t)
      && LayoutOfField(name, t) == LayoutOfField(name, f)
      && FieldSize(t) == LayoutFieldSize(LayoutOfField(name, f))
    decreases f
  {
    hide Valid, LayoutOf, LayoutSize, Template, FlattenedSize, NonEmpty;
    match f.rep
    case Inline(item) =>
      assert f.tc == B_MESSAGE_TYPE ==> NonEmpty(LayoutOfField(name, f).subs[0]);
      TemplateItemKeepsLayout(f.tc, item);
      assert LayoutsSize([LayoutOfItem(item)]) == 4 + LayoutSize(LayoutOfItem(item)) + LayoutsSize([]);
    case Array(items) =>
      assert f.tc == B_MESSAGE_TYPE ==> LayoutOfField(name, f).subs == LayoutItems(items);
      TemplateItemsKeepLayout(f.tc, items);
      var ts := TemplateItems(f.tc, items).value;
      if |ts| == 1 {
        assert ts == [ts[0]];
        SingleIsArray(f.tc, ts[0]);
        assert LayoutItems(ts) == [LayoutOfItem(ts[0])];
      }
  }

  lemma {:induction false} TemplateItemsKeepLayout(tc: nat, items: seq<Item>)
    requires ValidItems(tc, items) && IsFlattenable(tc)
    requires tc == B_MESSAGE_TYPE ==> forall i :: 0 <= i < |items| ==> NonEmpty(LayoutItems(items)[i])
    ensures TemplateItems(tc, items).Ok?
    ensures var ts := TemplateItems(tc, items).value;
      && ValidItems(tc, ts)
      && (tc == B_MESSAGE_TYPE ==>
            LayoutItems(ts) == LayoutItems(items) && PrefixedSize(ts) == LayoutsSize(LayoutItems(items)))
      && (tc == B_STRING_TYPE ==> PrefixedSize(ts) == 5 * |items|)
      && (KeepsArray(tc) ==> PrefixedSize(ts) == 4 * |items|)
    decreases items
  {
    hide Valid, LayoutOf, LayoutSize, Template, FlattenedSize, NonEmpty;
    if |items| > 0 {
      assert ValidItem(tc, items[0]);
      assert tc == B_MESSAGE_TYPE ==> NonEmpty(LayoutItems(items)[0]);
      TemplateItemKeepsLayout(tc, items[0]);
      assert LayoutItems(items)[1..] == LayoutItems(items[1..]);
      TemplateItemsKeepLayout(tc, items[1..]);
      var ts := TemplateItems(tc, items).value;
      assert ts[1..] == TemplateItems(tc, items[1..]).value;
      assert LayoutItems(ts) == [LayoutOfItem(ts[0])] + LayoutItems(ts[1..]);
    }
  }

  lemma {:induction false} TemplateItemKeepsLayout(tc: nat, item: Item)
    requires ValidItem(tc, item) && IsFlattenable(tc)
    requires tc == B_MESSAGE_TYPE ==> NonEmpty(LayoutOfItem(item))
    ensures TemplateItem(tc, item).Ok?
    ensures var t := TemplateItem(tc, item).value;
      && ValidItem(tc, t)
      && (tc == B_MESSAGE_TYPE ==>
            LayoutOfItem(t) == LayoutOfItem(item) && ItemSize(t) == LayoutSize(LayoutOfItem(item)))
      && (tc == B_STRING_TYPE ==> ItemSize(t) == 1)
      && (KeepsArray(tc) ==> ItemSize(t) == 0)
    decreases item
  {
    if item.Sub? {
      TemplateKeepsLayout(item.msg);
    } else if FixedSize(tc) > 0 {
      assert Zeros(1) == [0];
    }
  }

  // ---- what a Message keeps across the wire ----

  lemma {:induction false} NormalKeepsLayout(m: Message)
    requires Valid(m)
    ensures Valid(Normal(m)) && LayoutOf(Normal(m)) == LayoutOf(m)
    ensures Flatten(Normal(m)) == Flatten(m)
    decreases m
  {
    hide ValidEntry, W32;
    NormalEntriesKeepLayout(m.entries);
  }

  lemma {:induction false} NormalEntriesKeepLayout(es: seq<Entry>)
    requires forall i :: 0 <= i < |es| ==> ValidEntry(es[i])
    requires DistinctNames(es)
    ensures var ns := NormalEntries(es);
      && (forall i :: 0 <= i < |ns| ==> ValidEntry(ns[i]) && IsFlattenable(ns[i].field.tc))
      && DistinctNames(ns)
      && (forall i :: 0 <= i < |ns| ==> exists j :: 0 <= j < |es| && es[j].name == ns[i].name)
      && LayoutEntries(ns) == LayoutEntries(es)
      && NumFlattenable(ns) == NumFlattenable(es)
      && EntriesBytes(ns) == EntriesBytes(es)
    decreases es
  {
    hide ValidField, NormalField, FieldSize, FieldBytes, EntryBytes, LayoutOfField;
    if |es| == 0 {
    } else if !IsFlattenable(es[0].field.tc) {
      NormalEntriesKeepLayout(es[1..]);
      assert forall j :: 0 <= j < |es[1..]| ==> es[1..][j].name == es[j + 1].name;
    } else {
      var e := es[0];
      NormalFieldKeepsLayout(e.name, e.field);
      NormalEntriesKeepLayout(es[1..]);
      var ns := [Entry(e.name, NormalField(e.field))] + NormalEntries(es[1..]);
      assert NormalEntries(es) == ns;
      assert ns[1..] == NormalEntries(es[1..]);
      TemplateNamesStayDistinct(es, ns);
    }
  }

  lemma {:induction false} NormalFieldKeepsLayout(name: seq<Byte>, f: Field)
    requires ValidField(f) && IsFlattenable(f.tc)
    ensures var n := NormalField(f);
      && n.tc == f.tc && ValidField(n)
      && LayoutOfField(name, n) == LayoutOfField(name, f)
      && FieldSize(n) == FieldSize(f)
      && FieldBytes(n) == FieldBytes(f)
    decreases f
  {
    hide W32, Valid, LayoutOf, FlattenedSize, Flatten, Normal;
    match f.rep
    case Inline(item) => NormalItemKeepsLayout(f.tc, item);
    case Array(items) =>
      NormalItemsKeepLayout(f.tc, items);
      var ns := NormalItems(items);
      if |ns| == 1 {
        assert ns == [ns[0]];
        SingleIsArray(f.tc, ns[0]);
        assert LayoutItems(ns) == [LayoutOfItem(ns[0])];
      }
  }

  lemma {:induction false} NormalItemsKeepLayout(tc: nat, items: seq<Item>)
    requires ValidItems(tc, items) && IsFlattenable(tc)
    ensures var ns := NormalItems(items);
      && ValidItems(tc, ns)
      && LayoutItems(ns) == LayoutItems(items)
      && PrefixedSize(ns) == PrefixedSize(items)
      && PrefixedBytes(ns) == PrefixedBytes(items)
      && PlainBytes(ns) == PlainBytes(items)
    decreases items
  {
    hide W32, Valid, LayoutOf, FlattenedSize, Flatten, Normal;
    if |items| > 0 {
      assert ValidItem(tc, items[0]);
      NormalItemKeepsLayout(tc, items[0]);
      NormalItemsKeepLayout(tc, items[1..]);
      assert NormalItems(items)[1..] == NormalItems(items[1..]);
    }
  }

  lemma {:induction false} NormalItemKeepsLayout(tc: nat, item: Item)
    requires ValidItem(tc, item) && IsFlattenable(tc)
    ensures var n := NormalItem(item);
      && ValidItem(tc, n)
      && LayoutOfItem(n) == LayoutOfItem(item)
      && ItemSize(n) == ItemSize(item)
      && ItemBytes(n) == ItemBytes(item)
    decreases item
  {
    if item.Sub? {
      NormalKeepsLayout(item.msg);
      FlattenFillsSize(item.msg);
      FlattenFillsSize(Normal(item.msg));
    }
  }

  /** Sender and receiver agree: the Message, its template, and the template of the Message as the receiver
      unflattens it all hash alike, and both templates have the same FlattenedSize(). */
  lemma TemplatesAgree(h: seq<Byte> -> nat, m: Message)
    requires Valid(m) && NonEmpty(LayoutOf(m)) && FlattenedSize(m) < NO_LIMIT
    ensures Template(m).Ok? && TemplateHash(h, Template(m).value) == TemplateHash(h, m)
    ensures Unflatten(Flatten(m)).Ok? <==> Seekable(m)
    ensures Seekable(m) ==>
      var received := Unflatten(Flatten(m)).value.value;
      && Template(received).Ok? && TemplateHash(h, Template(received).value) == TemplateHash(h, m)
      && FlattenedSize(Template(m).value) == FlattenedSize(Template(received).value)
  {
    RoundTrip(m);
    NormalKeepsLayout(m);
    TemplateKeepsLayout(m);
    TemplateKeepsLayout(Normal(m));
    HashIsOfLayout(h, m);
    HashIsOfLayout(h, Template(m).value);
    HashIsOfLayout(h, Template(Normal(m)).value);
  }

  // ---- exactly when a template keeps the layout ----

  /** No Message or String field, at any depth, is without items. */
  predicate KeepsAllFields(m: Message)
    decreases m
  {
    KeepsEntries(m.entries)
  }

  predicate KeepsEntries(es: seq<Entry>)
    decreases es
  {
    |es| > 0 ==> (IsFlattenable(es[0].field.tc) ==> KeepsField(es[0].field)) && KeepsEntries(es[1..])
  }

  predicate KeepsField(f: Field)
    decreases f
  {
    && !DroppedByTemplate(f)
    && match f.rep
       case Empty => true
       case Inline(item) => KeepsItem(item)
       case Array(items) => KeepsItems(items)
  }

  predicate KeepsItems(items: seq<Item>)
    decreases items
  {
    |items| > 0 ==> KeepsItem(items[0]) && KeepsItems(items[1..])
  }

  predicate KeepsItem(item: Item)
    decreases item
  {
    item.Sub? ==> KeepsAllFields(item.msg)
  }

  /** The template of a Message has the Message's layout exactly when no String or Message field is empty;
      otherwise the receiver files the template under a layout that the sender does not use. */
  lemma {:induction false} LayoutKeptIffNoFieldDropped(m: Message)
    requires Valid(m) && Template(m).Ok?
    ensures LayoutOf(Template(m).value) == LayoutOf(m) <==> KeepsAllFields(m)
    decreases m
  {
    hide ValidEntry;
    EntriesKeptIff(m.entries);
  }

  lemma {:induction false} EntriesKeptIff(es: seq<Entry>)
    requires forall i :: 0 <= i < |es| ==> ValidEntry(es[i])
    requires TemplateEntries(es).Ok?
    ensures |LayoutEntries(TemplateEntries(es).value)| <= |LayoutEntries(es)|
    ensures LayoutEntries(TemplateEntries(es).value) == LayoutEntries(es) <==> KeepsEntries(es)
    decreases es
  {
    hide ValidField, TemplateField, LayoutOfField, KeepsField;
    if |es| > 0 {
      EntriesKeptIff(es[1..]);
      var f := es[0].field;
      if IsFlattenable(f.tc) {
        FieldKeptIff(es[0].name, f);
        if !DroppedByTemplate(f) {
          var ts := TemplateEntries(es).value;
          assert ts[1..] == TemplateEntries(es[1..]).value;
          var a, b := LayoutEntries(ts), LayoutEntries(es);
          assert a == [LayoutOfField(es[0].name, ts[0].field)] + LayoutEntries(ts[1..]);
          assert b == [LayoutOfField(es[0].name, f)] + LayoutEntries(es[1..]);
          assert a == b <==> a[0] == b[0] && a[1..] == b[1..];
        }
      }
    }
  }

  lemma {:induction false} FieldKeptIff(name: seq<Byte>, f: Field)
    requires ValidField(f) && IsFlattenable(f.tc)
    ensures DroppedByTemplate(f) ==> !KeepsField(f)
    ensures !DroppedByTemplate(f) && TemplateField(f).Ok? ==>
      && TemplateField(f).value.tc == f.tc
      && (LayoutOfField(name, TemplateField(f).value) == LayoutOfField(name, f) <==> KeepsField(f))
    decreases f
  {
    hide Valid, LayoutOf, Template, KeepsAllFields;
    if !DroppedByTemplate(f) && TemplateField(f).Ok? {
      match f.rep
      case Inline(item) =>
        ItemKeptIff(f.tc, item);
      case Array(items) =>
        ItemsKeptIff(f.tc, items);
        var ts := TemplateItems(f.tc, items).value;
        if |ts| == 1 { assert LayoutItems(ts) == [LayoutOfItem(ts[0])]; }
    }
  }

  lemma {:induction false} ItemsKeptIff(tc: nat, items: seq<Item>)
    requires ValidItems(tc, items) && IsFlattenable(tc) && TemplateItems(tc, items).Ok?
    ensures tc != B_MESSAGE_TYPE ==> KeepsItems(items)
    ensures LayoutItems(TemplateItems(tc, items).value) == LayoutItems(items) <==> KeepsItems(items)
    decreases items
  {
    hide Valid, LayoutOf, Template, KeepsAllFields;
    if |items| > 0 {
      assert ValidItem(tc, items[0]);
      ItemKeptIff(tc, items[0]);
      ItemsKeptIff(tc, items[1..]);
      var ts := TemplateItems(tc, items).value;
      assert ts[1..] == TemplateItems(tc, items[1..]).value;
      var a, b := LayoutItems(ts), LayoutItems(items);
      assert a == b <==> a[0] == b[0] && a[1..] == b[1..];
    }
  }

  lemma {:induction false} ItemKeptIff(tc: nat, item: Item)
    requires ValidItem(tc, item) && IsFlattenable(tc) && TemplateItem(tc, item).Ok?
    ensures tc != B_MESSAGE_TYPE ==> KeepsItem(item)
    ensures LayoutOfItem(TemplateItem(tc, item).value) == LayoutOfItem(item) <==> KeepsItem(item)
    decreases item
  {
    if item.Sub? { LayoutKeptIffNoFieldDropped(item.msg); }
  }

  // ---- what a template holds ----

  /** Every value, at every depth, is all zero bytes or empty. */
  predicate Blank(m: Message)
    decreases m
  {
    forall i :: 0 <= i < |m.entries| ==> BlankField(m.entries[i].field)
  }

  predicate BlankField(f: Field)
    decreases f
  {
    match f.rep
    case Empty => true
    case Inline(item) => BlankItem(item)
    case Array(items) => forall i :: 0 <= i < |items| ==> BlankItem(items[i])
  }

  predicate BlankItem(item: Item)
    decreases item
  {
    match item
    case Pod(image) => forall i :: 0 <= i < |image| ==> image[i] == 0
    case Text(chars) => chars == []
    case Sub(msg) => Blank(msg)
    case Blob(data) => data == []
    case Opaque(_, _) => false
  }

  /** Nothing of a Message's values gets into its template. */
  lemma {:induction false} TemplateIsBlank(m: Message)
    requires Template(m).Ok?
    ensures Blank(Template(m).value)
    decreases m
  {
    BlankEntries(m.entries);
  }

  lemma {:induction false} BlankEntries(es: seq<Entry>)
    requires TemplateEntries(es).Ok?
    ensures forall i :: 0 <= i < |TemplateEntries(es).value| ==> BlankField(TemplateEntries(es).value[i].field)
    decreases es
  {
    hide BlankField, TemplateField;
    if |es| > 0 {
      BlankEntries(es[1..]);
      if IsFlattenable(es[0].field.tc) && !DroppedByTemplate(es[0].field) { TemplateFieldIsBlank(es[0].field); }
    }
  }

  lemma {:induction false} TemplateFieldIsBlank(f: Field)
    requires TemplateField(f).Ok?
    ensures BlankField(TemplateField(f).value)
    decreases f
  {
    hide BlankItem, TemplateItem;
    match f.rep
    case Empty =>
    case Inline(item) => TemplateItemIsBlank(f.tc, item);
    case Array(items) => BlankItems(f.tc, items);
  }

  lemma {:induction false} BlankItems(tc: nat, items: seq<Item>)
    requires TemplateItems(tc, items).Ok?
    ensures forall i :: 0 <= i < |items| ==> BlankItem(TemplateItems(tc, items).value[i])
    decreases items
  {
    hide BlankItem, TemplateItem;
    if |items| > 0 {
      TemplateItemIsBlank(tc, items[0]);
      BlankItems(tc, items[1..]);
    }
  }

  lemma {:induction false} TemplateItemIsBlank(tc: nat, item: Item)
    requires TemplateItem(tc, item).Ok?
    ensures BlankItem(TemplateItem(tc, item).value)
    decreases item
  {
    if item.Sub? { TemplateIsBlank(item.msg); } else { ZerosAreZero(FixedSize(tc)); }
  }

  lemma {:induction false} ZerosAreZero(n: nat)
    ensures forall i :: 0 <= i < n ==> Zeros(n)[i] == 0
  {
    if n > 0 { ZerosAreZero(n - 1); }
  }

  /** A Message whose only field is a String field without items. */
  function EmptyText(what: nat, name: seq<Byte>): Message {
    Message(what, [Entry(name, Field(B_STRING_TYPE, Array([])))])
  }

  /** The two ends file such a Message under different IDs exactly when
      the name's hash is neither of the two values that an empty layout shares. */
  lemma EmptyStringFieldSplitsTheHash(h: seq<Byte> -> nat, what: nat, name: seq<Byte>)
    requires what < TWO32 && NoNul(name)
    ensures var m := EmptyText(what, name);
      && Valid(m) && Template(m) == Ok(Message(what, []))
      && (TemplateHash(h, Template(m).value) != TemplateHash(h, m) <==> h(name) % TWO64 !in {0, 1})
  {
    var f := Field(B_STRING_TYPE, Array([]));
    var m := EmptyText(what, name);
    assert ValidField(f);
    assert m.entries[1..] == [];
    assert TemplateEntries(m.entries) == TemplateEntries([]);
    var st := HashState(h(name) % TWO64, 1);
    assert HashTerm(h, name, B_STRING_TYPE, 0, HashState(0, 0)) == st;
    assert HashEntries(h, m.entries, HashState(0, 0)) == HashEntries(h, [], st) == st;
  }
}
