/** Message::operator==() and Message::CalculateChecksum(). */
module MessageEquality {
  import opened Bytes
  import opened Messages
  import opened Unflattening

  /** How the source's == compares the memory images of floating-point values; it is symmetric, but as for the rest it
      may tell a value from itself, as it does with NaNs, or take different images for the same value. */
  type FloatEq = f: (seq<Byte>, seq<Byte>) -> bool | forall x, y :: f(x, y) == f(y, x) witness (x, y) => x == y

  predicate IsFloating(tc: nat) {
    tc == B_FLOAT_TYPE || tc == B_DOUBLE_TYPE || tc == B_POINT_TYPE || tc == B_RECT_TYPE
  }

  // ---- sizes on which the mutual recursion terminates ----

  function Weight(m: Message): nat
    decreases m
  {
    1 + EntriesWeight(m.entries)
  }

  function EntriesWeight(es: seq<Entry>): nat
    decreases es
  {
    if |es| == 0 then 0 else FieldWeight(es[0].field) + EntriesWeight(es[1..])
  }

  function FieldWeight(f: Field): nat
    decreases f
  {
    match f.rep
    case Empty => 1
    case Inline(item) => 1 + ItemWeight(item)
    case Array(items) => 1 + ItemsWeight(items)
  }

  function ItemsWeight(items: seq<Item>): nat
    decreases items
  {
    if |items| == 0 then 0 else ItemWeight(items[0]) + ItemsWeight(items[1..])
  }

  function ItemWeight(item: Item): nat
    decreases item
  {
    if item.Sub? then 1 + Weight(item.msg) else 1
  }

  lemma {:induction false} EntryWeight(es: seq<Entry>, i: nat)
    requires i < |es|
    ensures FieldWeight(es[i].field) <= EntriesWeight(es)
  {
    if i > 0 { EntryWeight(es[1..], i - 1); }
  }

  // ---- operator == ----

  predicate Equal(fe: FloatEq, a: Message, b: Message)
    decreases Weight(a) + Weight(b), 0
  {
    a.what == b.what && |a.entries| == |b.entries| && FieldsAreSubset(fe, a.entries, b.entries)
  }

  predicate FieldsAreSubset(fe: FloatEq, es: seq<Entry>, hs: seq<Entry>)
    decreases EntriesWeight(es) + EntriesWeight(hs), |es| + 2
  {
    |es| == 0
    || (var i := Lookup(hs, es[0].name);
        i < |hs| && (EntryWeight(hs, i); FieldsEqual(fe, es[0].field, hs[i].field)) && FieldsAreSubset(fe, es[1..], hs))
  }

  /** MessageField::IsEqualTo(); an array is compared with an inline item the other way round. */
  predicate FieldsEqual(fe: FloatEq, a: Field, b: Field)
    decreases FieldWeight(a) + FieldWeight(b), if a.rep.Array? then 1 else 0
  {
    if a.tc != b.tc || |Items(a.rep)| != |Items(b.rep)| then false
    else if |Items(a.rep)| == 0 then true
    else
      match a.rep
      case Empty => false
      case Inline(x) =>
        (match b.rep
         case Empty => false
         case Inline(y) => ItemsMatch(fe, a.tc, true, x, y)
         case Array(ys) =>
           assert ItemsWeight(ys) == ItemWeight(ys[0]) + ItemsWeight(ys[1..]);
           ItemsMatch(fe, a.tc, true, x, ys[0]))
      case Array(xs) => if b.rep.Array? then ArraysEqual(fe, a.tc, xs, b.rep.items) else FieldsEqual(fe, b, a)
  }

  /** AreContentsEqual() of the data-array classes. */
  predicate ArraysEqual(fe: FloatEq, tc: nat, xs: seq<Item>, ys: seq<Item>)
    requires |xs| == |ys|
    decreases ItemsWeight(xs) + ItemsWeight(ys), |xs|
  {
    |xs| == 0 || (ItemsMatch(fe, tc, false, xs[0], ys[0]) && ArraysEqual(fe, tc, xs[1..], ys[1..]))
  }

  /** Where an inline item is involved, tags that refer to ByteBuffers are compared by content
      (CompareRefCountableRefs()); tag arrays compare references only. */
  predicate ItemsMatch(fe: FloatEq, tc: nat, inline: bool, x: Item, y: Item)
    decreases ItemWeight(x) + ItemWeight(y), 0
  {
    if tc == B_MESSAGE_TYPE then x.Sub? && y.Sub? && Equal(fe, x.msg, y.msg)
    else if IsFloating(tc) then x.Pod? && y.Pod? && fe(x.image, y.image)
    else if !IsFlattenable(tc) then x.Opaque? && y.Opaque? && SameReferent(tc, inline, x, y)
    else x == y
  }

  predicate SameReferent(tc: nat, inline: bool, x: Item, y: Item)
    requires x.Opaque? && y.Opaque?
  {
    if tc == B_TAG_TYPE && inline && x.bytes.Some? && y.bytes.Some? then x.bytes == y.bytes else x.id == y.id
  }

  // ---- an independent meaning: names to typed item sequences ----

  datatype Meaning = Meaning(what: nat, fields: map<seq<Byte>, FieldMeaning>)
  datatype FieldMeaning = FieldMeaning(tc: nat, items: seq<ItemMeaning>)
  datatype ItemMeaning = Plain(item: Item) | Nested(msg: Meaning)

  /** Whether references count by identity or not at all. */
  datatype View = Identities | Erased

  function MeaningOf(v: View, m: Message): Meaning
    decreases m
  {
    Meaning(m.what, EntriesMeaning(v, m.entries))
  }

  function EntriesMeaning(v: View, es: seq<Entry>): map<seq<Byte>, FieldMeaning>
    decreases es
  {
    if |es| == 0 then map[] else EntriesMeaning(v, es[1..])[es[0].name := MeaningOfField(v, es[0].field)]
  }

  function MeaningOfField(v: View, f: Field): FieldMeaning
    decreases f
  {
    match f.rep
    case Empty => FieldMeaning(f.tc, [])
    case Inline(item) => FieldMeaning(f.tc, [MeaningOfItem(v, item)])
    case Array(items) => FieldMeaning(f.tc, MeaningOfItems(v, items))
  }

  function MeaningOfItems(v: View, items: seq<Item>): (r: seq<ItemMeaning>)
    ensures |r| == |items|
    decreases items
  {
    if |items| == 0 then [] else [MeaningOfItem(v, items[0])] + MeaningOfItems(v, items[1..])
  }

  function MeaningOfItem(v: View, item: Item): ItemMeaning
    decreases item
  {
    if item.Sub? then Nested(MeaningOf(v, item.msg))
    else if item.Opaque? && v == Erased then Plain(Opaque(0, None))
    else Plain(item)
  }

  /** No floating-point fields at any depth. */
  predicate Floatless(m: Message)
    decreases m
  {
    forall i :: 0 <= i < |m.entries| ==> FloatlessField(m.entries[i].field)
  }

  predicate FloatlessField(f: Field)
    decreases f
  {
    !IsFloating(f.tc)
    && match f.rep
       case Empty => true
       case Inline(item) => FloatlessItem(item)
       case Array(items) => forall i :: 0 <= i < |items| ==> FloatlessItem(items[i])
  }

  predicate FloatlessItem(item: Item)
    decreases item
  {
    item.Sub? ==> Floatless(item.msg)
  }

  /** All tags, at any depth, are from U. */
  ghost predicate TagsFrom(U: iset<Item>, m: Message)
    decreases m
  {
    forall i :: 0 <= i < |m.entries| ==> FieldTagsFrom(U, m.entries[i].field)
  }

  ghost predicate FieldTagsFrom(U: iset<Item>, f: Field)
    decreases f
  {
    match f.rep
    case Empty => true
    case Inline(item) => ItemTagsFrom(U, f.tc, item)
    case Array(items) => forall i :: 0 <= i < |items| ==> ItemTagsFrom(U, f.tc, items[i])
  }

  ghost predicate ItemTagsFrom(U: iset<Item>, tc: nat, item: Item)
    decreases item
  {
    (item.Sub? ==> TagsFrom(U, item.msg)) && (tc == B_TAG_TYPE ==> item in U)
  }

  /** A set of tags: what a reference refers to is determined by its identity. */
  ghost predicate IsTagSet(U: iset<Item>) {
    (forall x <- U :: x.Opaque?) && forall x, y :: x in U && y in U && x.id == y.id ==> x == y
  }

  /** No two distinct ByteBuffers among the tags have the same content. */
  ghost predicate NoTwins(U: iset<Item>)
    requires IsTagSet(U)
  {
    forall x, y :: x in U && y in U && x.bytes.Some? && x.bytes == y.bytes ==> x.id == y.id
  }

  /** Identities can be told apart only among tags without twins. */
  ghost predicate Suits(v: View, U: iset<Item>) {
    v == Identities ==> IsTagSet(U) && NoTwins(U)
  }

  ghost predicate Seen(v: View, U: iset<Item>, m: Message) {
    Floatless(m) && (v == Identities ==> TagsFrom(U, m))
  }

  ghost predicate FieldSeen(v: View, U: iset<Item>, f: Field) {
    FloatlessField(f) && (v == Identities ==> FieldTagsFrom(U, f))
  }

  ghost predicate ItemSeen(v: View, U: iset<Item>, tc: nat, item: Item) {
    FloatlessItem(item) && (v == Identities ==> ItemTagsFrom(U, tc, item))
  }

  lemma {:induction false} MeaningKeys(v: View, es: seq<Entry>)
    requires DistinctNames(es)
    ensures |EntriesMeaning(v, es)| == |es|
    ensures forall i :: 0 <= i < |es| ==>
      es[i].name in EntriesMeaning(v, es) && EntriesMeaning(v, es)[es[i].name] == MeaningOfField(v, es[i].field)
    ensures forall n <- EntriesMeaning(v, es) :: Lookup(es, n) < |es|
  {
    hide MeaningOfField;
    if |es| > 0 {
      var rest := es[1..];
      assert DistinctNames(rest);
      MeaningKeys(v, rest);
      forall n <- EntriesMeaning(v, rest) ensures n != es[0].name {
        var j := Lookup(rest, n);
        assert rest[j] == es[j + 1];
      }
    }
  }

  /** Same names, types and values, in any order of fields and whichever way a single item is held: that is equality.
      Without regard to tags it is still implied by equality. */
  lemma {:induction false} EqualIffSameMeaning(fe: FloatEq, v: View, U: iset<Item>, a: Message, b: Message)
    requires Valid(a) && Valid(b) && Suits(v, U) && Seen(v, U, a) && Seen(v, U, b)
    ensures Equal(fe, a, b) ==> MeaningOf(v, a) == MeaningOf(v, b)
    ensures v == Identities && MeaningOf(v, a) == MeaningOf(v, b) ==> Equal(fe, a, b)
    decreases Weight(a) + Weight(b), 0
  {
    hide ValidEntry, FloatlessField, FieldTagsFrom, FieldsAreSubset, EntriesMeaning, Suits;
    SubsetIffSameMeaning(fe, v, U, a.entries, b.entries);
    MeaningKeys(v, a.entries);
    MeaningKeys(v, b.entries);
    if |a.entries| == |b.entries| { SubsetMeansSame(v, a.entries, b.entries); }
  }

  ghost predicate MeaningWithin(v: View, es: seq<Entry>, hs: seq<Entry>) {
    forall i :: 0 <= i < |es| ==>
      es[i].name in EntriesMeaning(v, hs) && EntriesMeaning(v, hs)[es[i].name] == MeaningOfField(v, es[i].field)
  }

  lemma SubsetMeansSame(v: View, es: seq<Entry>, hs: seq<Entry>)
    requires DistinctNames(es) && DistinctNames(hs) && |es| == |hs|
    ensures MeaningWithin(v, es, hs) <==> EntriesMeaning(v, es) == EntriesMeaning(v, hs)
  {
    hide EntriesMeaning, MeaningOfField;
    MeaningKeys(v, es);
    MeaningKeys(v, hs);
    var a, b := EntriesMeaning(v, es), EntriesMeaning(v, hs);
    if MeaningWithin(v, es, hs) {
      forall n <- a ensures n in b && a[n] == b[n] {
        assert es[Lookup(es, n)].name == n;
      }
      assert a.Keys <= b.Keys;
      SameSizeSubset(a.Keys, b.Keys);
      assert a == b;
    }
  }

  lemma SameSizeSubset<T>(a: set<T>, b: set<T>)
    requires a <= b && |a| == |b|
    ensures a == b
  {
    assert b == a + (b - a);
    assert |b| == |a| + |b - a|;
  }

  lemma {:induction false} SubsetIffSameMeaning(fe: FloatEq, v: View, U: iset<Item>, es: seq<Entry>, hs: seq<Entry>)
    requires DistinctNames(hs) && Suits(v, U)
    requires forall i :: 0 <= i < |es| ==> ValidEntry(es[i]) && FieldSeen(v, U, es[i].field)
    requires forall i :: 0 <= i < |hs| ==> ValidEntry(hs[i]) && FieldSeen(v, U, hs[i].field)
    ensures FieldsAreSubset(fe, es, hs) ==> MeaningWithin(v, es, hs)
    ensures v == Identities && MeaningWithin(v, es, hs) ==> FieldsAreSubset(fe, es, hs)
    decreases EntriesWeight(es) + EntriesWeight(hs), |es| + 2
  {
    hide FieldSeen, EntriesMeaning, MeaningOfField, FieldsEqual, MeaningWithin, Suits;
    if |es| == 0 {
      WithinNil(v, hs);
    } else {
      var e, rest := es[0], es[1..];
      MeaningKeys(v, hs);
      var i := Lookup(hs, e.name);
      if i < |hs| {
        EntryWeight(hs, i);
        FieldEqualIffSameMeaning(fe, v, U, e.field, hs[i].field);
      }
      SubsetIffSameMeaning(fe, v, U, rest, hs);
      WithinCons(v, es, hs);
    }
  }

  lemma WithinNil(v: View, hs: seq<Entry>)
    ensures MeaningWithin(v, [], hs)
  {
  }

  lemma WithinCons(v: View, es: seq<Entry>, hs: seq<Entry>)
    requires |es| > 0
    ensures MeaningWithin(v, es, hs) <==>
      es[0].name in EntriesMeaning(v, hs) && EntriesMeaning(v, hs)[es[0].name] == MeaningOfField(v, es[0].field)
      && MeaningWithin(v, es[1..], hs)
  {
    hide EntriesMeaning, MeaningOfField;
    var rest := es[1..];
    assert forall k :: 0 <= k < |rest| ==> rest[k] == es[k + 1];
    assert forall k :: 0 < k < |es| ==> es[k] == rest[k - 1];
  }

  lemma {:induction false} FieldEqualIffSameMeaning(fe: FloatEq, v: View, U: iset<Item>, a: Field, b: Field)
    requires ValidField(a) && ValidField(b) && Suits(v, U) && FieldSeen(v, U, a) && FieldSeen(v, U, b)
    ensures FieldsEqual(fe, a, b) ==> MeaningOfField(v, a) == MeaningOfField(v, b)
    ensures v == Identities && MeaningOfField(v, a) == MeaningOfField(v, b) ==> FieldsEqual(fe, a, b)
    decreases FieldWeight(a) + FieldWeight(b), if a.rep.Array? then 1 else 0
  {
    hide ItemsMatch, ValidItem, FloatlessItem, ItemTagsFrom, MeaningOfItem, Suits;
    if a.tc == b.tc && |Items(a.rep)| == |Items(b.rep)| && |Items(a.rep)| > 0 {
      match a.rep
      case Inline(x) =>
        match b.rep {
          case Inline(y) => ItemMatchIffSameMeaning(fe, v, U, a.tc, true, x, y);
          case Array(ys) =>
            assert ItemsWeight(ys) == ItemWeight(ys[0]) + ItemsWeight(ys[1..]);
            ItemMatchIffSameMeaning(fe, v, U, a.tc, true, x, ys[0]);
            assert MeaningOfItems(v, ys) == [MeaningOfItem(v, ys[0])] + MeaningOfItems(v, ys[1..]);
            assert MeaningOfItems(v, ys)[0] == MeaningOfItem(v, ys[0]);
        }
      case Array(xs) =>
        if b.rep.Array? {
          ArraysEqualIffSameMeaning(fe, v, U, a.tc, xs, b.rep.items);
        } else {
          FieldEqualIffSameMeaning(fe, v, U, b, a);
        }
    }
  }

  lemma {:induction false} ArraysEqualIffSameMeaning(fe: FloatEq, v: View, U: iset<Item>, tc: nat, xs: seq<Item>,
                                                     ys: seq<Item>)
    requires |xs| == |ys| && !IsFloating(tc) && ValidItems(tc, xs) && ValidItems(tc, ys) && Suits(v, U)
    requires forall i :: 0 <= i < |xs| ==> ItemSeen(v, U, tc, xs[i]) && ItemSeen(v, U, tc, ys[i])
    ensures ArraysEqual(fe, tc, xs, ys) ==> MeaningOfItems(v, xs) == MeaningOfItems(v, ys)
    ensures v == Identities && MeaningOfItems(v, xs) == MeaningOfItems(v, ys) ==> ArraysEqual(fe, tc, xs, ys)
    decreases ItemsWeight(xs) + ItemsWeight(ys), |xs|
  {
    hide ItemsMatch, ValidItem, ItemSeen, MeaningOfItem, Suits;
    if |xs| > 0 {
      ItemMatchIffSameMeaning(fe, v, U, tc, false, xs[0], ys[0]);
      ArraysEqualIffSameMeaning(fe, v, U, tc, xs[1..], ys[1..]);
      assert MeaningOfItems(v, xs)[0] == MeaningOfItem(v, xs[0])
        && MeaningOfItems(v, xs)[1..] == MeaningOfItems(v, xs[1..]);
      assert MeaningOfItems(v, ys)[0] == MeaningOfItem(v, ys[0])
        && MeaningOfItems(v, ys)[1..] == MeaningOfItems(v, ys[1..]);
    }
  }

  lemma {:induction false} ItemMatchIffSameMeaning(fe: FloatEq, v: View, U: iset<Item>, tc: nat, inline: bool, x: Item,
                                                   y: Item)
    requires !IsFloating(tc) && ValidItem(tc, x) && ValidItem(tc, y) && Suits(v, U)
    requires ItemSeen(v, U, tc, x) && ItemSeen(v, U, tc, y)
    ensures ItemsMatch(fe, tc, inline, x, y) ==> MeaningOfItem(v, x) == MeaningOfItem(v, y)
    ensures v == Identities && MeaningOfItem(v, x) == MeaningOfItem(v, y) ==> ItemsMatch(fe, tc, inline, x, y)
    decreases ItemWeight(x) + ItemWeight(y), 0
  {
    hide Equal, Valid, Floatless, TagsFrom, MeaningOf;
    if tc == B_MESSAGE_TYPE { EqualIffSameMeaning(fe, v, U, x.msg, y.msg); }
  }

  // ---- reflexivity ----

  /** A subset is a matter of its members. */
  lemma {:induction false} SubsetPointwise(fe: FloatEq, es: seq<Entry>, hs: seq<Entry>)
    ensures FieldsAreSubset(fe, es, hs) <==>
      forall i :: 0 <= i < |es| ==>
        Lookup(hs, es[i].name) < |hs|
        && FieldsEqual(fe, es[i].field, hs[Lookup(hs, es[i].name)].field)
    decreases |es|
  {
    hide FieldsEqual, Lookup;
    if |es| > 0 {
      var rest := es[1..];
      SubsetPointwise(fe, rest, hs);
      assert forall k :: 0 <= k < |rest| ==> rest[k] == es[k + 1];
      assert forall k :: 0 < k < |es| ==> es[k] == rest[k - 1];
    }
  }

  lemma LookupFinds(es: seq<Entry>, i: nat)
    requires DistinctNames(es) && i < |es|
    ensures Lookup(es, es[i].name) == i
  {
  }

  lemma {:induction false} EqualReflexive(fe: FloatEq, m: Message)
    requires Valid(m) && Floatless(m)
    ensures Equal(fe, m, m)
    decreases m, 2
  {
    hide FieldsAreSubset, FieldsEqual, ValidField, FloatlessField;
    forall i | 0 <= i < |m.entries|
      ensures Lookup(m.entries, m.entries[i].name) == i && FieldsEqual(fe, m.entries[i].field, m.entries[i].field)
    {
      LookupFinds(m.entries, i);
      FieldReflexive(fe, m.entries[i].field);
    }
    SubsetPointwise(fe, m.entries, m.entries);
  }

  lemma {:induction false} FieldReflexive(fe: FloatEq, f: Field)
    requires ValidField(f) && FloatlessField(f)
    ensures FieldsEqual(fe, f, f)
    decreases f, 1
  {
    hide ItemsMatch, ValidItem, FloatlessItem;
    match f.rep
    case Empty =>
    case Inline(item) => ItemReflexive(fe, f.tc, true, item);
    case Array(items) => ArraysReflexive(fe, f.tc, items);
  }

  lemma {:induction false} ArraysReflexive(fe: FloatEq, tc: nat, xs: seq<Item>)
    requires ValidItems(tc, xs) && !IsFloating(tc) && forall i :: 0 <= i < |xs| ==> FloatlessItem(xs[i])
    ensures ArraysEqual(fe, tc, xs, xs)
    decreases xs, 0
  {
    hide ItemsMatch, ValidItem, FloatlessItem;
    if |xs| > 0 {
      ItemReflexive(fe, tc, false, xs[0]);
      ArraysReflexive(fe, tc, xs[1..]);
    }
  }

  lemma {:induction false} ItemReflexive(fe: FloatEq, tc: nat, inline: bool, x: Item)
    requires !IsFloating(tc) && ValidItem(tc, x) && FloatlessItem(x)
    ensures ItemsMatch(fe, tc, inline, x, x)
    decreases x, 0
  {
    hide Equal, Valid, Floatless;
    if tc == B_MESSAGE_TYPE { EqualReflexive(fe, x.msg); }
  }

  // ---- symmetry ----

  lemma {:induction false} EqualSymmetric(fe: FloatEq, a: Message, b: Message)
    requires Valid(a) && Valid(b) && Equal(fe, a, b)
    ensures Equal(fe, b, a)
    decreases Weight(a) + Weight(b), 0
  {
    hide ValidField, FieldsAreSubset, FieldsEqual, EntriesMeaning, Weight;
    SubsetPointwise(fe, a.entries, b.entries);
    SameNames(a.entries, b.entries);
    forall j | 0 <= j < |b.entries|
      ensures var i := Lookup(a.entries, b.entries[j].name);
        i < |a.entries| && FieldsEqual(fe, b.entries[j].field, a.entries[i].field)
    {
      EntrySymmetric(fe, a, b, j);
    }
    SubsetPointwise(fe, b.entries, a.entries);
  }

  lemma {:induction false} EntrySymmetric(fe: FloatEq, a: Message, b: Message, j: nat)
    requires Valid(a) && Valid(b) && j < |b.entries|
    requires Lookup(a.entries, b.entries[j].name) < |a.entries|
    requires forall i :: 0 <= i < |a.entries| ==>
      var k := Lookup(b.entries, a.entries[i].name);
      k < |b.entries| && FieldsEqual(fe, a.entries[i].field, b.entries[k].field)
    ensures var i := Lookup(a.entries, b.entries[j].name);
      i < |a.entries| && FieldsEqual(fe, b.entries[j].field, a.entries[i].field)
    decreases Weight(a) + Weight(b), 0, 0
  {
    hide ValidField, FieldsEqual;
    var i := Lookup(a.entries, b.entries[j].name);
    LookupFinds(b.entries, j);
    EntryWeight(a.entries, i);
    EntryWeight(b.entries, j);
    FieldSymmetric(fe, a.entries[i].field, b.entries[j].field);
  }

  /** Distinct names, as many on either side, and all of a's among b's: then all of b's are among a's. */
  lemma SameNames(es: seq<Entry>, hs: seq<Entry>)
    requires DistinctNames(es) && DistinctNames(hs) && |es| == |hs|
    requires forall i :: 0 <= i < |es| ==> Lookup(hs, es[i].name) < |hs|
    ensures forall j :: 0 <= j < |hs| ==> Lookup(es, hs[j].name) < |es|
  {
    hide EntriesMeaning, MeaningOfField;
    MeaningKeys(Erased, es);
    MeaningKeys(Erased, hs);
    var a, b := EntriesMeaning(Erased, es).Keys, EntriesMeaning(Erased, hs).Keys;
    forall n <- a ensures n in b {
      var k := Lookup(hs, es[Lookup(es, n)].name);
      assert hs[k].name in b;
    }
    SameSizeSubset(a, b);
    assert forall j :: 0 <= j < |hs| ==> hs[j].name in a;
  }

  lemma {:induction false} FieldSymmetric(fe: FloatEq, f: Field, g: Field)
    requires ValidField(f) && ValidField(g) && FieldsEqual(fe, f, g)
    ensures FieldsEqual(fe, g, f)
    decreases FieldWeight(f) + FieldWeight(g), 1
  {
    hide ItemsMatch, ValidItem;
    if |Items(f.rep)| > 0 {
      if f.rep.Inline? && g.rep.Inline? { ItemSymmetric(fe, f.tc, true, f.rep.item, g.rep.item); }
      if f.rep.Array? && g.rep.Array? { ArraysSymmetric(fe, f.tc, f.rep.items, g.rep.items); }
    }
  }

  lemma {:induction false} ArraysSymmetric(fe: FloatEq, tc: nat, xs: seq<Item>, ys: seq<Item>)
    requires |xs| == |ys| && ValidItems(tc, xs) && ValidItems(tc, ys) && ArraysEqual(fe, tc, xs, ys)
    ensures ArraysEqual(fe, tc, ys, xs)
    decreases ItemsWeight(xs) + ItemsWeight(ys), |xs|
  {
    hide ItemsMatch, ValidItem;
    if |xs| > 0 {
      ItemSymmetric(fe, tc, false, xs[0], ys[0]);
      ArraysSymmetric(fe, tc, xs[1..], ys[1..]);
    }
  }

  lemma {:induction false} ItemSymmetric(fe: FloatEq, tc: nat, inline: bool, x: Item, y: Item)
    requires ValidItem(tc, x) && ValidItem(tc, y) && ItemsMatch(fe, tc, inline, x, y)
    ensures ItemsMatch(fe, tc, inline, y, x)
    decreases ItemWeight(x) + ItemWeight(y), 0
  {
    hide Equal, Valid;
    if tc == B_MESSAGE_TYPE { EqualSymmetric(fe, x.msg, y.msg); }
  }

  // ---- when operator==() is an equivalence relation ----

  /** The Messages without floating-point fields whose tags are from U. */
  ghost predicate Over(U: iset<Item>, m: Message) {
    Valid(m) && Floatless(m) && TagsFrom(U, m)
  }

  ghost predicate ReflexiveOver(fe: FloatEq, U: iset<Item>) {
    forall a :: Over(U, a) ==> Equal(fe, a, a)
  }

  ghost predicate SymmetricOver(fe: FloatEq, U: iset<Item>) {
    forall a, b :: Over(U, a) && Over(U, b) && Equal(fe, a, b) ==> Equal(fe, b, a)
  }

  ghost predicate TransitiveOver(fe: FloatEq, U: iset<Item>) {
    forall a, b, c :: Over(U, a) && Over(U, b) && Over(U, c) && Equal(fe, a, b) && Equal(fe, b, c) ==> Equal(fe, a, c)
  }

  /** operator==() is an equivalence relation exactly on those sets of tags in which no two distinct ByteBuffers have
      the same content; reflexivity and symmetry need no condition. */
  lemma EquivalenceIffNoTwins(fe: FloatEq, U: iset<Item>)
    requires IsTagSet(U)
    ensures ReflexiveOver(fe, U) && SymmetricOver(fe, U)
    ensures TransitiveOver(fe, U) <==> NoTwins(U)
  {
    hide Equal, Valid, Floatless, TagsFrom, MeaningOf;
    forall a | Over(U, a) ensures Equal(fe, a, a) { EqualReflexive(fe, a); }
    forall a, b | Over(U, a) && Over(U, b) && Equal(fe, a, b) ensures Equal(fe, b, a) { EqualSymmetric(fe, a, b); }
    if NoTwins(U) {
      forall a, b, c | Over(U, a) && Over(U, b) && Over(U, c) && Equal(fe, a, b) && Equal(fe, b, c)
        ensures Equal(fe, a, c) {
        EqualIffSameMeaning(fe, Identities, U, a, b);
        EqualIffSameMeaning(fe, Identities, U, b, c);
        EqualIffSameMeaning(fe, Identities, U, a, c);
      }
    } else {
      var x, y :| x in U && y in U && x.bytes.Some? && x.bytes == y.bytes && x.id != y.id;
      TwinsBreakTransitivity(fe, U, x, y);
    }
  }

  function TagMessage(r: Rep): Message {
    Message(0, [Entry([65], Field(B_TAG_TYPE, r))])
  }

  /** Every pair of twins comes with three Messages that break it. */
  lemma TwinsBreakTransitivity(fe: FloatEq, U: iset<Item>, x: Item, y: Item)
    requires x in U && y in U && x.Opaque? && y.Opaque? && x.bytes.Some? && x.bytes == y.bytes && x.id != y.id
    ensures var a, b, c := TagMessage(Array([x])), TagMessage(Inline(x)), TagMessage(Array([y]));
      Over(U, a) && Over(U, b) && Over(U, c) && Equal(fe, a, b) && Equal(fe, b, c) && !Equal(fe, a, c)
  {
    hide FieldsEqual, Over, Equal;
    var a, b, c := TagMessage(Array([x])), TagMessage(Inline(x)), TagMessage(Array([y]));
    TagRepresentationsAgreeIff(fe, x, y);
    TagRepresentationsAgreeIff(fe, x, x);
    OneField(fe, a, b);
    OneField(fe, b, c);
    OneField(fe, a, c);
    TagMessageOver(U, x);
    TagMessageOver(U, y);
  }

  lemma TagMessageOver(U: iset<Item>, x: Item)
    requires x in U && x.Opaque?
    ensures Over(U, TagMessage(Inline(x))) && Over(U, TagMessage(Array([x])))
  {
    assert ValidItem(B_TAG_TYPE, x) && FloatlessItem(x) && ItemTagsFrom(U, B_TAG_TYPE, x);
    var f, g := Field(B_TAG_TYPE, Inline(x)), Field(B_TAG_TYPE, Array([x]));
    assert ValidField(f) && FloatlessField(f) && FieldTagsFrom(U, f);
    assert ValidItems(B_TAG_TYPE, [x]);
    assert ValidField(g) && FloatlessField(g) && FieldTagsFrom(U, g);
    assert ValidEntry(Entry([65], f)) && ValidEntry(Entry([65], g));
  }

  /** The order of the fields does not matter. */
  lemma EqualIgnoresOrder(fe: FloatEq, a: Message, b: Message)
    requires Valid(a) && Valid(b) && Floatless(a) && a.what == b.what && multiset(a.entries) == multiset(b.entries)
    ensures Equal(fe, a, b)
  {
    hide ValidField, FloatlessField, FieldsAreSubset, FieldsEqual;
    assert |a.entries| == |multiset(a.entries)| == |b.entries|;
    forall i | 0 <= i < |a.entries|
      ensures var k := Lookup(b.entries, a.entries[i].name);
        k < |b.entries| && FieldsEqual(fe, a.entries[i].field, b.entries[k].field)
    {
      assert a.entries[i] in multiset(b.entries);
      var j :| 0 <= j < |b.entries| && b.entries[j] == a.entries[i];
      LookupFinds(b.entries, j);
      FieldReflexive(fe, a.entries[i].field);
    }
    SubsetPointwise(fe, a.entries, b.entries);
  }

  /** Nor does it matter in a comparison with any third Message, floating-point fields or not. */
  lemma OrderIsInvisible(fe: FloatEq, a: Message, b: Message, c: Message)
    requires Valid(a) && Valid(b) && Valid(c) && a.what == b.what && multiset(a.entries) == multiset(b.entries)
    ensures Equal(fe, a, c) == Equal(fe, b, c) && Equal(fe, c, a) == Equal(fe, c, b)
  {
    hide Equal, Valid;
    if Equal(fe, a, c) { ReorderedEqual(fe, a, b, c); }
    if Equal(fe, b, c) { ReorderedEqual(fe, b, a, c); }
    if Equal(fe, c, a) {
      EqualSymmetric(fe, c, a);
      ReorderedEqual(fe, a, b, c);
      EqualSymmetric(fe, b, c);
    }
    if Equal(fe, c, b) {
      EqualSymmetric(fe, c, b);
      ReorderedEqual(fe, b, a, c);
      EqualSymmetric(fe, a, c);
    }
  }

  lemma ReorderedEqual(fe: FloatEq, a: Message, b: Message, c: Message)
    requires Valid(a) && Valid(b) && Valid(c) && a.what == b.what && multiset(a.entries) == multiset(b.entries)
    requires Equal(fe, a, c)
    ensures Equal(fe, b, c)
  {
    hide ValidField, FieldsAreSubset, FieldsEqual;
    assert |a.entries| == |multiset(a.entries)| == |b.entries|;
    SubsetPointwise(fe, a.entries, c.entries);
    forall i | 0 <= i < |b.entries|
      ensures var k := Lookup(c.entries, b.entries[i].name);
        k < |c.entries| && FieldsEqual(fe, b.entries[i].field, c.entries[k].field)
    {
      assert b.entries[i] in multiset(a.entries);
      var j :| 0 <= j < |a.entries| && a.entries[j] == b.entries[i];
    }
    SubsetPointwise(fe, b.entries, c.entries);
  }

  /** For tag fields the ways to compare one item with another agree, unless two distinct ByteBuffers with the same
      content meet: then inline items are equal and array items are not. */
  lemma TagRepresentationsAgreeIff(fe: FloatEq, x: Item, y: Item)
    requires x.Opaque? && y.Opaque? && (x.id == y.id ==> x == y)
    ensures var f, g := Field(B_TAG_TYPE, Inline(x)), Field(B_TAG_TYPE, Inline(y));
      var f', g' := Field(B_TAG_TYPE, Array([x])), Field(B_TAG_TYPE, Array([y]));
      && FieldsEqual(fe, f, g) == FieldsEqual(fe, f, g') == FieldsEqual(fe, f', g)
      && (FieldsEqual(fe, f, g) == FieldsEqual(fe, f', g') <==> !(x.bytes.Some? && x.bytes == y.bytes && x.id != y.id))
      && FieldsEqual(fe, f, g) == SameReferent(B_TAG_TYPE, true, x, y)
  {
    hide ItemsMatch;
    assert ArraysEqual(fe, B_TAG_TYPE, [x][1..], [y][1..]);
    TagItems(fe, x, y);
    TagItems(fe, y, x);
    assert ArraysEqual(fe, B_TAG_TYPE, [x], [y]) == ItemsMatch(fe, B_TAG_TYPE, false, x, y);
  }

  lemma TagItems(fe: FloatEq, x: Item, y: Item)
    requires x.Opaque? && y.Opaque?
    ensures ItemsMatch(fe, B_TAG_TYPE, true, x, y) == SameReferent(B_TAG_TYPE, true, x, y)
    ensures ItemsMatch(fe, B_TAG_TYPE, false, x, y) == (x.id == y.id)
  {
  }

  lemma OneField(fe: FloatEq, a: Message, b: Message)
    requires |a.entries| == |b.entries| == 1 && a.what == b.what && a.entries[0].name == b.entries[0].name
    ensures Equal(fe, a, b) == FieldsEqual(fe, a.entries[0].field, b.entries[0].field)
  {
    hide FieldsEqual;
    assert FieldsAreSubset(fe, a.entries[1..], b.entries);
  }

  // ---- checksums ----

  /** The checksums of names and values. */
  datatype Sums = Sums(name: seq<Byte> -> nat, pod: (nat, seq<Byte>) -> nat, text: seq<Byte> -> nat,
                       blob: seq<Byte> -> nat)

  /** The source asserts that a counted field is not in the empty state. */
  predicate Settled(m: Message)
    decreases m
  {
    forall i :: 0 <= i < |m.entries| ==> SettledField(m.entries[i].field)
  }

  predicate SettledField(f: Field)
    decreases f
  {
    match f.rep
    case Empty => false
    case Inline(item) => SettledItem(item)
    case Array(items) => forall i :: 0 <= i < |items| ==> SettledItem(items[i])
  }

  predicate SettledItem(item: Item)
    decreases item
  {
    item.Sub? ==> Settled(item.msg)
  }

  /** 32-bit arithmetic; all tells whether tags and pointers count. */
  function Checksum(s: Sums, all: bool, m: Message): nat
    decreases m
  {
    (m.what + EntriesChecksum(s, all, m.entries)) % TWO32
  }

  function EntriesChecksum(s: Sums, all: bool, es: seq<Entry>): nat
    decreases es
  {
    if |es| == 0 then 0
    else
      EntryTerm(s, all, es[0].name, es[0].field.tc, FieldChecksum(s, all, es[0].field))
      + EntriesChecksum(s, all, es[1..])
  }

  function EntryTerm(s: Sums, all: bool, name: seq<Byte>, tc: nat, sum: nat): nat {
    if !all && !IsFlattenable(tc) then 0
    else
      var c := s.name(name);
      c + (if c == 0 then 1 else 0) + c * sum
  }

  function FieldChecksum(s: Sums, all: bool, f: Field): nat
    decreases f
  {
    match f.rep
    case Empty => 0
    case Inline(item) => (f.tc + 1 + ItemChecksum(s, all, f.tc, item)) % TWO32
    case Array(items) => (f.tc + |items| + WeightedSum(s, all, f.tc, items, 1)) % TWO32
  }

  function WeightedSum(s: Sums, all: bool, tc: nat, items: seq<Item>, weight: nat): nat
    decreases items
  {
    if |items| == 0 then 0
    else weight * ItemChecksum(s, all, tc, items[0]) + WeightedSum(s, all, tc, items[1..], weight + 1)
  }

  function ItemChecksum(s: Sums, all: bool, tc: nat, item: Item): nat
    decreases item
  {
    match item
    case Pod(image) => s.pod(tc, image)
    case Text(chars) => s.text(chars)
    case Sub(msg) => Checksum(s, all, msg)
    case Blob(data) => s.blob(data)
    case Opaque(_, _) => 0
  }

  // ---- what a checksum responds to ----

  /** Equal as 32-bit numbers. */
  predicate Congruent(a: int, b: int) {
    (a - b) % TWO32 == 0
  }

  /** What one item counts for: its value's own checksum, for a sub-Message the checksum of that Message. */
  predicate CountsFor(s: Sums, all: bool, tc: nat, item: Item, n: nat) {
    match item
    case Pod(image) => n == s.pod(tc, image)
    case Text(chars) => n == s.text(chars)
    case Sub(msg) => n == Checksum(s, all, msg)
    case Blob(data) => n == s.blob(data)
    case Opaque(_, _) => n == 0
  }

  predicate Counted(all: bool, tc: nat) {
    all || IsFlattenable(tc)
  }

  /** The two sequences agree except at position i. */
  predicate DifferAt<T(==)>(xs: seq<T>, ys: seq<T>, i: nat) {
    i < |xs| == |ys| && forall k :: 0 <= k < |xs| && k != i ==> xs[k] == ys[k]
  }

  lemma CongruentSteps(a: int, b: int, c: int)
    requires Congruent(a, b)
    ensures Congruent(b, a) && (Congruent(b, c) ==> Congruent(a, c)) && Congruent(a + c, b + c)
  {
  }

  lemma CongruentProduct(c: int, a: int, b: int)
    requires Congruent(a, b)
    ensures Congruent(c * a, c * b)
  {
    var t := (a - b) / TWO32;
    assert a - b == TWO32 * t;
    assert c * a - c * b == TWO32 * (c * t);
    Multiple(c * t);
  }

  lemma Multiple(t: int)
    ensures (TWO32 * t) % TWO32 == 0
  {
  }

  lemma Reduced(a: int)
    ensures Congruent(a % TWO32, a)
  {
  }

  lemma CountsForIs(s: Sums, all: bool, tc: nat, item: Item, n: nat)
    requires CountsFor(s, all, tc, item, n)
    ensures n == ItemChecksum(s, all, tc, item)
  {
  }

  lemma {:induction false} WeightedResponse(s: Sums, all: bool, tc: nat, xs: seq<Item>, ys: seq<Item>, i: nat,
                                            weight: nat)
    requires DifferAt(xs, ys, i)
    ensures WeightedSum(s, all, tc, ys, weight) - WeightedSum(s, all, tc, xs, weight) ==
      (weight + i) * (ItemChecksum(s, all, tc, ys[i]) - ItemChecksum(s, all, tc, xs[i]))
    decreases |xs|
  {
    hide ItemChecksum;
    if i == 0 {
      assert xs[1..] == ys[1..];
      var p: int, q: int := ItemChecksum(s, all, tc, xs[0]), ItemChecksum(s, all, tc, ys[0]);
      assert weight * q - weight * p == weight * (q - p);
    } else {
      WeightedResponse(s, all, tc, xs[1..], ys[1..], i - 1, weight + 1);
    }
  }

  lemma {:induction false} WeightedSnoc(s: Sums, all: bool, tc: nat, xs: seq<Item>, y: Item, weight: nat)
    ensures WeightedSum(s, all, tc, xs + [y], weight) ==
      WeightedSum(s, all, tc, xs, weight) + (weight + |xs|) * ItemChecksum(s, all, tc, y)
    decreases |xs|
  {
    hide ItemChecksum;
    if |xs| == 0 {
      assert xs + [y] == [y] && [y][1..] == [];
    } else {
      WeightedSnoc(s, all, tc, xs[1..], y, weight + 1);
      assert (xs + [y])[1..] == xs[1..] + [y];
    }
  }

  /** A field's checksum, whichever way its items are held. */
  lemma FieldSum(s: Sums, all: bool, f: Field)
    requires f.rep != Empty
    ensures Congruent(FieldChecksum(s, all, f), f.tc + |Items(f.rep)| + WeightedSum(s, all, f.tc, Items(f.rep), 1))
  {
    hide ItemChecksum, WeightedSum;
    if f.rep.Inline? { WeightedSnoc(s, all, f.tc, [], f.rep.item, 1); }
    WeightedNothing(s, all, f.tc);
    assert forall x: Item :: [] + [x] == [x];
    Reduced(f.tc + |Items(f.rep)| + WeightedSum(s, all, f.tc, Items(f.rep), 1));
  }

  lemma WeightedNothing(s: Sums, all: bool, tc: nat)
    ensures WeightedSum(s, all, tc, [], 1) == 0
  {
  }

  /** Replacing one entry's field replaces its term. */
  lemma {:induction false} TermReplaced(s: Sums, all: bool, es: seq<Entry>, hs: seq<Entry>, j: nat)
    requires DifferAt(es, hs, j)
    ensures EntriesChecksum(s, all, hs) - EntriesChecksum(s, all, es) == Term(s, all, hs[j]) - Term(s, all, es[j])
    decreases |es|
  {
    hide EntryTerm, FieldChecksum;
    if j == 0 {
      assert es[1..] == hs[1..];
    } else {
      TermReplaced(s, all, es[1..], hs[1..], j - 1);
    }
  }

  function Term(s: Sums, all: bool, e: Entry): nat {
    EntryTerm(s, all, e.name, e.field.tc, FieldChecksum(s, all, e.field))
  }

  /** If two Messages differ in one field only, whose checksums differ by d, theirs differ by d times the name's
      checksum. */
  lemma FieldReplaced(s: Sums, all: bool, a: Message, b: Message, j: nat, d: int)
    requires a.what == b.what && DifferAt(a.entries, b.entries, j)
    requires a.entries[j].name == b.entries[j].name && a.entries[j].field.tc == b.entries[j].field.tc
    requires Congruent(FieldChecksum(s, all, b.entries[j].field) - FieldChecksum(s, all, a.entries[j].field), d)
    ensures Congruent(Checksum(s, all, b) - Checksum(s, all, a),
                      if Counted(all, a.entries[j].field.tc) then s.name(a.entries[j].name) * d else 0)
  {
    hide EntriesChecksum, Term, Congruent;
    var es, hs := a.entries, b.entries;
    TermReplaced(s, all, es, hs, j);
    TermResponds(s, all, es[j], hs[j], d);
    var x, y := a.what + EntriesChecksum(s, all, es), b.what + EntriesChecksum(s, all, hs);
    DifferenceOfReduced(y, x);
    CongruentSteps(Checksum(s, all, b) - Checksum(s, all, a), y - x,
                   if Counted(all, es[j].field.tc) then s.name(es[j].name) * d else 0);
  }

  lemma TermResponds(s: Sums, all: bool, e: Entry, e': Entry, d: int)
    requires e.name == e'.name && e.field.tc == e'.field.tc
    requires Congruent(FieldChecksum(s, all, e'.field) - FieldChecksum(s, all, e.field), d)
    ensures Congruent(Term(s, all, e') - Term(s, all, e),
                      if Counted(all, e.field.tc) then s.name(e.name) * d else 0)
  {
    hide FieldChecksum, Congruent;
    var p: int, q: int := FieldChecksum(s, all, e.field), FieldChecksum(s, all, e'.field);
    var c: int := s.name(e.name);
    CongruentProduct(c, q - p, d);
    Distribute(c, q, p);
    Reflexive(0);
  }

  lemma Distribute(c: int, q: int, p: int)
    ensures c * (q - p) == c * q - c * p
  {
  }

  lemma DifferenceOfReduced(y: int, x: int)
    ensures Congruent(y % TWO32 - x % TWO32, y - x)
  {
  }

  /** The response law: if b differs from a only in item i of one field, the checksums differ by the name's checksum
      times i + 1 times the difference of the two items, as 32-bit numbers; not at all if the field is not counted. */
  lemma ItemReplaced(s: Sums, all: bool, a: Message, b: Message, j: nat, i: nat, p: nat, q: nat)
    requires a.what == b.what && DifferAt(a.entries, b.entries, j) && a.entries[j].name == b.entries[j].name
    requires var f, g := a.entries[j].field, b.entries[j].field;
      && f.tc == g.tc && f.rep != Empty && g.rep != Empty && DifferAt(Items(f.rep), Items(g.rep), i)
      && CountsFor(s, all, f.tc, Items(f.rep)[i], p) && CountsFor(s, all, f.tc, Items(g.rep)[i], q)
    ensures Congruent(Checksum(s, all, b) - Checksum(s, all, a),
                      if Counted(all, a.entries[j].field.tc) then s.name(a.entries[j].name) * ((i + 1) * (q - p))
                      else 0)
  {
    hide FieldChecksum, Checksum, CountsFor, WeightedSum, Congruent;
    var f, g := a.entries[j].field, b.entries[j].field;
    CountsForIs(s, all, f.tc, Items(f.rep)[i], p);
    CountsForIs(s, all, f.tc, Items(g.rep)[i], q);
    WeightedResponse(s, all, f.tc, Items(f.rep), Items(g.rep), i, 1);
    FieldSum(s, all, f);
    FieldSum(s, all, g);
    var d := (i + 1) * (q - p);
    Differences(FieldChecksum(s, all, g), f.tc + |Items(g.rep)| + WeightedSum(s, all, f.tc, Items(g.rep), 1),
                FieldChecksum(s, all, f), f.tc + |Items(f.rep)| + WeightedSum(s, all, f.tc, Items(f.rep), 1));
    FieldReplaced(s, all, a, b, j, d);
  }

  lemma Differences(a: int, b: int, c: int, d: int)
    requires Congruent(a, b) && Congruent(c, d)
    ensures Congruent(a - c, b - d)
  {
  }

  /** One more item at the end of a field counts for one, and for its own value times its position. */
  lemma ItemAdded(s: Sums, all: bool, a: Message, b: Message, j: nat, y: Item, q: nat)
    requires a.what == b.what && DifferAt(a.entries, b.entries, j) && a.entries[j].name == b.entries[j].name
    requires var f, g := a.entries[j].field, b.entries[j].field;
      && f.tc == g.tc && f.rep != Empty && g.rep != Empty && Items(g.rep) == Items(f.rep) + [y]
      && CountsFor(s, all, f.tc, y, q)
    ensures var n := |Items(b.entries[j].field.rep)|;
      Congruent(Checksum(s, all, b) - Checksum(s, all, a),
                if Counted(all, a.entries[j].field.tc) then s.name(a.entries[j].name) * (1 + n * q) else 0)
  {
    hide FieldChecksum, Checksum, CountsFor, WeightedSum, Congruent;
    var f, g := a.entries[j].field, b.entries[j].field;
    CountsForIs(s, all, f.tc, y, q);
    WeightedSnoc(s, all, f.tc, Items(f.rep), y, 1);
    FieldSum(s, all, f);
    FieldSum(s, all, g);
    Differences(FieldChecksum(s, all, g), f.tc + |Items(g.rep)| + WeightedSum(s, all, f.tc, Items(g.rep), 1),
                FieldChecksum(s, all, f), f.tc + |Items(f.rep)| + WeightedSum(s, all, f.tc, Items(f.rep), 1));
    FieldReplaced(s, all, a, b, j, 1 + |Items(g.rep)| * q);
  }

  /** A field without items, wherever it is added, counts for its name and its name times its type; a name with checksum
      0 counts for one. */
  lemma FieldAdded(s: Sums, all: bool, m: Message, j: nat)
    requires j < |m.entries| && m.entries[j].field.rep == Array([])
    ensures var e, without := m.entries[j], Message(m.what, RemoveAt(m.entries, j));
      var c := s.name(e.name);
      Congruent(Checksum(s, all, m) - Checksum(s, all, without),
                if Counted(all, e.field.tc) then (if c == 0 then 1 else c) + c * e.field.tc else 0)
  {
    hide EntriesChecksum, EntryTerm, FieldChecksum, Congruent;
    var e := m.entries[j];
    ChecksumWithout(s, all, m.entries, j);
    TermOfNoItems(s, all, e);
    TermAdded(m.what, Term(s, all, e), EntriesChecksum(s, all, RemoveAt(m.entries, j)));
    var c := s.name(e.name);
    var d := if Counted(all, e.field.tc) then (if c == 0 then 1 else c) + c * e.field.tc else 0;
    var diff := Checksum(s, all, m) - Checksum(s, all, Message(m.what, RemoveAt(m.entries, j)));
    CongruentSteps(diff, Term(s, all, e), d);
  }

  lemma TermOfNoItems(s: Sums, all: bool, e: Entry)
    requires e.field.rep == Array([])
    ensures var c := s.name(e.name);
      Congruent(Term(s, all, e), if Counted(all, e.field.tc) then (if c == 0 then 1 else c) + c * e.field.tc else 0)
  {
    hide Congruent, FieldChecksum;
    var c, sum := s.name(e.name), FieldChecksum(s, all, e.field);
    FieldSum(s, all, e.field);
    WeightedNothing(s, all, e.field.tc);
    CongruentProduct(c, sum, e.field.tc);
    CongruentSteps(c * sum, c * e.field.tc, if c == 0 then 1 else c);
    Reflexive(0);
  }

  lemma Reflexive(a: int)
    ensures Congruent(a, a)
  {
  }

  lemma TermAdded(what: int, term: int, rest: int)
    ensures Congruent((what + (term + rest)) % TWO32 - (what + rest) % TWO32, term)
  {
    DifferenceOfReduced(what + (term + rest), what + rest);
  }

  /** The what-code counts for itself, and a Message without fields counts for nothing else. */
  lemma WhatReplaced(s: Sums, all: bool, m: Message, what: nat)
    ensures Congruent(Checksum(s, all, m.(what := what)) - Checksum(s, all, m), what - m.what)
    ensures Congruent(Checksum(s, all, Message(what, [])), what)
  {
    hide EntriesChecksum;
    DifferenceOfReduced(what + EntriesChecksum(s, all, m.entries), m.what + EntriesChecksum(s, all, m.entries));
    NoEntriesNoSum(s, all);
    Reduced(what);
  }

  lemma NoEntriesNoSum(s: Sums, all: bool)
    ensures EntriesChecksum(s, all, []) == 0
  {
  }

  lemma {:induction false} ChecksumWithout(s: Sums, all: bool, es: seq<Entry>, j: nat)
    requires j < |es|
    ensures EntriesChecksum(s, all, es) ==
      EntryTerm(s, all, es[j].name, es[j].field.tc, FieldChecksum(s, all, es[j].field))
      + EntriesChecksum(s, all, RemoveAt(es, j))
    decreases |es|
  {
    hide EntryTerm, FieldChecksum;
    if j == 0 {
      assert RemoveAt(es, 0) == es[1..];
    } else {
      ChecksumWithout(s, all, es[1..], j - 1);
      assert RemoveAt(es, j)[0] == es[0];
      assert RemoveAt(es, j)[1..] == RemoveAt(es[1..], j - 1);
    }
  }

  lemma {:induction false} MeaningWithout(v: View, es: seq<Entry>, j: nat)
    requires j < |es| && DistinctNames(es)
    ensures EntriesMeaning(v, RemoveAt(es, j)) == EntriesMeaning(v, es) - {es[j].name}
    decreases |es|
  {
    hide MeaningOfField, DistinctNames;
    FirstNameIsNew(v, es);
    var rest := es[1..];
    var m, name, f := EntriesMeaning(v, rest), es[0].name, MeaningOfField(v, es[0].field);
    if j == 0 {
      assert RemoveAt(es, 0) == rest;
      MapWithoutNew(m, name, f);
    } else {
      MeaningWithout(v, rest, j - 1);
      NamesDiffer(es, j);
      assert RemoveAt(es, j)[0] == es[0];
      assert RemoveAt(es, j)[1..] == RemoveAt(rest, j - 1);
      MapWithoutOther(m, name, f, es[j].name);
    }
  }

  lemma MapWithoutNew<K, V>(m: map<K, V>, k: K, v: V)
    requires k !in m
    ensures m[k := v] - {k} == m
  {
  }

  lemma MapWithoutOther<K, V>(m: map<K, V>, k: K, v: V, x: K)
    requires k != x
    ensures m[k := v] - {x} == (m - {x})[k := v]
  {
  }

  lemma NamesDiffer(es: seq<Entry>, j: nat)
    requires 0 < j < |es| && DistinctNames(es)
    ensures es[j].name != es[0].name
  {
  }

  predicate SettledEntries(es: seq<Entry>) {
    DistinctNames(es) && forall i :: 0 <= i < |es| ==> ValidEntry(es[i]) && SettledField(es[i].field)
  }

  lemma SettledWithout(es: seq<Entry>, j: nat)
    requires j < |es| && SettledEntries(es)
    ensures SettledEntries(RemoveAt(es, j))
  {
    hide ValidEntry, SettledField;
    var r := RemoveAt(es, j);
    assert forall k :: 0 <= k < |r| ==> r[k] == es[if k < j then k else k + 1];
  }

  lemma SettledKeys(v: View, es: seq<Entry>)
    requires SettledEntries(es)
    ensures DistinctNames(es) && |EntriesMeaning(v, es)| == |es|
    ensures |es| > 0 ==>
      es[0].name in EntriesMeaning(v, es)
      && EntriesMeaning(v, es)[es[0].name] == MeaningOfField(v, es[0].field)
    ensures |es| > 0 ==> ValidField(es[0].field) && SettledField(es[0].field)
  {
    hide SettledField, EntriesMeaning;
    MeaningKeys(v, es);
  }

  lemma SettledLookup(v: View, es: seq<Entry>, name: seq<Byte>) returns (j: nat)
    requires SettledEntries(es) && name in EntriesMeaning(v, es)
    ensures j < |es| && es[j].name == name && EntriesMeaning(v, es)[name] == MeaningOfField(v, es[j].field)
    ensures ValidField(es[j].field) && SettledField(es[j].field)
  {
    hide SettledField, EntriesMeaning;
    MeaningKeys(v, es);
    j := Lookup(es, name);
  }

  lemma FirstNameIsNew(v: View, es: seq<Entry>)
    requires |es| > 0 && DistinctNames(es)
    ensures DistinctNames(es[1..]) && es[0].name !in EntriesMeaning(v, es[1..])
  {
    hide EntriesMeaning;
    var rest := es[1..];
    assert forall k :: 0 <= k < |rest| ==> rest[k] == es[k + 1];
    MeaningKeys(v, rest);
  }

  /** The checksum is a function of the meaning, whatever the order of fields and however items are held. */
  lemma {:induction false} ChecksumOfMeaning(v: View, s: Sums, all: bool, a: Message, b: Message)
    requires Valid(a) && Valid(b) && Settled(a) && Settled(b) && MeaningOf(v, a) == MeaningOf(v, b)
    ensures Checksum(s, all, a) == Checksum(s, all, b)
    decreases a, 2
  {
    hide ValidEntry, SettledField;
    EntriesChecksumOfMeaning(v, s, all, a.entries, b.entries);
  }

  lemma {:induction false} EntriesChecksumOfMeaning(v: View, s: Sums, all: bool, es: seq<Entry>, hs: seq<Entry>)
    requires SettledEntries(es) && SettledEntries(hs) && EntriesMeaning(v, es) == EntriesMeaning(v, hs)
    ensures EntriesChecksum(s, all, es) == EntriesChecksum(s, all, hs)
    decreases es, 1
  {
    hide SettledEntries, SettledField, FieldChecksum, EntryTerm, EntriesMeaning, MeaningOfField, DistinctNames,
      ValidField;
    SettledKeys(v, es);
    SettledKeys(v, hs);
    if |es| > 0 {
      var e := es[0];
      var j := SettledLookup(v, hs, e.name);
      FieldChecksumOfMeaning(v, s, all, e.field, hs[j].field);
      ChecksumWithout(s, all, hs, j);
      MeaningWithout(v, hs, j);
      SettledWithout(hs, j);
      MeaningWithout(v, es, 0);
      SettledWithout(es, 0);
      assert RemoveAt(es, 0) == es[1..];
      EntriesChecksumOfMeaning(v, s, all, es[1..], RemoveAt(hs, j));
    }
  }

  lemma {:induction false} FieldChecksumOfMeaning(v: View, s: Sums, all: bool, f: Field, g: Field)
    requires ValidField(f) && ValidField(g) && SettledField(f) && SettledField(g)
    requires MeaningOfField(v, f) == MeaningOfField(v, g)
    ensures f.tc == g.tc && FieldChecksum(s, all, f) == FieldChecksum(s, all, g)
    decreases f
  {
    hide ItemChecksum, ValidItem, SettledItem, MeaningOfItem;
    OneWeighted(s, all, f);
    OneWeighted(s, all, g);
    match f.rep
    case Inline(x) =>
      match g.rep {
        case Inline(y) =>
          assert MeaningOfField(v, f).items[0] == MeaningOfField(v, g).items[0];
          ItemChecksumOfMeaning(v, s, all, f.tc, x, y);
        case Array(ys) =>
          assert MeaningOfItems(v, ys)[0] == MeaningOfItem(v, ys[0]);
          assert MeaningOfField(v, f).items[0] == MeaningOfItem(v, x);
          ItemChecksumOfMeaning(v, s, all, f.tc, x, ys[0]);
      }
    case Array(xs) =>
      match g.rep {
        case Inline(y) =>
          assert MeaningOfItems(v, xs)[0] == MeaningOfItem(v, xs[0]);
          assert MeaningOfField(v, g).items[0] == MeaningOfItem(v, y);
          ItemChecksumOfMeaning(v, s, all, f.tc, xs[0], y);
        case Array(ys) =>
          ItemsChecksumOfMeaning(v, s, all, f.tc, xs, ys, 1);
      }
  }

  /** An inline item and an array of one item have the same checksum. */
  lemma OneWeighted(s: Sums, all: bool, f: Field)
    ensures f.rep.Array? && |f.rep.items| == 1 ==>
      FieldChecksum(s, all, f) == FieldChecksum(s, all, Field(f.tc, Inline(f.rep.items[0])))
  {
    hide ItemChecksum;
    if f.rep.Array? && |f.rep.items| == 1 {
      assert WeightedSum(s, all, f.tc, f.rep.items[1..], 2) == 0;
    }
  }

  lemma {:induction false} ItemsChecksumOfMeaning(v: View, s: Sums, all: bool, tc: nat, xs: seq<Item>, ys: seq<Item>,
                                                  weight: nat)
    requires ValidItems(tc, xs) && ValidItems(tc, ys) && MeaningOfItems(v, xs) == MeaningOfItems(v, ys)
    requires forall i :: 0 <= i < |xs| ==> SettledItem(xs[i])
    requires forall i :: 0 <= i < |ys| ==> SettledItem(ys[i])
    ensures WeightedSum(s, all, tc, xs, weight) == WeightedSum(s, all, tc, ys, weight)
    decreases xs
  {
    hide ItemChecksum, ValidItem, SettledItem, MeaningOfItem;
    assert |MeaningOfItems(v, xs)| == |MeaningOfItems(v, ys)|;
    if |xs| > 0 {
      assert MeaningOfItems(v, xs)[0] == MeaningOfItem(v, xs[0]) && MeaningOfItems(v, ys)[0] == MeaningOfItem(v, ys[0]);
      assert MeaningOfItems(v, xs)[1..] == MeaningOfItems(v, xs[1..])
        && MeaningOfItems(v, ys)[1..] == MeaningOfItems(v, ys[1..]);
      ItemChecksumOfMeaning(v, s, all, tc, xs[0], ys[0]);
      ItemsChecksumOfMeaning(v, s, all, tc, xs[1..], ys[1..], weight + 1);
    }
  }

  lemma {:induction false} ItemChecksumOfMeaning(v: View, s: Sums, all: bool, tc: nat, x: Item, y: Item)
    requires ValidItem(tc, x) && ValidItem(tc, y) && SettledItem(x) && SettledItem(y)
    requires MeaningOfItem(v, x) == MeaningOfItem(v, y)
    ensures ItemChecksum(s, all, tc, x) == ItemChecksum(s, all, tc, y)
    decreases x
  {
    hide Valid, Settled, Checksum, MeaningOf;
    if x.Sub? { ChecksumOfMeaning(v, s, all, x.msg, y.msg); }
  }

  /** Equal Messages have equal checksums, through every nesting level and whatever their tags. */
  lemma EqualMessagesHaveEqualChecksums(fe: FloatEq, s: Sums, all: bool, a: Message, b: Message)
    requires Valid(a) && Valid(b) && Floatless(a) && Floatless(b) && Settled(a) && Settled(b) && Equal(fe, a, b)
    ensures Checksum(s, all, a) == Checksum(s, all, b)
  {
    hide Valid, Floatless, Settled, Equal, Checksum, MeaningOf;
    EqualIffSameMeaning(fe, Erased, iset{}, a, b);
    ChecksumOfMeaning(Erased, s, all, a, b);
  }

  // ---- what the codec preserves ----

  /** No tag or pointer fields at any depth. */
  predicate AllFlattenable(m: Message)
    decreases m
  {
    forall i :: 0 <= i < |m.entries| ==> FlattenableField(m.entries[i].field)
  }

  predicate FlattenableField(f: Field)
    decreases f
  {
    IsFlattenable(f.tc)
    && match f.rep
       case Empty => true
       case Inline(item) => FlattenableItem(item)
       case Array(items) => forall i :: 0 <= i < |items| ==> FlattenableItem(items[i])
  }

  predicate FlattenableItem(item: Item)
    decreases item
  {
    item.Sub? ==> AllFlattenable(item.msg)
  }

  lemma {:induction false} NormalKeepsMeaning(v: View, m: Message)
    requires AllFlattenable(m)
    ensures MeaningOf(v, Normal(m)) == MeaningOf(v, m)
    decreases m, 2
  {
    NormalEntriesKeepMeaning(v, m.entries);
  }

  lemma {:induction false} NormalEntriesKeepMeaning(v: View, es: seq<Entry>)
    requires forall i :: 0 <= i < |es| ==> FlattenableField(es[i].field)
    ensures EntriesMeaning(v, NormalEntries(es)) == EntriesMeaning(v, es)
    decreases es, 1
  {
    hide MeaningOfField, NormalField;
    if |es| > 0 {
      NormalFieldKeepsMeaning(v, es[0].field);
      NormalEntriesKeepMeaning(v, es[1..]);
      assert NormalEntries(es)[1..] == NormalEntries(es[1..]);
    }
  }

  lemma {:induction false} NormalFieldKeepsMeaning(v: View, f: Field)
    requires FlattenableField(f)
    ensures MeaningOfField(v, NormalField(f)) == MeaningOfField(v, f)
    decreases f
  {
    hide MeaningOfItem, NormalItem;
    match f.rep
    case Empty =>
    case Inline(item) => NormalItemKeepsMeaning(v, item);
    case Array(items) =>
      NormalItemsKeepMeaning(v, items);
      var n := NormalItems(items);
      if |n| == 1 { assert MeaningOfItems(v, n) == [MeaningOfItem(v, n[0])] + MeaningOfItems(v, n[1..]); }
  }

  lemma {:induction false} NormalItemsKeepMeaning(v: View, items: seq<Item>)
    requires forall i :: 0 <= i < |items| ==> FlattenableItem(items[i])
    ensures MeaningOfItems(v, NormalItems(items)) == MeaningOfItems(v, items)
    decreases items
  {
    hide MeaningOfItem, NormalItem;
    if |items| > 0 {
      NormalItemKeepsMeaning(v, items[0]);
      NormalItemsKeepMeaning(v, items[1..]);
      assert NormalItems(items)[1..] == NormalItems(items[1..]);
    }
  }

  lemma {:induction false} NormalItemKeepsMeaning(v: View, item: Item)
    requires FlattenableItem(item)
    ensures MeaningOfItem(v, NormalItem(item)) == MeaningOfItem(v, item)
    decreases item
  {
    hide MeaningOf, Normal;
    if item.Sub? { NormalKeepsMeaning(v, item.msg); }
  }

  /** What comes back from the wire has the same names, types and values as what was sent. */
  lemma RoundTripKeepsMeaning(v: View, m: Message)
    requires Valid(m) && AllFlattenable(m) && FlattenedSize(m) < NO_LIMIT
    ensures var r := Unflatten(Flatten(m));
      (r.Ok? <==> Seekable(m)) && (r.Ok? ==> MeaningOf(v, r.value.value) == MeaningOf(v, m))
  {
    hide MeaningOf, Unflatten, Flatten, Valid, AllFlattenable, Normal, Seekable;
    RoundTrip(m);
    NormalKeepsMeaning(v, m);
  }
}
