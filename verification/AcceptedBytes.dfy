/** What Message::Unflatten() and TemplatedUnflatten() make of bytes that nobody vouches for. */
module AcceptedBytes {
  import opened Bytes
  import opened Messages
  import opened Unflattening
  import opened MessageEquality
  import opened Templates
  import opened TemplatedCodec

  /** A Message that Flatten() can take, with nothing in it that would not go on the wire. */
  predicate Sound(m: Message) {
    Valid(m) && AllFlattenable(m)
  }

  predicate SoundField(f: Field) {
    ValidField(f) && FlattenableField(f)
  }

  predicate SoundItem(tc: nat, item: Item) {
    ValidItem(tc, item) && FlattenableItem(item)
  }

  predicate SoundEntries(es: seq<Entry>) {
    DistinctNames(es) && forall i :: 0 <= i < |es| ==> NoNul(es[i].name) && SoundField(es[i].field)
  }

  lemma {:induction false} WordFits(s: Buffer, k: nat)
    requires |s| == k
    ensures FromLE(s) < Pow256(k)
    decreases k
  {
    if k > 0 { WordFits(s[1..], k - 1); }
  }

  lemma ReadFits(s: Buffer)
    requires |s| >= 4
    ensures R32(s) < TWO32
  {
    WordFits(s[..4], 4);
    assert Pow256(4) == TWO32;
  }

  /** Whatever the bytes are: if they are accepted, they begin with the protocol revision, and the result is a Message
      as the rest of the program expects it, with distinct names, values that fit their types and no tag or pointer, at
      every depth. */
  lemma {:induction false} AcceptedIsSound(buf: Buffer)
    ensures Unflatten(buf).Ok? ==>
      |buf| >= 12 && buf[..4] == [0x30, 0x30, 0x4D, 0x50] && Sound(Unflatten(buf).value.value)
    decreases |buf|, 5
  {
    hide R32, UnflattenEntries, SoundField;
    if Unflatten(buf).Ok? {
      var s8 := buf[4..][4..];
      ReadFits(buf[4..]);
      VersionIs(buf);
      NothingIsSound();
      EntriesAreSound(s8[4..], R32(s8), []);
      SoundEntriesMake(Unflatten(buf).value.value);
    }
  }

  lemma VersionIs(buf: Buffer)
    requires |buf| >= 4 && R32(buf) == PROTOCOL_VERSION
    ensures buf[..4] == [0x30, 0x30, 0x4D, 0x50]
  {
    var a, b, c, d := buf[0], buf[1], buf[2], buf[3];
    var s := buf[..4];
    assert s[1..] == [b, c, d] && [b, c, d][1..] == [c, d] && [c, d][1..] == [d] && FromLE([d][1..]) == 0;
    assert FromLE([d]) == d;
    assert FromLE([c, d]) == c + 256 * FromLE([d]);
    assert FromLE([b, c, d]) == b + 256 * FromLE([c, d]);
    assert FromLE(s) == a + 256 * FromLE([b, c, d]);
  }

  lemma NothingIsSound()
    ensures SoundEntries([])
  {
  }

  lemma SoundEntriesMake(m: Message)
    requires m.what < TWO32 && SoundEntries(m.entries)
    ensures Sound(m)
  {
    hide ValidField, FlattenableField;
    forall i | 0 <= i < |m.entries| ensures ValidEntry(m.entries[i]) && FlattenableField(m.entries[i].field) {
      assert SoundField(m.entries[i].field);
    }
  }

  lemma {:induction false} EntriesAreSound(buf: Buffer, n: nat, acc: seq<Entry>)
    requires SoundEntries(acc)
    ensures UnflattenEntries(buf, n, acc).Ok? ==> SoundEntries(UnflattenEntries(buf, n, acc).value.value)
    decreases |buf|, 4
  {
    hide UnflattenEntry, SoundEntries;
    if n > 0 && UnflattenEntry(buf, acc).Ok? {
      var p := UnflattenEntry(buf, acc).value;
      EntryIsSound(buf, acc);
      EntriesAreSound(buf[p.used..], n - 1, p.value);
    }
  }

  lemma {:induction false} EntryIsSound(buf: Buffer, acc: seq<Entry>)
    requires SoundEntries(acc)
    ensures UnflattenEntry(buf, acc).Ok? ==> SoundEntries(UnflattenEntry(buf, acc).value.value)
    decreases |buf|, 3
  {
    hide R32, UnflattenField, SoundEntries, GetOrCreateField, PutField, CString;
    if UnflattenEntry(buf, acc).Ok? {
      var nameLen := R32(buf);
      var s1 := buf[4..];
      var name, s2 := CString(s1[..nameLen]), s1[nameLen..];
      var s3 := s2[4..];
      var body := s3[4..];
      ReadFits(s2);
      var slot := GetOrCreateField(acc, name, R32(s2)).value;
      SlotFits(acc, name, R32(s2));
      var fb := if R32(s3) <= |body| then body[..R32(s3)] else body;
      FieldIsSound(slot.tc, fb);
      PutIsSound(acc, name, R32(s2), UnflattenField(slot.tc, fb).value.value);
    }
  }

  lemma SlotFits(acc: seq<Entry>, name: Buffer, tc: nat)
    requires SoundEntries(acc) && tc < TWO32 && GetOrCreateField(acc, name, tc).Ok?
    ensures GetOrCreateField(acc, name, tc).value.tc < TWO32
  {
    hide FlattenableField;
  }

  /** An entry is appended under a new name, or replaces the one that has its name. */
  lemma PutIsSound(acc: seq<Entry>, name: Buffer, tc: nat, f: Field)
    requires SoundEntries(acc) && NoNul(name) && SoundField(f) && GetOrCreateField(acc, name, tc).Ok?
    ensures SoundEntries(PutField(acc, GetOrCreateField(acc, name, tc).value.index, Entry(name, f)))
  {
    hide SoundField, NoNul;
  }

  lemma {:induction false} FieldIsSound(tc: nat, buf: Buffer)
    requires tc < TWO32
    ensures UnflattenField(tc, buf).Ok? ==> SoundField(UnflattenField(tc, buf).value.value)
    decreases |buf|, 2
  {
    hide NumItemsInBuffer, SingleUnflatten, ArrayUnflatten, ValidItem, FlattenableItem, SoundField;
    if NumItemsInBuffer(tc, buf) == 1 {
      SingleIsSound(tc, buf);
      if SingleUnflatten(tc, buf).Ok? { SoundItemMakes(tc, SingleUnflatten(tc, buf).value.value); }
    } else {
      ArrayIsSound(tc, buf);
      if ArrayUnflatten(tc, buf).Ok? { SoundArrayMakes(tc, ArrayUnflatten(tc, buf).value.value); }
    }
  }

  lemma SoundItemMakes(tc: nat, item: Item)
    requires tc < TWO32 && IsFlattenable(tc) && SoundItem(tc, item)
    ensures SoundField(Field(tc, Inline(item)))
  {
  }

  lemma SoundArrayMakes(tc: nat, items: seq<Item>)
    requires tc < TWO32 && IsFlattenable(tc) && forall x <- items :: SoundItem(tc, x)
    ensures SoundField(Field(tc, Array(items)))
  {
    hide ValidItem, FlattenableItem;
    forall i | 0 <= i < |items| ensures ValidItem(tc, items[i]) && FlattenableItem(items[i]) {
      assert SoundItem(tc, items[i]);
    }
    var f := Field(tc, Array(items));
    assert ValidItems(tc, items);
    assert ValidField(f);
    assert FlattenableField(f);
  }

  lemma {:induction false} SingleIsSound(tc: nat, buf: Buffer)
    requires NumItemsInBuffer(tc, buf) == 1
    ensures SingleUnflatten(tc, buf).Ok? ==> IsFlattenable(tc) && SoundItem(tc, SingleUnflatten(tc, buf).value.value)
    decreases |buf|, 1
  {
    hide R32, Unflatten, CString, Valid, AllFlattenable, NoNul;
    if SingleUnflatten(tc, buf).Ok? && FixedSize(tc) == 0 && tc == B_MESSAGE_TYPE { AcceptedIsSound(buf[4..]); }
  }

  lemma {:induction false} ArrayIsSound(tc: nat, buf: Buffer)
    ensures ArrayUnflatten(tc, buf).Ok? ==>
      IsFlattenable(tc) && forall x <- ArrayUnflatten(tc, buf).value.value :: SoundItem(tc, x)
    decreases |buf|, 1
  {
    hide R32, UnflattenPods, UnflattenSubs, UnflattenPrefixed, SoundItem;
    if ArrayUnflatten(tc, buf).Ok? {
      if FixedSize(tc) > 0 {
        PodsAreSound(tc, buf);
      } else if tc == B_MESSAGE_TYPE {
        SubsAreSound(buf);
      } else {
        PrefixedAreSound(tc, buf[4..], R32(buf));
      }
    }
  }

  lemma {:induction false} PodsAreSound(tc: nat, buf: Buffer)
    requires FixedSize(tc) > 0 && IsFlattenable(tc)
    ensures forall x <- UnflattenPods(tc, buf) :: SoundItem(tc, x)
    decreases |buf|
  {
    if |buf| >= FixedSize(tc) { PodsAreSound(tc, buf[FixedSize(tc)..]); }
  }

  lemma {:induction false} PrefixedAreSound(tc: nat, buf: Buffer, n: nat)
    requires FixedSize(tc) == 0 && IsFlattenable(tc) && tc != B_MESSAGE_TYPE
    ensures UnflattenPrefixed(tc, buf, n).Ok? ==>
      forall x <- UnflattenPrefixed(tc, buf, n).value.value :: SoundItem(tc, x)
    decreases |buf|
  {
    hide R32, CString, NoNul;
    if UnflattenPrefixed(tc, buf, n).Ok? && n > 0 { PrefixedAreSound(tc, buf[4 + R32(buf)..], n - 1); }
  }

  lemma {:induction false} SubsAreSound(buf: Buffer)
    ensures UnflattenSubs(buf).Ok? ==> forall x <- UnflattenSubs(buf).value.value :: SoundItem(B_MESSAGE_TYPE, x)
    decreases |buf|, 0
  {
    hide R32, Unflatten, Valid, AllFlattenable;
    if UnflattenSubs(buf).Ok? && |buf| > 0 {
      var sub := buf[4..4 + R32(buf)];
      AcceptedIsSound(sub);
      SubsAreSound(buf[4 + Unflatten(sub).value.used..]);
    }
  }

  // ---- irregular entries ----

  /** Where the parts of the last entry lie, whatever length it announces. */
  lemma LastEntryParts(name: Buffer, tc: nat, size: nat, body: Buffer)
    requires NoNul(name) && |name| + 1 < TWO32 && tc < TWO32 && size < TWO32
    ensures var s := EntryBytes(name, tc, size, body, []);
      && |s| == 13 + |name| + |body| && R32(s) == |name| + 1
      && CString(s[4..][..|name| + 1]) == name
      && R32(s[4..][|name| + 1..]) == tc
      && R32(s[4..][|name| + 1..][4..]) == size
      && s[4..][|name| + 1..][4..][4..] == body
  {
    hide W32, R32, CString, NoNul;
    assert body + [] == body;
    var t3 := W32(size) + body;
    var t2 := W32(tc) + t3;
    R32W32(|name| + 1, (name + [0]) + t2);
    SplitAt(name + [0], t2);
    CStringOfText(name);
    R32W32(tc, t3);
    R32W32(size, body);
  }

  /** The bytes of a Message whose entry count and entries are as given. */
  function Raw(what: nat, n: nat, entries: Buffer): Buffer {
    W32(PROTOCOL_VERSION) + (W32(what) + (W32(n) + entries))
  }

  lemma RawUnflattens(what: nat, n: nat, entries: Buffer)
    requires what < TWO32 && n < TWO32 && n <= |entries| / 12
    ensures Unflatten(Raw(what, n, entries)) ==
      match UnflattenEntries(entries, n, [])
      case Err => Err
      case Ok(p) => Ok(Parsed(Message(what, p.value), 12 + p.used))
  {
    hide W32, R32, UnflattenEntries;
    R32W32(PROTOCOL_VERSION, W32(what) + (W32(n) + entries));
    R32W32(what, W32(n) + entries);
    R32W32(n, entries);
  }

  /** One more entry under a name that is taken. */
  lemma TakenName(name: Buffer, first: Field, tc: nat, fb: Buffer)
    requires NoNul(name) && |name| + 1 < TWO32 && tc < TWO32 && |fb| < TWO32 && tc != 0x414E5954
    requires UnflattenField(tc, fb).Ok? && UnflattenField(tc, fb).value.used == |fb|
    ensures var r := UnflattenEntries(EntryBytes(name, tc, |fb|, fb, []), 1, [Entry(name, first)]);
      if tc == first.tc then
        r == Ok(Parsed([Entry(name, UnflattenField(tc, fb).value.value)], 13 + |name| + |fb|))
      else r == Err
  {
    hide R32, UnflattenField, CString, NoNul, EntryBytes;
    LastEntryParts(name, tc, |fb|, fb);
    var s, acc := EntryBytes(name, tc, |fb|, fb, []), [Entry(name, first)];
    assert Lookup(acc, name) == 0;
    assert fb[..|fb|] == fb;
    assert s[4..][|name| + 1..][4..][4..] == fb;
    if tc == first.tc {
      var e := Entry(name, UnflattenField(tc, fb).value.value);
      assert PutField(acc, 0, e) == [e];
      assert UnflattenEntry(s, acc) == Ok(Parsed([e], 13 + |name| + |fb|));
      assert UnflattenEntries(s[13 + |name| + |fb|..], 0, [e]) == Ok(Parsed([e], 0));
    } else {
      assert UnflattenEntry(s, acc) == Err;
    }
  }

  /** A name that occurs twice: the second field replaces the first one if it has the same type, and is an error if
      not. */
  lemma RepeatedName(what: nat, name: Buffer, f: Field, g: Field)
    requires what < TWO32 && NoNul(name) && |name| + 1 < TWO32 && g.tc != 0x414E5954
    requires ValidField(f) && IsFlattenable(f.tc) && SeekableField(f) && FieldSize(f) < NO_LIMIT
    requires ValidField(g) && IsFlattenable(g.tc) && SeekableField(g) && FieldSize(g) < NO_LIMIT
    ensures var second := EntryBytes(name, g.tc, FieldSize(g), FieldBytes(g), []);
      var r := Unflatten(Raw(what, 2, EntryBytes(name, f.tc, FieldSize(f), FieldBytes(f), second)));
      if f.tc == g.tc then r.Ok? && r.value.value == Message(what, [Entry(name, NormalField(g))]) else r == Err
  {
    hide EntryBytes, FieldBytes, FieldSize, UnflattenField, UnflattenEntries, SeekableField, ValidField, NormalField,
      NoNul, Raw;
    NormalKeepsType(f);
    NormalKeepsType(g);
    FieldRoundTrip(f);
    FieldRoundTrip(g);
    FieldFillsSize(f);
    FieldFillsSize(g);
    var fb, gb := FieldBytes(f), FieldBytes(g);
    var second := EntryBytes(name, g.tc, |gb|, gb, []);
    var both := EntryBytes(name, f.tc, |fb|, fb, second);
    EntrySuffix(name, g.tc, gb, []);
    EntrySuffix(name, f.tc, fb, second);
    RawUnflattens(what, 2, both);
    EntriesCons(name, f.tc, fb, second, 1, []);
    var first := NormalField(f);
    assert [] + [Entry(name, first)] == [Entry(name, first)];
    TakenName(name, first, g.tc, gb);
  }

  lemma NormalKeepsType(f: Field)
    ensures NormalField(f).tc == f.tc && (ValidField(f) ==> f.tc < TWO32)
  {
  }

  /** The announced length of a field is an upper bound only: a Message whose last field has lost some of its fixed-size
      values at the end is accepted with those that are left. */
  lemma TruncationIsAccepted(what: nat, name: Buffer, tc: nat, xs: seq<Item>, size: nat)
    requires what < TWO32 && NoNul(name) && |name| + 1 < TWO32 && tc < TWO32
    requires FixedSize(tc) > 0 && IsFlattenable(tc) && ValidItems(tc, xs) && ArraySize(tc, xs) <= size < NO_LIMIT
    ensures var f := Field(tc, Array(xs));
      var r := Unflatten(Raw(what, 1, EntryBytes(name, tc, size, FieldBytes(f), [])));
      r.Ok? && r.value.value == Message(what, [Entry(name, NormalField(f))])
  {
    hide UnflattenField, NoNul, EntryBytes, FieldBytes, NormalField, Raw, ValidItems, FieldSize;
    var f := Field(tc, Array(xs));
    ArrayFieldFacts(tc, xs);
    FieldRoundTrip(f);
    FieldFillsSize(f);
    var fb := FieldBytes(f);
    LastEntryParts(name, tc, size, fb);
    RawUnflattens(what, 1, EntryBytes(name, tc, size, fb, []));
    ShortEntry(name, tc, size, fb);
  }

  lemma ArrayFieldFacts(tc: nat, xs: seq<Item>)
    requires FixedSize(tc) > 0 && IsFlattenable(tc) && ValidItems(tc, xs) && tc < TWO32
    ensures var f := Field(tc, Array(xs)); ValidField(f) && SeekableField(f) && FieldSize(f) == ArraySize(tc, xs)
  {
    hide ValidItems;
    FixedIsSeekable(tc, xs);
  }

  /** The last entry, with no more data than it announces. */
  lemma ShortEntry(name: Buffer, tc: nat, size: nat, fb: Buffer)
    requires NoNul(name) && |name| + 1 < TWO32 && tc < TWO32 && |fb| <= size < TWO32
    requires UnflattenField(tc, fb).Ok? && UnflattenField(tc, fb).value.used == |fb|
    ensures UnflattenEntries(EntryBytes(name, tc, size, fb, []), 1, []) ==
      Ok(Parsed([Entry(name, UnflattenField(tc, fb).value.value)], 13 + |name| + |fb|))
  {
    hide R32, UnflattenField, CString, NoNul, EntryBytes, GetOrCreateField, PutField;
    LastEntryParts(name, tc, size, fb);
    var s, f := EntryBytes(name, tc, size, fb, []), UnflattenField(tc, fb).value.value;
    NewName([], name, tc, f);
    var e := Entry(name, f);
    assert s[4..][|name| + 1..][4..][4..] == fb && (if size <= |fb| then fb[..size] else fb) == fb;
    assert [] + [e] == [e];
    assert UnflattenEntry(s, []) == Ok(Parsed([e], 13 + |name| + |fb|));
    assert UnflattenEntries(s[13 + |name| + |fb|..], 0, [e]) == Ok(Parsed([e], 0));
  }

  lemma {:induction false} FixedIsSeekable(tc: nat, xs: seq<Item>)
    requires FixedSize(tc) > 0 && IsFlattenable(tc) && ValidItems(tc, xs)
    ensures SeekableItems(tc, xs) && SeekableField(Field(tc, Array(xs)))
    decreases |xs|
  {
    if |xs| > 0 { FixedIsSeekable(tc, xs[1..]); }
  }

  // ---- untrusted payloads ----

  /** Whatever bytes are accepted as a payload, the result has the layout of the template. */
  lemma {:induction false} PayloadKeepsLayout(t: Message, buf: Buffer)
    requires Valid(t)
    ensures TemplatedUnflatten(t, buf).Ok? ==> LayoutOf(TemplatedUnflatten(t, buf).value) == LayoutOf(t)
    decreases t
  {
    hide R32, ValidEntry, LayoutEntries, TemplatedUnflattenEntries;
    if |buf| >= 4 { EntriesKeepLayout(t.entries, buf[4..]); }
  }

  lemma {:induction false} EntriesKeepLayout(ts: seq<Entry>, buf: Buffer)
    requires forall i :: 0 <= i < |ts| ==> ValidEntry(ts[i])
    ensures TemplatedUnflattenEntries(ts, buf).Ok? ==>
      LayoutEntries(TemplatedUnflattenEntries(ts, buf).value) == LayoutEntries(ts)
    decreases ts
  {
    hide TemplatedUnflattenField, LayoutOfField, ValidField;
    if TemplatedUnflattenEntries(ts, buf).Ok? && |ts| > 0 {
      if IsFlattenable(ts[0].field.tc) {
        assert ValidEntry(ts[0]);
        var p := TemplatedUnflattenField(ts[0].field, buf).value;
        FieldKeepsLayout(ts[0].name, ts[0].field, buf);
        EntriesKeepLayout(ts[1..], buf[p.used..]);
        var es := TemplatedUnflattenEntries(ts[1..], buf[p.used..]).value;
        var all := [Entry(ts[0].name, p.value)] + es;
        assert all[1..] == es;
        LayoutHasType(ts[0].name, p.value);
        LayoutHasType(ts[0].name, ts[0].field);
      } else {
        EntriesKeepLayout(ts[1..], buf);
      }
    }
  }

  lemma LayoutHasType(name: Buffer, f: Field)
    ensures LayoutOfField(name, f).tc == f.tc
  {
  }

  lemma {:induction false} FieldKeepsLayout(name: Buffer, tf: Field, buf: Buffer)
    requires ValidField(tf) && IsFlattenable(tf.tc)
    ensures TemplatedUnflattenField(tf, buf).Ok? ==>
      LayoutOfField(name, TemplatedUnflattenField(tf, buf).value.value) == LayoutOfField(name, tf)
    decreases tf
  {
    hide R32, UnflattenField, WalkItems, TemplatedUnflattenItem, TemplatedUnflattenItems, ValidItem, LayoutOfItem,
      LayoutItems;
    var r := TemplatedUnflattenField(tf, buf);
    if r.Ok? {
      var n := |Items(tf.rep)|;
      if FixedSize(tf.tc) > 0 {
        FixedFieldCount(tf);
        FixedCount(tf.tc, buf[..FieldSize(tf)], n);
        CountIsLayout(name, tf, r.value.value);
      } else if tf.tc == B_MESSAGE_TYPE {
        match tf.rep
        case Inline(t) =>
          ItemKeepsLayout(t, buf[4..]);
        case Array(ts) =>
          ItemsKeepLayout(ts, buf[4..]);
          OneSubLayout(TemplatedUnflattenItems(ts, buf[4..]).value.value);
          OneSubLayout(ts);
      } else {
        var k := WalkItems(buf[4..], R32(buf)).value;
        ClippedCount(buf, 4 + k);
        CountedCount(tf.tc, buf[..4 + k]);
        CountIsLayout(name, tf, r.value.value);
      }
    }
  }

  lemma OneSubLayout(items: seq<Item>)
    ensures |items| == 1 ==> LayoutItems(items) == [LayoutOfItem(items[0])]
    ensures |items| == 0 ==> LayoutItems(items) == []
  {
    hide LayoutOfItem;
    if |items| == 1 { assert LayoutItems(items) == [LayoutOfItem(items[0])] + LayoutItems(items[1..]); }
  }

  lemma FixedFieldCount(tf: Field)
    requires ValidField(tf) && IsFlattenable(tf.tc) && FixedSize(tf.tc) > 0
    ensures FieldSize(tf) == |Items(tf.rep)| * FixedSize(tf.tc)
  {
    hide ValidItem;
  }

  lemma CountIsLayout(name: Buffer, f: Field, g: Field)
    requires f.tc == g.tc != B_MESSAGE_TYPE && |Items(f.rep)| == |Items(g.rep)|
    ensures LayoutOfField(name, f) == LayoutOfField(name, g)
  {
  }

  lemma ClippedCount(buf: Buffer, k: nat)
    requires 4 <= k <= |buf|
    ensures R32(buf[..k]) == R32(buf)
  {
    assert buf[..k][..4] == buf[..4];
  }

  lemma FixedCount(tc: nat, buf: Buffer, n: nat)
    requires FixedSize(tc) > 0 && |buf| == n * FixedSize(tc)
    ensures UnflattenField(tc, buf).Ok? ==> |Items(UnflattenField(tc, buf).value.value.rep)| == n
  {
    hide R32, UnflattenPods;
    PodCount(tc, buf, n);
    DividesExactly(n, FixedSize(tc));
  }

  lemma DividesExactly(n: nat, size: nat)
    requires size in {1, 2, 4, 8, 16}
    ensures n * size / size == n
  {
  }

  lemma {:induction false} PodCount(tc: nat, buf: Buffer, n: nat)
    requires FixedSize(tc) > 0 && |buf| == n * FixedSize(tc)
    ensures |UnflattenPods(tc, buf)| == n
    decreases n
  {
    if n > 0 { PodCount(tc, buf[FixedSize(tc)..], n - 1); }
  }

  lemma CountedCount(tc: nat, buf: Buffer)
    requires FixedSize(tc) == 0 && tc != B_MESSAGE_TYPE && |buf| >= 4
    ensures UnflattenField(tc, buf).Ok? ==> |Items(UnflattenField(tc, buf).value.value.rep)| == R32(buf)
  {
    hide R32, UnflattenPrefixed;
    PrefixedCount(tc, buf[4..], R32(buf));
  }

  lemma {:induction false} PrefixedCount(tc: nat, buf: Buffer, n: nat)
    ensures UnflattenPrefixed(tc, buf, n).Ok? ==> |UnflattenPrefixed(tc, buf, n).value.value| == n
    decreases |buf|
  {
    hide R32;
    if UnflattenPrefixed(tc, buf, n).Ok? && n > 0 { PrefixedCount(tc, buf[4 + R32(buf)..], n - 1); }
  }

  lemma {:induction false} ItemsKeepLayout(ts: seq<Item>, buf: Buffer)
    requires ValidItems(B_MESSAGE_TYPE, ts)
    ensures TemplatedUnflattenItems(ts, buf).Ok? ==>
      LayoutItems(TemplatedUnflattenItems(ts, buf).value.value) == LayoutItems(ts)
    decreases ts
  {
    hide TemplatedUnflattenItem, LayoutOfItem, ValidItem;
    if TemplatedUnflattenItems(ts, buf).Ok? && |ts| > 0 {
      assert ValidItem(B_MESSAGE_TYPE, ts[0]);
      var p := TemplatedUnflattenItem(ts[0], buf).value;
      ItemKeepsLayout(ts[0], buf);
      ItemsKeepLayout(ts[1..], buf[p.used..]);
      var q := TemplatedUnflattenItems(ts[1..], buf[p.used..]).value;
      assert ([p.value] + q.value)[1..] == q.value;
    }
  }

  lemma {:induction false} ItemKeepsLayout(t: Item, buf: Buffer)
    requires ValidItem(B_MESSAGE_TYPE, t)
    ensures TemplatedUnflattenItem(t, buf).Ok? ==>
      LayoutOfItem(TemplatedUnflattenItem(t, buf).value.value) == LayoutOfItem(t)
    decreases t
  {
    hide R32, TemplatedUnflatten, LayoutOf, Valid;
    if TemplatedUnflattenItem(t, buf).Ok? { PayloadKeepsLayout(t.msg, buf[4..][..R32(buf)]); }
  }
}
