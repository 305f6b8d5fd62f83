/** The wire format of a Message, byte by byte: an independent account of what Flatten() writes. */
module WireImage {
  import opened Bytes
  import opened Messages
  import opened Unflattening

  /** Protocol revision 'PM00', the what-code and the number of entries. */
  function Header(what: nat, n: nat): Buffer {
    [0x30, 0x30, 0x4D, 0x50] + Word(what) + Word(n)
  }

  /** Length of the name with its terminator, name, type, length of the data, data. */
  function EntryImage(name: Buffer, tc: nat, data: Buffer): Buffer {
    Word(|name| + 1) + name + [0] + Word(tc) + Word(|data|) + data
  }

  /** Items behind their lengths. */
  function Counted(items: seq<Buffer>): Buffer {
    if |items| == 0 then [] else Word(|items[0]|) + items[0] + Counted(items[1..])
  }

  /** 'BOOL', 'BYTE', 'SHRT', 'LONG', 'FLOT', 'LLNG', 'DBLE', 'BPNT' and 'RECT', with the sizes of their values. */
  const FIXED_TYPES: map<nat, nat> := map[
    0x424F4F4C := 1, 0x42595445 := 1, 0x53485254 := 2, 0x4C4F4E47 := 4, 0x464C4F54 := 4,
    0x4C4C4E47 := 8, 0x44424C45 := 8, 0x42504E54 := 8, 0x52454354 := 16]

  const STRING_TYPE: nat := 0x43535452
  const MESSAGE_TYPE: nat := 0x4D534747
  const UNFLATTENABLE_TYPES: set<nat> := {0x4D544147, 0x504E5452}

  lemma TypeCodes(tc: nat)
    ensures FixedSize(tc) > 0 && IsFlattenable(tc) <==> tc in FIXED_TYPES
    ensures tc in FIXED_TYPES ==> FixedSize(tc) == FIXED_TYPES[tc]
    ensures IsFlattenable(tc) <==> tc !in UNFLATTENABLE_TYPES
    ensures B_STRING_TYPE == STRING_TYPE && B_MESSAGE_TYPE == MESSAGE_TYPE
  {
  }

  // ---- one field ----

  /** A Message with one field. */
  function One(what: nat, name: Buffer, f: Field): Message {
    Message(what, [Entry(name, f)])
  }

  lemma OneFieldImage(what: nat, name: Buffer, f: Field)
    requires ValidField(f) && f.tc !in UNFLATTENABLE_TYPES
    ensures Flatten(One(what, name, f)) == Header(what, 1) + EntryImage(name, f.tc, FieldBytes(f))
  {
    hide W32, FieldBytes, FieldSize, Word, ValidField;
    var m := One(what, name, f);
    TypeCodes(f.tc);
    FieldFillsSize(f);
    assert m.entries[1..] == [] && EntriesBytes([]) == [];
    var data := FieldBytes(f);
    assert EntriesBytes(m.entries) == EntryBytes(name, f.tc, |data|, data, []);
    assert NumFlattenable(m.entries) == 1 + NumFlattenable([]);
    WordIs(what);
    WordIs(1);
    WordIs(|name| + 1);
    WordIs(f.tc);
    WordIs(|data|);
    VersionBytes();
    assert data + [] == data;
  }

  lemma VersionBytes()
    ensures W32(PROTOCOL_VERSION) == [0x30, 0x30, 0x4D, 0x50]
  {
    WordIs(PROTOCOL_VERSION);
  }

  /** Values of a fixed-size type follow each other without any count. */
  lemma FixedFieldImage(what: nat, name: Buffer, f: Field, images: seq<Buffer>)
    requires ValidField(f) && f.tc in FIXED_TYPES && Items(f.rep) == Pods(images)
    ensures forall x <- images :: |x| == FIXED_TYPES[f.tc]
    ensures Flatten(One(what, name, f)) == Header(what, 1) + EntryImage(name, f.tc, Concat(images))
  {
    hide EntryImage, Header, Flatten;
    TypeCodes(f.tc);
    OneFieldImage(what, name, f);
    PlainImages(images);
    forall i | 0 <= i < |images| ensures |images[i]| == FIXED_TYPES[f.tc] {
      var item := Items(f.rep)[i];
      assert item == Pods(images)[i] == Pod(images[i]);
      assert ValidItem(f.tc, item);
    }
    if f.rep.Inline? {
      var x := images[0];
      assert Items(f.rep)[0] == Pods(images)[0] == Pod(x);
      assert images == [x] && images[1..] == [];
      assert Concat(images) == x + Concat([]) == x;
      assert FieldBytes(f) == x;
    } else {
      assert f.rep == Array(Pods(images));
    }
  }

  function Pods(images: seq<Buffer>): seq<Item> {
    seq(|images|, i requires 0 <= i < |images| => Pod(images[i]))
  }

  lemma {:induction false} PlainImages(images: seq<Buffer>)
    ensures PlainBytes(Pods(images)) == Concat(images)
  {
    if |images| > 0 {
      assert Pods(images)[1..] == Pods(images[1..]);
      PlainImages(images[1..]);
    }
  }

  /** Strings, terminated, and ByteBuffers of any other type lie behind their lengths, and all of them behind their
      number; sub-Messages lie behind their lengths only. */
  lemma CountedFieldImage(what: nat, name: Buffer, f: Field, images: seq<Buffer>)
    requires ValidField(f) && f.tc !in FIXED_TYPES && f.tc !in UNFLATTENABLE_TYPES
    requires |images| == |Items(f.rep)|
    requires forall i :: 0 <= i < |images| ==> HasImage(f.tc, Items(f.rep)[i], images[i])
    ensures Flatten(One(what, name, f)) ==
      Header(what, 1)
      + EntryImage(name, f.tc, (if f.tc == MESSAGE_TYPE then [] else Word(|images|)) + Counted(images))
  {
    hide EntryImage, Header, Flatten, Word, HasImage, ValidItem;
    TypeCodes(f.tc);
    OneFieldImage(what, name, f);
    PrefixedImages(f.tc, Items(f.rep), images);
    WordIs(|images|);
    if f.rep.Inline? {
      var x := f.rep.item;
      assert [x][1..] == [] && PrefixedBytes([x]) == W32(ItemSize(x)) + (ItemBytes(x) + []);
      assert ItemBytes(x) + [] == ItemBytes(x);
    }
    assert [] + Counted(images) == Counted(images);
  }

  predicate HasImage(tc: nat, item: Item, image: Buffer) {
    match item
    case Text(chars) => tc == STRING_TYPE && image == chars + [0]
    case Sub(msg) => tc == MESSAGE_TYPE && image == Flatten(msg)
    case Blob(data) => image == data
    case _ => false
  }

  lemma {:induction false} PrefixedImages(tc: nat, items: seq<Item>, images: seq<Buffer>)
    requires |images| == |items| && forall i :: 0 <= i < |items| ==> ValidItem(tc, items[i])
    requires forall i :: 0 <= i < |images| ==> HasImage(tc, items[i], images[i])
    ensures PrefixedBytes(items) == Counted(images)
    decreases |items|
  {
    hide ValidItem, Word, Flatten;
    if |items| > 0 {
      ItemFillsSize(tc, items[0]);
      WordIs(|images[0]|);
      PrefixedImages(tc, items[1..], images[1..]);
      assert images[0] == ItemBytes(items[0]);
    }
  }

  // ---- any number of fields ----

  /** The entries of a Message follow each other: each adds what it adds to a Message of its own, tags and pointers add
      nothing, and the header counts the others. */
  lemma {:induction false} FlattenIsConcatenation(what: nat, es: seq<Entry>)
    requires forall i :: 0 <= i < |es| ==> ValidEntry(es[i])
    ensures Flatten(Message(what, es)) == Header(what, |Flattenable(es)|) + Concat(EntryImages(Flattenable(es)))
    decreases |es|
  {
    hide W32, Word, FieldBytes, FieldSize, ValidEntry;
    VersionBytes();
    WordIs(what);
    EntriesImage(es);
    WordIs(|Flattenable(es)|);
  }

  function Flattenable(es: seq<Entry>): seq<Entry> {
    if |es| == 0 then []
    else (if es[0].field.tc in UNFLATTENABLE_TYPES then [] else [es[0]]) + Flattenable(es[1..])
  }

  function EntryImages(es: seq<Entry>): seq<Buffer> {
    seq(|es|, i requires 0 <= i < |es| => EntryImage(es[i].name, es[i].field.tc, FieldBytes(es[i].field)))
  }

  lemma {:induction false} EntriesImage(es: seq<Entry>)
    requires forall i :: 0 <= i < |es| ==> ValidEntry(es[i])
    ensures NumFlattenable(es) == |Flattenable(es)|
    ensures EntriesBytes(es) == Concat(EntryImages(Flattenable(es)))
    decreases |es|
  {
    hide FieldBytes, FieldSize, ValidField, EntryBytes, EntryImage, EntryImages, Concat;
    if |es| == 0 {
      NoImages();
    } else {
      var e, rest := es[0], es[1..];
      EntriesImage(rest);
      TypeCodes(e.field.tc);
      if e.field.tc !in UNFLATTENABLE_TYPES {
        var data := FieldBytes(e.field);
        assert ValidEntry(e);
        FieldFillsSize(e.field);
        EntryThenRest(e.name, e.field.tc, data, EntriesBytes(rest));
        ImagesCons(e, Flattenable(rest));
      } else {
        assert [] + Flattenable(rest) == Flattenable(rest);
      }
    }
  }

  lemma NoImages()
    ensures Concat(EntryImages([])) == []
  {
  }

  lemma ImagesCons(e: Entry, es: seq<Entry>)
    ensures Concat(EntryImages([e] + es)) ==
      EntryImage(e.name, e.field.tc, FieldBytes(e.field)) + Concat(EntryImages(es))
  {
    hide EntryImage, FieldBytes;
    assert EntryImages([e] + es)[1..] == EntryImages(es);
  }

  lemma EntryThenRest(name: Buffer, tc: nat, data: Buffer, rest: Buffer)
    ensures EntryBytes(name, tc, |data|, data, rest) == EntryImage(name, tc, data) + rest
  {
    hide W32, Word;
    WordIs(|name| + 1);
    WordIs(tc);
    WordIs(|data|);
  }
}
