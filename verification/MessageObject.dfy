/** The Message object itself: a what-code and a table of fields that its methods walk and fill in loops. */
module MessageObject {
  import opened Bytes
  import opened Messages
  import opened Unflattening
  import opened MessageEquality

  const ENTRY_OVERHEAD: nat := 12

  lemma EntryBytesRest(name: Buffer, tc: nat, size: nat, body: Buffer, rest: Buffer)
    ensures EntryBytes(name, tc, size, body, rest) == EntryBytes(name, tc, size, body, []) + rest
    ensures |EntryBytes(name, tc, size, body, [])| == 4 + (|name| + 1) + 4 + 4 + |body|
  {
    hide W32;
  }

  lemma EntriesFrom(es: seq<Entry>, i: nat)
    requires i < |es| && ValidEntry(es[i])
    ensures var f := es[i].field;
      if IsFlattenable(f.tc) then
        && EntriesBytes(es[i..])
          == EntryBytes(es[i].name, f.tc, FieldSize(f), FieldBytes(f), []) + EntriesBytes(es[i + 1..])
        && EntriesSize(es[i..])
          == |EntryBytes(es[i].name, f.tc, FieldSize(f), FieldBytes(f), [])| + EntriesSize(es[i + 1..])
        && NumFlattenable(es[i..]) == 1 + NumFlattenable(es[i + 1..])
      else
        && EntriesBytes(es[i..]) == EntriesBytes(es[i + 1..]) && EntriesSize(es[i..]) == EntriesSize(es[i + 1..])
        && NumFlattenable(es[i..]) == NumFlattenable(es[i + 1..])
  {
    hide EntryBytes, FieldBytes, FieldSize, ValidField;
    var f, rest := es[i].field, es[i..];
    assert rest[0] == es[i] && rest[1..] == es[i + 1..];
    if IsFlattenable(f.tc) {
      FieldFillsSize(f);
      EntryBytesRest(es[i].name, f.tc, FieldSize(f), FieldBytes(f), EntriesBytes(es[i + 1..]));
    }
  }

  /** The version and the number of entries are plausible; only then is the object touched. */
  predicate HeaderAccepted(buf: Buffer) {
    |buf| >= 12 && R32(buf) == PROTOCOL_VERSION && R32(buf[4..][4..]) <= |buf[4..][4..][4..]| / ENTRY_OVERHEAD
  }

  /** Name, type and length of an entry could be read and do not clash with acc, so a failure is the field's. */
  predicate FieldBegun(buf: Buffer, acc: seq<Entry>) {
    |buf| >= 4 && R32(buf) <= |buf| - 4 && |buf| - 4 - R32(buf) >= 8
    && GetOrCreateField(acc, CString(buf[4..][..R32(buf)]), R32(buf[4..][R32(buf)..])).Ok?
  }

  /** What the table holds when the entry loop gives up: nothing if a field was bad, else the entries before the bad
      one. */
  function LeftBehind(buf: Buffer, n: nat, acc: seq<Entry>): seq<Entry>
    decreases n
  {
    if n == 0 then acc
    else
      match UnflattenEntry(buf, acc)
      case Ok(p) => LeftBehind(buf[p.used..], n - 1, p.value)
      case Err => if FieldBegun(buf, acc) then [] else acc
  }

  /** DataFlattener: appends at the write position. */
  method WriteBytes(buf: array<Byte>, pos: nat, bytes: Buffer) returns (pos': nat)
    requires pos + |bytes| <= buf.Length
    modifies buf
    ensures pos' == pos + |bytes| && buf[..pos'] == old(buf[..pos]) + bytes
  {
    CopyBytes(buf, pos, bytes);
    pos' := pos + |bytes|;
    assert buf[..pos'] == buf[..][..pos'];
  }

  /** The entry loop of Flatten(); start is the position behind the header. */
  method WriteEntries(buf: array<Byte>, start: nat, es: seq<Entry>) returns (n: nat)
    requires start + EntriesSize(es) == buf.Length && forall i :: 0 <= i < |es| ==> ValidEntry(es[i])
    modifies buf
    ensures buf[..] == old(buf[..start]) + EntriesBytes(es) && n == NumFlattenable(es)
  {
    hide EntriesBytes, EntriesSize, EntryBytes, FieldBytes, FieldSize, ValidEntry, NumFlattenable;
    ghost var was := buf[..start];
    var pos := start;
    n := 0;
    assert es[0..] == es;
    for i := 0 to |es|
      invariant start <= pos && pos + EntriesSize(es[i..]) == buf.Length
      invariant buf[..pos] + EntriesBytes(es[i..]) == was + EntriesBytes(es)
      invariant n + NumFlattenable(es[i..]) == NumFlattenable(es)
    {
      EntriesFrom(es, i);
      var e := es[i];
      if IsFlattenable(e.field.tc) {
        ghost var before := buf[..pos];
        var bytes := EntryBytes(e.name, e.field.tc, FieldSize(e.field), FieldBytes(e.field), []);
        pos := WriteBytes(buf, pos, bytes);
        WrittenThen(before, bytes, EntriesBytes(es[i + 1..]), was + EntriesBytes(es), EntriesBytes(es[i..]));
        n := n + 1;
      }
    }
    NoEntries();
    assert es[|es|..] == [];
    assert buf[..pos] == buf[..] && buf[..] + [] == buf[..];
  }

  lemma Patched(a: Buffer, b: Buffer, c: Buffer, rest: Buffer, c': Buffer)
    requires |c| == |c'|
    ensures var s, i := a + b + c + rest, |a| + |b|;
      s[..i] + c' + s[i + |c'|..] == a + (b + (c' + rest))
  {
    var s, i := a + b + c + rest, |a| + |b|;
    assert s[..i] == a + b;
    assert s[i + |c'|..] == rest;
  }

  class MutableMessage {
    var what: nat
    var entries: seq<Entry>

    function Value(): Message
      reads this
    {
      Message(what, entries)
    }

    constructor ()
      ensures Value() == Message(0, [])
    {
      what, entries := 0, [];
    }

    method CalculateFlattenedSize() returns (numBytes: nat)
      ensures numBytes == FlattenedSize(Value())
    {
      hide FieldSize;
      numBytes := 12;
      assert entries[0..] == entries;
      for i := 0 to |entries|
        invariant numBytes + EntriesSize(entries[i..]) == FlattenedSize(Value())
      {
        assert entries[i..][0] == entries[i] && entries[i..][1..] == entries[i + 1..];
        var e := entries[i];
        if IsFlattenable(e.field.tc) { numBytes := numBytes + 4 + (|e.name| + 1) + 4 + 4 + FieldSize(e.field); }
      }
    }

    /** The number of entries is written last, over a placeholder. */
    method FlattenToBytes(buf: array<Byte>)
      requires Valid(Value()) && buf.Length == FlattenedSize(Value())
      modifies buf
      ensures buf[..] == Flatten(Value())
    {
      hide EntriesBytes, EntriesSize, W32, ValidEntry, NumFlattenable;
      var pos := WriteBytes(buf, 0, W32(PROTOCOL_VERSION));
      pos := WriteBytes(buf, pos, W32(what));
      pos := WriteBytes(buf, pos, W32(0));
      ghost var head := W32(PROTOCOL_VERSION) + W32(what) + W32(0);
      var numFlattenedEntries := WriteEntries(buf, pos, entries);
      assert buf[..] == head + EntriesBytes(entries);
      CopyBytes(buf, 8, W32(numFlattenedEntries));
      Patched(W32(PROTOCOL_VERSION), W32(what), W32(0), EntriesBytes(entries), W32(numFlattenedEntries));
    }

    /** Fills the object from bytes; a bad header leaves it as it was, and a bad entry leaves behind what is stated. */
    method UnflattenFrom(buf: Buffer) returns (r: Result<nat>)
      modifies this
      ensures r.Ok? <==> Unflatten(buf).Ok?
      ensures r.Ok? ==> Value() == Unflatten(buf).value.value && r.value == Unflatten(buf).value.used
      ensures r.Err? && !HeaderAccepted(buf) ==> Value() == old(Value())
      ensures r.Err? && HeaderAccepted(buf) ==>
        Value() == Message(R32(buf[4..]), LeftBehind(buf[4..][4..][4..], R32(buf[4..][4..]), []))
    {
      hide R32, UnflattenEntry, FieldBegun;
      if |buf| < 12 || R32(buf) != PROTOCOL_VERSION { return Err; }
      var s4 := buf[4..];
      var s8 := s4[4..];
      var rest := s8[4..];
      var numEntries := R32(s8);
      if numEntries > |rest| / ENTRY_OVERHEAD { return Err; }
      what, entries := R32(s4), [];
      ghost var whole, left := UnflattenEntries(rest, numEntries, []), LeftBehind(rest, numEntries, []);
      var used := 0;
      for i := 0 to numEntries
        invariant used + |rest| == |s8| - 4 && what == R32(s4)
        invariant LeftBehind(rest, numEntries - i, entries) == left
        invariant var now := UnflattenEntries(rest, numEntries - i, entries);
          now.Err? == whole.Err?
          && (now.Ok? ==> now.value.value == whole.value.value && used + now.value.used == whole.value.used)
      {
        var p := UnflattenEntry(rest, entries);
        if p.Err? {
          if FieldBegun(rest, entries) { entries := []; }
          return Err;
        }
        used, rest, entries := used + p.value.used, rest[p.value.used..], p.value.value;
      }
      r := Ok(12 + used);
    }

    method FieldsAreSubsetOf(fe: FloatEq, rhs: seq<Entry>) returns (r: bool)
      ensures r <==> FieldsAreSubset(fe, entries, rhs)
    {
      hide FieldsEqual;
      assert entries[0..] == entries;
      for i := 0 to |entries|
        invariant FieldsAreSubset(fe, entries[i..], rhs) == FieldsAreSubset(fe, entries, rhs)
      {
        assert entries[i..][0] == entries[i] && entries[i..][1..] == entries[i + 1..];
        var k := Lookup(rhs, entries[i].name);
        if k == |rhs| { return false; }
        if !FieldsEqual(fe, entries[i].field, rhs[k].field) { return false; }
      }
      r := true;
    }

    /** operator ==() */
    method EqualTo(fe: FloatEq, rhs: Message) returns (r: bool)
      ensures r <==> Equal(fe, Value(), rhs)
    {
      hide FieldsAreSubset;
      if what != rhs.what || |entries| != |rhs.entries| { return false; }
      r := FieldsAreSubsetOf(fe, rhs.entries);
    }

    /** Every step wraps around at 32 bits, as the source's counter does. */
    method CalculateChecksum(s: Sums, all: bool) returns (ret: nat)
      ensures ret == Checksum(s, all, Value())
    {
      hide FieldChecksum, EntryTerm;
      ret := what % TWO32;
      ghost var sum: nat := what;
      assert entries[0..] == entries;
      for i := 0 to |entries|
        invariant ret == sum % TWO32
        invariant sum + EntriesChecksum(s, all, entries[i..]) == what + EntriesChecksum(s, all, entries)
      {
        assert entries[i..][0] == entries[i] && entries[i..][1..] == entries[i + 1..];
        var e := entries[i];
        ghost var term := EntryTerm(s, all, e.name, e.field.tc, FieldChecksum(s, all, e.field));
        ret := CountEntry(s, all, e, ret);
        WrapAdd(sum, term);
        sum := sum + term;
      }
    }

    method CountEntry(s: Sums, all: bool, e: Entry, ret: nat) returns (ret': nat)
      requires ret < TWO32
      ensures ret' == (ret + EntryTerm(s, all, e.name, e.field.tc, FieldChecksum(s, all, e.field))) % TWO32
    {
      hide FieldChecksum;
      ret' := ret;
      if all || IsFlattenable(e.field.tc) {
        var fnChk := s.name(e.name);
        ret' := AddTerms(ret, fnChk, fnChk * FieldChecksum(s, all, e.field));
      }
    }
  }

  method AddTerms(ret: nat, fnChk: nat, product: nat) returns (ret': nat)
    ensures ret' == (ret + (fnChk + (if fnChk == 0 then 1 else 0) + product)) % TWO32
  {
    ret' := (ret + fnChk) % TWO32;
    WrapAdd(ret + fnChk, 1);
    if fnChk == 0 { ret' := (ret' + 1) % TWO32; }
    WrapAdd(ret + fnChk + (if fnChk == 0 then 1 else 0), product);
    ret' := (ret' + product % TWO32) % TWO32;
  }

  lemma WrapAdd(a: nat, b: nat)
    ensures (a % TWO32 + b) % TWO32 == (a + b) % TWO32
    ensures (a % TWO32 + b % TWO32) % TWO32 == (a + b) % TWO32
  {
  }

  lemma NoEntries()
    ensures EntriesBytes([]) == [] && EntriesSize([]) == 0 && NumFlattenable([]) == 0
  {
  }
}
