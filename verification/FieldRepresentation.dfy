/** MessageField's three states: empty, one inline item, or an allocated array.  To its callers a field is a
    sequence. */
module FieldRepresentation {
  import opened Bytes
  import opened Messages
  import opened Unflattening
  import opened MessageEquality

  datatype Op =
    | Add(item: Item)
    | Prepend(item: Item)
    | Remove(index: nat)
    | Replace(index: nat, item: Item)
    | FindItem(index: nat)
    | Clear

  /** The outcome of an operation: done, an item that was found, or B_DATA_NOT_FOUND. */
  datatype Outcome = Done | Found(item: Item) | NotFound

  datatype After<T> = After(state: T, outcome: Outcome)

  // ---- the plain sequence ----

  function OnSeq(s: seq<Item>, op: Op): After<seq<Item>> {
    match op
    case Add(x) => After(s + [x], Done)
    case Prepend(x) => After([x] + s, Done)
    case Remove(i) => if i < |s| then After(s[..i] + s[i + 1..], Done) else After(s, NotFound)
    case Replace(i, x) => if i < |s| then After(s[i := x], Done) else After(s, NotFound)
    case FindItem(i) => After(s, if i < |s| then Found(s[i]) else NotFound)
    case Clear => After([], Done)
  }

  // ---- the three states ----

  /** A field with an array hands the operation to it; otherwise one of the Single*() methods does the work. */
  function OnRep(r: Rep, op: Op): After<Rep> {
    match r
    case Array(s) => if op.Clear? then After(Empty, Done) else var a := OnSeq(s, op); After(Array(a.state), a.outcome)
    case Empty =>
      (match op
       case Add(x) => After(Inline(x), Done)
       case Prepend(x) => After(Inline(x), Done)
       case Clear => After(Empty, Done)
       case _ => After(Empty, NotFound))
    case Inline(item) =>
      (match op
       case Add(x) => After(Array([item] + [x]), Done)
       case Prepend(x) => After(Array([x] + [item]), Done)
       case Remove(i) => if i > 0 then After(r, NotFound) else After(Empty, Done)
       case Replace(i, x) => if i > 0 then After(r, NotFound) else After(Inline(x), Done)
       case FindItem(i) => After(r, if i > 0 then NotFound else Found(item))
       case Clear => After(Empty, Done))
  }

  datatype Run<T> = Run(state: T, outcomes: seq<Outcome>)

  function RunSeq(s: seq<Item>, ops: seq<Op>): Run<seq<Item>>
    decreases |ops|
  {
    if |ops| == 0 then Run(s, [])
    else
      var a := OnSeq(s, ops[0]);
      var b := RunSeq(a.state, ops[1..]);
      Run(b.state, [a.outcome] + b.outcomes)
  }

  function RunRep(r: Rep, ops: seq<Op>): Run<Rep>
    decreases |ops|
  {
    if |ops| == 0 then Run(r, [])
    else
      var a := OnRep(r, ops[0]);
      var b := RunRep(a.state, ops[1..]);
      Run(b.state, [a.outcome] + b.outcomes)
  }

  lemma OneOpRefines(r: Rep, op: Op)
    ensures Items(OnRep(r, op).state) == OnSeq(Items(r), op).state
    ensures OnRep(r, op).outcome == OnSeq(Items(r), op).outcome
  {
  }

  /** Under every series of operations the field behaves as a sequence. */
  lemma {:induction false} RunsRefine(r: Rep, ops: seq<Op>)
    ensures Items(RunRep(r, ops).state) == RunSeq(Items(r), ops).state
    ensures RunRep(r, ops).outcomes == RunSeq(Items(r), ops).outcomes
    decreases |ops|
  {
    hide OnRep, OnSeq;
    if |ops| > 0 {
      OneOpRefines(r, ops[0]);
      RunsRefine(OnRep(r, ops[0]).state, ops[1..]);
    }
  }

  // ---- nothing else tells the representations apart ----

  /** An inline item of a flattenable type is compared as the only item of an array. */
  lemma ItemwiseComparison(fe: FloatEq, f: Field, g: Field)
    requires ValidField(f) && ValidField(g) && IsFlattenable(f.tc)
    ensures FieldsEqual(fe, f, g) <==>
      f.tc == g.tc && |Items(f.rep)| == |Items(g.rep)| && ArraysEqual(fe, f.tc, Items(f.rep), Items(g.rep))
  {
    hide ItemsMatch, ValidItem;
    var xs, ys := Items(f.rep), Items(g.rep);
    if f.tc == g.tc && |xs| == |ys| == 1 {
      OneItem(fe, f.tc, xs[0], ys[0]);
      OneItem(fe, f.tc, ys[0], xs[0]);
      if ItemsMatch(fe, f.tc, true, xs[0], ys[0]) { ItemSymmetric(fe, f.tc, true, xs[0], ys[0]); }
      if ItemsMatch(fe, f.tc, true, ys[0], xs[0]) { ItemSymmetric(fe, f.tc, true, ys[0], xs[0]); }
      assert xs == [xs[0]] && ys == [ys[0]];
    }
  }

  /** How two values of one type compare: 'FLOT', 'DBLE', 'BPNT' and 'RECT' values as the machine compares
      floating-point numbers, sub-Messages as Messages, and all others byte by byte. */
  predicate SameValue(fe: FloatEq, tc: nat, x: Item, y: Item) {
    if x.Sub? && y.Sub? then Equal(fe, x.msg, y.msg)
    else if x.Pod? && y.Pod? && tc in {0x464C4F54, 0x44424C45, 0x42504E54, 0x52454354} then fe(x.image, y.image)
    else x == y
  }

  /** Fields of flattenable types are equal exactly when their types and counts are and their items compare one by one,
      whichever way either field holds them. */
  lemma FieldsEqualIff(fe: FloatEq, f: Field, g: Field)
    requires ValidField(f) && ValidField(g) && IsFlattenable(f.tc)
    ensures FieldsEqual(fe, f, g) <==>
      && f.tc == g.tc && |Items(f.rep)| == |Items(g.rep)|
      && forall k :: 0 <= k < |Items(f.rep)| ==> SameValue(fe, f.tc, Items(f.rep)[k], Items(g.rep)[k])
  {
    hide FieldsEqual, ArraysEqual, SameValue, ValidItem;
    ItemwiseComparison(fe, f, g);
    if f.tc == g.tc && |Items(f.rep)| == |Items(g.rep)| { ArraysPointwise(fe, f.tc, Items(f.rep), Items(g.rep)); }
  }

  lemma {:induction false} ArraysPointwise(fe: FloatEq, tc: nat, xs: seq<Item>, ys: seq<Item>)
    requires |xs| == |ys| && ValidItems(tc, xs) && ValidItems(tc, ys) && IsFlattenable(tc)
    ensures ArraysEqual(fe, tc, xs, ys) <==> forall k :: 0 <= k < |xs| ==> SameValue(fe, tc, xs[k], ys[k])
    decreases |xs|
  {
    hide ItemsMatch, SameValue, ValidItem;
    if |xs| > 0 {
      assert ValidItem(tc, xs[0]) && ValidItem(tc, ys[0]);
      MatchIsSameValue(fe, tc, xs[0], ys[0]);
      ArraysPointwise(fe, tc, xs[1..], ys[1..]);
      assert forall k :: 0 < k < |xs| ==> xs[k] == xs[1..][k - 1] && ys[k] == ys[1..][k - 1];
      if ArraysEqual(fe, tc, xs, ys) {
        forall k | 0 <= k < |xs| ensures SameValue(fe, tc, xs[k], ys[k]) {
          if k > 0 { assert SameValue(fe, tc, xs[1..][k - 1], ys[1..][k - 1]); }
        }
      }
    }
  }

  lemma MatchIsSameValue(fe: FloatEq, tc: nat, x: Item, y: Item)
    requires ValidItem(tc, x) && ValidItem(tc, y) && IsFlattenable(tc)
    ensures ItemsMatch(fe, tc, false, x, y) <==> SameValue(fe, tc, x, y)
  {
    hide Equal, Valid;
  }

  /** And Messages of flattenable fields are equal exactly when their what-codes and numbers of fields are and every
      field of one has an equal field under its name in the other. */
  lemma EqualIffFieldsAre(fe: FloatEq, a: Message, b: Message)
    requires Valid(a) && Valid(b) && AllFlattenable(a)
    ensures Equal(fe, a, b) <==>
      && a.what == b.what && |a.entries| == |b.entries|
      && forall i :: 0 <= i < |a.entries| ==> HasEqualField(fe, b, a.entries[i])
  {
    hide FieldsEqual, ValidEntry, FlattenableField, HasEqualField;
    SubsetPointwise(fe, a.entries, b.entries);
    forall i | 0 <= i < |a.entries|
      ensures HasEqualField(fe, b, a.entries[i]) <==>
        (var k := Lookup(b.entries, a.entries[i].name);
         k < |b.entries| && FieldsEqual(fe, a.entries[i].field, b.entries[k].field))
    {
      assert ValidEntry(a.entries[i]) && FlattenableField(a.entries[i].field);
      EqualFieldFound(fe, b, a.entries[i]);
    }
  }

  predicate HasEqualField(fe: FloatEq, m: Message, e: Entry) {
    exists j :: 0 <= j < |m.entries| && m.entries[j].name == e.name && SameFields(fe, e.field, m.entries[j].field)
  }

  predicate SameFields(fe: FloatEq, f: Field, g: Field) {
    && f.tc == g.tc && |Items(f.rep)| == |Items(g.rep)|
    && forall k :: 0 <= k < |Items(f.rep)| ==> SameValue(fe, f.tc, Items(f.rep)[k], Items(g.rep)[k])
  }

  lemma EqualFieldFound(fe: FloatEq, m: Message, e: Entry)
    requires Valid(m) && ValidEntry(e) && FlattenableField(e.field)
    ensures HasEqualField(fe, m, e) <==>
      (var k := Lookup(m.entries, e.name); k < |m.entries| && FieldsEqual(fe, e.field, m.entries[k].field))
  {
    hide FieldsEqual, ValidField, SameValue;
    var k := Lookup(m.entries, e.name);
    if k < |m.entries| {
      assert ValidEntry(m.entries[k]);
      FieldsEqualIff(fe, e.field, m.entries[k].field);
    }
  }

  lemma OneItem(fe: FloatEq, tc: nat, x: Item, y: Item)
    requires IsFlattenable(tc)
    ensures ItemsMatch(fe, tc, true, x, y) == ItemsMatch(fe, tc, false, x, y) == ArraysEqual(fe, tc, [x], [y])
  {
    hide Equal;
    assert ArraysEqual(fe, tc, [x][1..], [y][1..]);
  }

  /** Two fields with the same type and items have the same bytes, sizes, checksums and comparison results. */
  lemma RepresentationIsInvisible(fe: FloatEq, s: Sums, all: bool, f: Field, g: Field, other: Field)
    requires ValidField(f) && ValidField(g) && ValidField(other) && IsFlattenable(f.tc)
    requires f.tc == g.tc && Items(f.rep) == Items(g.rep)
    ensures FieldBytes(f) == FieldBytes(g) && FieldSize(f) == FieldSize(g)
    ensures FieldChecksum(s, all, f) == FieldChecksum(s, all, g)
    ensures FieldsEqual(fe, f, other) == FieldsEqual(fe, g, other)
    ensures FieldsEqual(fe, other, f) == FieldsEqual(fe, other, g)
    ensures FloatlessField(f) ==> FieldsEqual(fe, f, g)
  {
    hide ValidField, FieldBytes, FieldSize, FieldsEqual, FieldChecksum, ArraysEqual, FloatlessField;
    FieldIsArray(f);
    FieldIsArray(g);
    SameItemsSameChecksum(s, all, f, g);
    ItemwiseComparison(fe, f, f);
    ItemwiseComparison(fe, f, g);
    ItemwiseComparison(fe, f, other);
    ItemwiseComparison(fe, g, other);
    if other.tc == f.tc {
      ItemwiseComparison(fe, other, f);
      ItemwiseComparison(fe, other, g);
    } else {
      TypesDiffer(fe, other, f);
      TypesDiffer(fe, other, g);
    }
    if FloatlessField(f) { FieldReflexive(fe, f); }
  }

  lemma TypesDiffer(fe: FloatEq, f: Field, g: Field)
    requires f.tc != g.tc
    ensures !FieldsEqual(fe, f, g)
  {
  }

  lemma SameItemsSameChecksum(s: Sums, all: bool, f: Field, g: Field)
    requires ValidField(f) && ValidField(g) && IsFlattenable(f.tc) && f.tc == g.tc && Items(f.rep) == Items(g.rep)
    ensures FieldChecksum(s, all, f) == FieldChecksum(s, all, g)
  {
    hide WeightedSum, ItemChecksum;
    OneWeighted(s, all, f);
    OneWeighted(s, all, g);
    assert f.rep.Inline? ==> Items(f.rep)[0] == f.rep.item;
    assert g.rep.Inline? ==> Items(g.rep)[0] == g.rep.item;
  }

  // ---- the object ----

  class MessageField {
    const typeCode: nat
    var rep: Rep

    ghost function Contents(): seq<Item>
      reads this
    {
      Items(rep)
    }

    constructor (typeCode: nat)
      ensures this.typeCode == typeCode && rep == Empty && Contents() == []
    {
      this.typeCode := typeCode;
      rep := Empty;
    }

    method AddDataItem(x: Item)
      modifies this
      ensures rep == OnRep(old(rep), Add(x)).state
      ensures Contents() == old(Contents()) + [x]
    {
      match rep
      case Array(items) => rep := Array(items + [x]);
      case Empty => rep := Inline(x);
      case Inline(item) => rep := Array([item] + [x]);
    }

    method PrependDataItem(x: Item)
      modifies this
      ensures rep == OnRep(old(rep), Prepend(x)).state
      ensures Contents() == [x] + old(Contents())
    {
      match rep
      case Array(items) => rep := Array([x] + items);
      case Empty => rep := Inline(x);
      case Inline(item) => rep := Array([x] + [item]);
    }

    method RemoveDataItem(index: nat) returns (ok: bool)
      modifies this
      ensures rep == OnRep(old(rep), Remove(index)).state
      ensures ok <==> index < |old(Contents())|
      ensures Contents() == if ok then old(Contents())[..index] + old(Contents())[index + 1..] else old(Contents())
    {
      match rep
      case Array(items) =>
        if index >= |items| { return false; }
        rep := Array(items[..index] + items[index + 1..]);
        return true;
      case Empty => return false;
      case Inline(item) =>
        if index > 0 { return false; }
        rep := Empty;
        return true;
    }

    method ReplaceDataItem(index: nat, x: Item) returns (ok: bool)
      modifies this
      ensures rep == OnRep(old(rep), Replace(index, x)).state
      ensures ok <==> index < |old(Contents())|
      ensures Contents() == if ok then old(Contents())[index := x] else old(Contents())
    {
      match rep
      case Array(items) =>
        if index >= |items| { return false; }
        rep := Array(items[index := x]);
        return true;
      case Empty => return false;
      case Inline(item) =>
        if index > 0 { return false; }
        rep := Inline(x);
        return true;
    }

    method FindDataItem(index: nat) returns (r: Option<Item>)
      ensures r == if index < |Contents()| then Some(Contents()[index]) else None
    {
      match rep
      case Array(items) => r := if index < |items| then Some(items[index]) else None;
      case Empty => r := None;
      case Inline(item) => r := if index > 0 then None else Some(item);
    }
  }
}
