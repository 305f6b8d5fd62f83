/** What the layout hash tells apart: it is the sum over all fields of a layout, those of sub-Messages included, in the
    order in which a reader meets them, each weighted by its position. */
module LayoutHashing {
  import opened Bytes
  import opened Messages
  import opened Templates

  /** All fields of a layout, each followed by those of its sub-Messages. */
  function Preorder(fs: seq<LayoutField>): seq<LayoutField>
    decreases fs
  {
    if |fs| == 0 then [] else [fs[0]] + PreorderOfAll(fs[0].subs) + Preorder(fs[1..])
  }

  function PreorderOfAll(ls: seq<Layout>): seq<LayoutField>
    decreases ls
  {
    if |ls| == 0 then [] else Preorder(ls[0].fields) + PreorderOfAll(ls[1..])
  }

  function Value(h: seq<Byte> -> nat, f: LayoutField): nat {
    h(f.name) + f.count * f.tc
  }

  /** The weighted sum of the fields that follow the first n; weights are 32-bit numbers. */
  function Weighted(h: seq<Byte> -> nat, fs: seq<LayoutField>, n: nat): nat
    decreases |fs|
  {
    if |fs| == 0 then 0 else (n + 1) % TWO32 * Value(h, fs[0]) + Weighted(h, fs[1..], n + 1)
  }

  lemma {:induction false} WeightedAppend(h: seq<Byte> -> nat, a: seq<LayoutField>, b: seq<LayoutField>, n: nat)
    ensures Weighted(h, a + b, n) == Weighted(h, a, n) + Weighted(h, b, n + |a|)
    decreases |a|
  {
    hide Value;
    if |a| == 0 {
      assert a + b == b;
    } else {
      WeightedAppend(h, a[1..], b, n + 1);
      assert (a + b)[0] == a[0] && (a + b)[1..] == a[1..] + b;
    }
  }

  lemma {:induction false} WeightsWrap(h: seq<Byte> -> nat, fs: seq<LayoutField>, n: nat, m: nat)
    requires n % TWO32 == m % TWO32
    ensures Weighted(h, fs, n) == Weighted(h, fs, m)
    decreases |fs|
  {
    hide Value;
    if |fs| > 0 {
      SuccessorWraps(n, m);
      WeightsWrap(h, fs[1..], n + 1, m + 1);
    }
  }

  lemma SuccessorWraps(n: nat, m: nat)
    requires n % TWO32 == m % TWO32
    ensures (n + 1) % TWO32 == (m + 1) % TWO32
  {
  }

  /** The state after some fields, told from their weighted sum. */
  function After(h: seq<Byte> -> nat, fs: seq<LayoutField>, st: HashState): HashState {
    HashState((st.sum + Weighted(h, fs, st.count)) % TWO64, (st.count + |fs|) % TWO32)
  }

  lemma AfterAppend(h: seq<Byte> -> nat, a: seq<LayoutField>, b: seq<LayoutField>, st: HashState)
    ensures After(h, b, After(h, a, st)) == After(h, a + b, st)
  {
    hide Weighted;
    WeightedAppend(h, a, b, st.count);
    WeightsWrap(h, b, st.count + |a|, (st.count + |a|) % TWO32);
    SumsReduced(st.sum + Weighted(h, a, st.count), Weighted(h, b, st.count + |a|), TWO64);
    SumsReduced(st.count + |a|, |b|, TWO32);
  }

  lemma SumsReduced(a: nat, b: nat, n: nat)
    requires n in {TWO32, TWO64}
    ensures (a % n + b) % n == (a + b) % n
  {
  }

  lemma AfterNothing(h: seq<Byte> -> nat, st: HashState)
    requires st.sum < TWO64 && st.count < TWO32
    ensures After(h, [], st) == st
  {
  }

  lemma AfterOne(h: seq<Byte> -> nat, f: LayoutField, st: HashState)
    ensures HashTerm(h, f.name, f.tc, f.count, st) == After(h, [f], st)
  {
    assert Weighted(h, [f], st.count) == (st.count + 1) % TWO32 * Value(h, f) + Weighted(h, [f][1..], st.count + 1);
  }

  /** The hash of a layout is the weighted sum of its fields in reading order, through every nesting level. */
  lemma {:induction false} HashIsWeightedSum(h: seq<Byte> -> nat, fs: seq<LayoutField>, st: HashState)
    requires st.sum < TWO64 && st.count < TWO32
    ensures HashLayout(h, fs, st) == After(h, Preorder(fs), st)
    decreases fs
  {
    hide HashTerm, After;
    if |fs| == 0 {
      AfterNothing(h, st);
    } else {
      var f, rest := fs[0], fs[1..];
      var st1 := HashTerm(h, f.name, f.tc, f.count, st);
      AfterOne(h, f, st);
      AfterFits(h, [f], st);
      HashesAreWeightedSums(h, f.subs, st1);
      AfterFits(h, PreorderOfAll(f.subs), st1);
      HashIsWeightedSum(h, rest, After(h, PreorderOfAll(f.subs), st1));
      AfterAppend(h, [f], PreorderOfAll(f.subs), st);
      AfterAppend(h, [f] + PreorderOfAll(f.subs), Preorder(rest), st);
    }
  }

  lemma AfterFits(h: seq<Byte> -> nat, fs: seq<LayoutField>, st: HashState)
    ensures After(h, fs, st).sum < TWO64 && After(h, fs, st).count < TWO32
  {
  }

  lemma {:induction false} HashesAreWeightedSums(h: seq<Byte> -> nat, ls: seq<Layout>, st: HashState)
    requires st.sum < TWO64 && st.count < TWO32
    ensures HashLayouts(h, ls, st) == After(h, PreorderOfAll(ls), st)
    decreases ls
  {
    hide After, HashLayout;
    if |ls| == 0 {
      AfterNothing(h, st);
    } else {
      var fs := Preorder(ls[0].fields);
      HashIsWeightedSum(h, ls[0].fields, HashState(0, st.count));
      Resumed(h, fs, st);
      AfterFits(h, fs, st);
      HashesAreWeightedSums(h, ls[1..], After(h, fs, st));
      AfterAppend(h, fs, PreorderOfAll(ls[1..]), st);
    }
  }

  /** A sub-Message starts a sum of its own, which is added afterwards. */
  lemma Resumed(h: seq<Byte> -> nat, fs: seq<LayoutField>, st: HashState)
    ensures var r := After(h, fs, HashState(0, st.count));
      HashState((st.sum + r.sum) % TWO64, r.count) == After(h, fs, st)
  {
    hide Weighted;
    SumsReduced(Weighted(h, fs, st.count), st.sum, TWO64);
  }

  /** The hash of a Message, without the guard against zero. */
  function PlainHash(h: seq<Byte> -> nat, l: Layout): nat {
    Weighted(h, Preorder(l.fields), 0) % TWO64
  }

  /** Two layouts collide exactly when their weighted sums do, or when one sum is 0 and the other 1. */
  lemma CollideIff(h: seq<Byte> -> nat, a: Layout, b: Layout)
    ensures LayoutHash(h, a) == LayoutHash(h, b) <==>
      PlainHash(h, a) == PlainHash(h, b) || {PlainHash(h, a), PlainHash(h, b)} == {0, 1}
  {
    hide HashLayout, Weighted;
    HashIsWeightedSum(h, a.fields, HashState(0, 0));
    HashIsWeightedSum(h, b.fields, HashState(0, 0));
    var p, q := PlainHash(h, a), PlainHash(h, b);
    assert {p, q} == {0, 1} <==> (p == 0 && q == 1) || (p == 1 && q == 0) by {
      if {p, q} == {0, 1} {
        assert p in {0, 1} && q in {0, 1} && 0 in {p, q} && 1 in {p, q};
      }
    }
  }

  /** The response law: layouts that differ in one field only have equal sums exactly when that field's position times
      the difference of the two values is a multiple of 2^64. */
  lemma FieldSeparates(h: seq<Byte> -> nat, a: Layout, b: Layout, k: nat)
    requires var x, y := Preorder(a.fields), Preorder(b.fields);
      k < |x| == |y| && x[..k] == y[..k] && x[k + 1..] == y[k + 1..]
    ensures var x, y := Preorder(a.fields)[k], Preorder(b.fields)[k];
      PlainHash(h, a) == PlainHash(h, b) <==> ((k + 1) % TWO32 * (Value(h, y) - Value(h, x))) % TWO64 == 0
  {
    hide Value, Preorder, Weighted;
    var x, y := Preorder(a.fields), Preorder(b.fields);
    SplitWeighted(h, x, k);
    SplitWeighted(h, y, k);
    var w: int, p: int, q: int := (k + 1) % TWO32, Value(h, x[k]), Value(h, y[k]);
    assert w * (q - p) == w * q - w * p;
    EqualResidues(Weighted(h, y, 0), Weighted(h, x, 0));
  }

  lemma SplitWeighted(h: seq<Byte> -> nat, fs: seq<LayoutField>, k: nat)
    requires k < |fs|
    ensures Weighted(h, fs, 0) ==
      Weighted(h, fs[..k], 0) + ((k + 1) % TWO32 * Value(h, fs[k]) + Weighted(h, fs[k + 1..], k + 1))
  {
    hide Value, Weighted;
    var rest := fs[k..];
    assert fs == fs[..k] + rest && rest[0] == fs[k] && rest[1..] == fs[k + 1..];
    WeightedAppend(h, fs[..k], rest, 0);
    WeightedHead(h, rest, k);
  }

  lemma WeightedHead(h: seq<Byte> -> nat, fs: seq<LayoutField>, n: nat)
    requires |fs| > 0
    ensures Weighted(h, fs, n) == (n + 1) % TWO32 * Value(h, fs[0]) + Weighted(h, fs[1..], n + 1)
  {
  }

  lemma EqualResidues(a: nat, b: nat)
    ensures a % TWO64 == b % TWO64 <==> (a - b) % TWO64 == 0
  {
  }

  /** The type code counts: two layouts of one field each, which differ in its type only, collide only by the guard. */
  lemma TypesSeparate(h: seq<Byte> -> nat, name: seq<Byte>, count: nat, tc: nat, tc': nat)
    requires 0 < count < TWO32 && tc < TWO32 && tc' < TWO32 && tc != tc'
    ensures var a, b := Layout([LayoutField(name, tc, count, [])]), Layout([LayoutField(name, tc', count, [])]);
      LayoutHash(h, a) == LayoutHash(h, b) <==>
        {(h(name) + count * tc) % TWO64, (h(name) + count * tc') % TWO64} == {0, 1}
  {
    hide LayoutHash, PlainHash;
    var f, g := LayoutField(name, tc, count, []), LayoutField(name, tc', count, []);
    OnlyField(h, f);
    OnlyField(h, g);
    CollideIff(h, Layout([f]), Layout([g]));
    DistinctSums(h(name), count, tc, tc');
  }

  lemma DistinctSums(name: nat, count: nat, tc: nat, tc': nat)
    requires 0 < count < TWO32 && tc < TWO32 && tc' < TWO32 && tc != tc'
    ensures (name + count * tc) % TWO64 != (name + count * tc') % TWO64
  {
    var d: int := (tc as int) - tc';
    var p: int, q: int := count * tc, count * tc';
    assert p - q == count * d;
    EqualResidues(name + count * tc, name + count * tc');
    SmallProduct(count, d);
    assert (name + p) - (name + q) == count * d;
  }

  lemma OnlyField(h: seq<Byte> -> nat, f: LayoutField)
    requires f.subs == []
    ensures Preorder([f]) == [f] && PlainHash(h, Layout([f])) == (h(f.name) + f.count * f.tc) % TWO64
  {
    assert [f][1..] == [];
    assert Preorder([f]) == [f] + PreorderOfAll([]) + Preorder([]);
    assert Weighted(h, [f], 0) == 1 * Value(h, f) + Weighted(h, [f][1..], 1);
  }

  lemma SmallProduct(count: nat, d: int)
    requires 0 < count < TWO32 && 0 - TWO32 < d < TWO32 && d != 0
    ensures (count * d) % TWO64 != 0
  {
    var e: nat := if d < 0 then 0 - d else d;
    ProductBound(count, e);
    assert count * d == if d < 0 then 0 - count * e else count * e;
    NotAMultiple(count * d);
  }

  lemma NotAMultiple(a: int)
    requires 0 - TWO64 < a < TWO64 && a != 0
    ensures a % TWO64 != 0
  {
  }

  lemma ProductBound(a: nat, b: nat)
    requires 0 < a < TWO32 && 0 < b < TWO32
    ensures 0 < a * b < TWO64
  {
    Monotone(a, TWO32, b);
    Monotone(b, TWO32, TWO32);
  }

  lemma Monotone(a: nat, n: nat, b: nat)
    requires 0 < a < n && b > 0
    ensures 0 < a * b < n * b
  {
    assert n * b == a * b + (n - a) * b;
    Positive(n - a, b);
    Positive(a, b);
  }

  lemma Positive(a: nat, b: nat)
    requires a > 0 && b > 0
    ensures a * b > 0
  {
  }

  /** The order counts: two fields without sub-Messages, whichever way round, have the same sum only if they have the
      same value. */
  lemma OrderSeparates(h: seq<Byte> -> nat, f: LayoutField, g: LayoutField)
    requires f.subs == [] && g.subs == []
    ensures PlainHash(h, Layout([f, g])) == PlainHash(h, Layout([g, f])) <==>
      Value(h, f) % TWO64 == Value(h, g) % TWO64
  {
    hide Value, PlainHash;
    TwoFields(h, f, g);
    TwoFields(h, g, f);
    Swapped(Value(h, f), Value(h, g));
  }

  lemma Swapped(x: nat, y: nat)
    ensures (x + 2 * y) % TWO64 == (y + 2 * x) % TWO64 <==> x % TWO64 == y % TWO64
  {
    var a, b := x + 2 * y, y + 2 * x;
    EqualResidues(a, b);
    EqualResidues(y, x);
    assert (a as int) - b == (y as int) - x;
  }

  lemma TwoFields(h: seq<Byte> -> nat, f: LayoutField, g: LayoutField)
    requires f.subs == [] && g.subs == []
    ensures PlainHash(h, Layout([f, g])) == (Value(h, f) + 2 * Value(h, g)) % TWO64
  {
    hide Value;
    assert [f, g][1..] == [g] && [g][1..] == [];
    assert Preorder([g]) == [g] + PreorderOfAll([]) + Preorder([]);
    assert Preorder([f, g]) == [f] + PreorderOfAll([]) + Preorder([g]) == [f, g];
    assert Weighted(h, [g], 1) == 2 * Value(h, g) + Weighted(h, [], 2);
    assert Weighted(h, [f, g], 0) == 1 * Value(h, f) + Weighted(h, [g], 1);
  }
}
