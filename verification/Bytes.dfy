/** Byte strings and the fixed-width integer codecs that every wire format in this project uses. */
module Bytes {

  type Byte = x: int | 0 <= x < 256

  type Buffer = seq<Byte>

  /** The outcome of an operation that the source reports with a status_t. */
  datatype Result<+T> = Ok(value: T) | Err

  datatype Option<+T> = None | Some(value: T)

  const TWO31: nat := 0x8000_0000
  const TWO32: nat := 0x1_0000_0000
  const TWO64: nat := 0x1_0000_0000_0000_0000

  /** 256 to the power k. */
  function Pow256(k: nat): (r: nat)
    ensures r > 0
  {
    if k == 0 then 1 else 256 * Pow256(k - 1)
  }

  /** The k low-order bytes of n, least significant first; higher-order bytes are dropped. */
  function ToLE(n: nat, k: nat): (s: seq<Byte>)
    ensures |s| == k
    decreases k, n
  {
    if k == 0 then [] else [n % 256] + ToLE(n / 256, k - 1)
  }

  function FromLE(s: seq<Byte>): (n: nat)
  {
    if |s| == 0 then 0 else s[0] + 256 * FromLE(s[1..])
  }

  lemma {:induction false} FromLEToLE(n: nat, k: nat)
    requires n < Pow256(k)
    ensures FromLE(ToLE(n, k)) == n
    decreases k
  {
    if k > 0 {
      assert n / 256 < Pow256(k - 1);
      FromLEToLE(n / 256, k - 1);
      assert ToLE(n, k)[1..] == ToLE(n / 256, k - 1);
    }
  }

  /** A 32-bit word as DataFlattener::WriteInt32() writes it. */
  function W32(n: nat): (s: seq<Byte>)
    ensures |s| == 4
  {
    ToLE(n, 4)
  }

  /** The 32-bit word at the front of s, as DataUnflattener::ReadInt32() reads it. */
  function R32(s: seq<Byte>): (n: nat)
    requires |s| >= 4
  {
    FromLE(s[..4])
  }

  /** The bytes of a word on the wire, lowest first, as the wire formats give them. */
  function Word(n: nat): (s: seq<Byte>)
    ensures |s| == 4
  {
    [n % 256, n / 0x100 % 256, n / 0x10000 % 256, n / 0x1000000 % 256]
  }

  lemma WordIs(n: nat)
    ensures W32(n) == Word(n)
  {
    hide ToLE;
    var n1, n2, n3 := n / 0x100, n / 0x10000, n / 0x1000000;
    LowByte(n, 4);
    LowByte(n1, 3);
    LowByte(n2, 2);
    LowByte(n3, 1);
    assert n1 / 256 == n2 && n2 / 256 == n3;
  }

  lemma LowByte(n: nat, k: nat)
    requires k > 0
    ensures ToLE(n, k) == [n % 256] + (if k == 1 then [] else ToLE(n / 256, k - 1))
  {
  }

  lemma R32W32(n: nat, tail: seq<Byte>)
    requires n < TWO32
    ensures R32(W32(n) + tail) == n
    ensures (W32(n) + tail)[4..] == tail
  {
    assert (W32(n) + tail)[..4] == W32(n);
    FromLEToLE(n, 4);
    assert Pow256(4) == TWO32;
  }

  lemma SplitAt(head: seq<Byte>, tail: seq<Byte>)
    ensures (head + tail)[..|head|] == head
    ensures (head + tail)[|head|..] == tail
  {
  }

  function RemoveAt<T>(s: seq<T>, i: nat): (r: seq<T>)
    requires i < |s|
    ensures |r| == |s| - 1
  {
    s[..i] + s[i + 1..]
  }

  /** First a, then b has been written, and c is left. */
  lemma WrittenThen(a: Buffer, b: Buffer, c: Buffer, all: Buffer, bc: Buffer)
    requires a + bc == all && b + c == bc
    ensures (a + b) + c == all
  {
  }

  /** Writing n bytes of b from offset on, with rest to follow. */
  lemma WriteFrom(b: Buffer, offset: nat, n: nat, rest: Buffer)
    requires offset + n <= |b|
    ensures b[offset..offset + n] + (b[offset + n..] + rest) == b[offset..] + rest
  {
    assert b[offset..] == b[offset..offset + n] + b[offset + n..];
  }

  /** The next k bytes after the first n. */
  lemma NextBytes(s: Buffer, n: nat, size: nat, k: nat)
    requires n + k <= size <= |s|
    ensures s[..n + k] == s[..n] + s[n..size][..k]
  {
    var piece := s[n..size];
    assert forall i :: 0 <= i < k ==> piece[..k][i] == s[n + i];
  }

  /** A stream that arrives in pieces. */
  function Concat(chunks: seq<Buffer>): Buffer {
    if |chunks| == 0 then [] else chunks[0] + Concat(chunks[1..])
  }

  /** memcpy() into a buffer. */
  method CopyBytes(a: array<Byte>, start: nat, bytes: seq<Byte>)
    requires start + |bytes| <= a.Length
    modifies a
    ensures a[..] == old(a[..start]) + bytes + old(a[start + |bytes|..])
  {
    var i := 0;
    while i < |bytes|
      invariant i <= |bytes|
      invariant a[..start] == old(a[..start]) && a[start..start + i] == bytes[..i]
      invariant a[start + i..] == old(a[start + i..])
    {
      a[start + i] := bytes[i];
      i := i + 1;
    }
    assert a[..] == a[..start] + a[start..start + i] + a[start + i..];
    assert bytes[..i] == bytes;
  }

  lemma SliceParts(s: Buffer, i: nat, j: nat, n: nat)
    requires i + n <= j <= |s|
    ensures s[i..j][..n] == s[i..i + n] && s[i..j][n..] == s[i + n..j]
  {
  }
}
