/** Byte buffers and the fixed-width integer readers of Node's Buffer. */
module Bytes {
  type Byte = x: int | 0 <= x < 256

  type Buffer = seq<Byte>

  /** Number.MAX_SAFE_INTEGER. No Node buffer is longer. */
  const MAX_SAFE_INTEGER: nat := 0x1F_FFFF_FFFF_FFFF

  function U16BE(s: Buffer, i: nat): (n: nat)
    requires i + 2 <= |s|
    ensures n < 0x1_0000
  {
    (s[i] as int) * 0x100 + s[i + 1]
  }

  function U32BE(s: Buffer, i: nat): (n: nat)
    requires i + 4 <= |s|
    ensures n < 0x1_0000_0000
  {
    U16BE(s, i) * 0x1_0000 + U16BE(s, i + 2)
  }

  function U64BE(s: Buffer, i: nat): (n: nat)
    requires i + 8 <= |s|
    ensures n < 0x1_0000_0000_0000_0000
  {
    U32BE(s, i) * 0x1_0000_0000 + U32BE(s, i + 4)
  }

  function U16LE(s: Buffer, i: nat): (n: nat)
    requires i + 2 <= |s|
    ensures n < 0x1_0000
  {
    (s[i] as int) + (s[i + 1] as int) * 0x100
  }

  function U32LE(s: Buffer, i: nat): (n: nat)
    requires i + 4 <= |s|
    ensures n < 0x1_0000_0000
  {
    U16LE(s, i) + U16LE(s, i + 2) * 0x1_0000
  }

  /** The bytes of a field, least significant first. */
  function LE16(n: nat): (b: Buffer)
    requires n < 0x1_0000
    ensures |b| == 2 && U16LE(b, 0) == n
  {
    [n % 0x100, n / 0x100]
  }

  function LE32(n: nat): (b: Buffer)
    requires n < 0x1_0000_0000
    ensures |b| == 4 && U32LE(b, 0) == n
  {
    LE16(n % 0x1_0000) + LE16(n / 0x1_0000)
  }

  lemma SliceU16BE(s: Buffer, from: nat, to: nat, i: nat)
    requires from <= to <= |s| && from + i + 2 <= to
    ensures U16BE(s[from..to], i) == U16BE(s, from + i)
  {
  }

  /** Two's complement reading of a field of `modulus` values. */
  function Signed(n: nat, modulus: nat): int
    requires n < modulus
  {
    if n < modulus / 2 then n else n - modulus
  }

  function I16LE(s: Buffer, i: nat): int
    requires i + 2 <= |s|
  {
    Signed(U16LE(s, i), 0x1_0000)
  }

  function I32LE(s: Buffer, i: nat): int
    requires i + 4 <= |s|
  {
    Signed(U32LE(s, i), 0x1_0000_0000)
  }

  /** The characters of `toString("ascii")`: Node clears the top bit of every byte. */
  function Ascii(s: Buffer): (t: Buffer)
    ensures |t| == |s|
    ensures forall i :: 0 <= i < |s| ==> t[i] == s[i] % 128
  {
    seq(|s|, i requires 0 <= i < |s| => s[i] % 128)
  }

  /** `Buffer.concat`. */
  function Concat(buffers: seq<Buffer>): Buffer {
    if buffers == [] then [] else buffers[0] + Concat(buffers[1..])
  }

  lemma {:induction false} ConcatAppend(a: seq<Buffer>, b: seq<Buffer>)
    ensures Concat(a + b) == Concat(a) + Concat(b)
  {
    if a == [] {
      assert a + b == b;
    } else {
      assert (a + b)[1..] == a[1..] + b;
      calc {
        Concat(a + b);
        a[0] + Concat(a[1..] + b);
        { ConcatAppend(a[1..], b); }
        a[0] + (Concat(a[1..]) + Concat(b));
        (a[0] + Concat(a[1..])) + Concat(b);
      }
    }
  }

  /** Different four-byte fields hold different integers. */
  lemma FieldIsInjective(a: Buffer, b: Buffer)
    requires |a| == |b| == 4 && U32BE(a, 0) == U32BE(b, 0)
    ensures a == b
  {
    assert U32BE(a, 0) / 0x1_0000 == U16BE(a, 0) && U32BE(a, 0) % 0x1_0000 == U16BE(a, 2);
    assert U32BE(b, 0) / 0x1_0000 == U16BE(b, 0) && U32BE(b, 0) % 0x1_0000 == U16BE(b, 2);
    HalfFieldIsInjective(a, b, 0);
    HalfFieldIsInjective(a, b, 2);
  }

  lemma HalfFieldIsInjective(a: Buffer, b: Buffer, i: nat)
    requires i + 2 <= |a| && i + 2 <= |b| && U16BE(a, i) == U16BE(b, i)
    ensures a[i] == b[i] && a[i + 1] == b[i + 1]
  {
    assert U16BE(a, i) / 0x100 == a[i] && U16BE(a, i) % 0x100 == a[i + 1];
    assert U16BE(b, i) / 0x100 == b[i] && U16BE(b, i) % 0x100 == b[i + 1];
  }
}
