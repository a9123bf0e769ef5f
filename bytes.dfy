/** Bytes and the fixed-width integer encodings of the two binary formats:
    big-endian in the Photoshop gradient format, little-endian in the Affinity palette. */
module Bytes {
  import opened Js

  type byte = b: int | 0 <= b < 256

  const TWO16: int := 0x1_0000
  const TWO32: int := 0x1_0000_0000

  /** `DataView.getUint16(i, false)`. */
  function U16BE(b: seq<byte>, i: int): (v: nat)
    requires 0 <= i && i + 2 <= |b|
    ensures v < TWO16
  {
    b[i] as int * 0x100 + b[i + 1]
  }

  /** `DataView.getUint32(i, false)`. */
  function U32BE(b: seq<byte>, i: int): (v: nat)
    requires 0 <= i && i + 4 <= |b|
    ensures v < TWO32
  {
    b[i] as int * 0x100_0000 + b[i + 1] as int * 0x1_0000 + b[i + 2] as int * 0x100 + b[i + 3]
  }

  /** `DataView.getUint32(i, true)`. */
  function U32LE(b: seq<byte>, i: int): (v: nat)
    requires 0 <= i && i + 4 <= |b|
    ensures v < TWO32
  {
    b[i + 3] as int * 0x100_0000 + b[i + 2] as int * 0x1_0000 + b[i + 1] as int * 0x100 + b[i]
  }

  lemma Split32(v: int)
    ensures var w := v % TWO32;
      w == ((v / 0x100_0000) % 0x100) * 0x100_0000 + ((v / 0x1_0000) % 0x100) * 0x1_0000
           + ((v / 0x100) % 0x100) * 0x100 + v % 0x100
  {
    var w := v % TWO32;
    var q0, r0 := v / 0x100, v % 0x100;
    var q1, r1 := q0 / 0x100, q0 % 0x100;
    var q2, r2 := q1 / 0x100, q1 % 0x100;
    var r3 := q2 % 0x100;
    assert v == q0 * 0x100 + r0;
    assert q0 == q1 * 0x100 + r1;
    assert q1 == q2 * 0x100 + r2;
    assert v / 0x1_0000 == q1;
    assert v / 0x100_0000 == q2;
    assert v == q2 * 0x100_0000 + r2 * 0x1_0000 + r1 * 0x100 + r0;
    assert q2 == (q2 / 0x100) * 0x100 + r3;
    assert v == (q2 / 0x100) * TWO32 + (r3 * 0x100_0000 + r2 * 0x1_0000 + r1 * 0x100 + r0);
  }

  /** The low 8 bits of v, as a typed-array store (`buf[k] = v`, `v & 0xFF`) keeps them. */
  function Low8(v: int): (r: byte)
    ensures (v - r) % 0x100 == 0
  {
    v % 0x100
  }

  /** Two bytes, most significant first, of the low 16 bits of v (`w16be`). */
  function BE16(v: int): (r: seq<byte>)
    ensures |r| == 2 && U16BE(r, 0) == v % TWO16
  {
    var q := v / 0x100;
    assert v % TWO16 == (q % 0x100) * 0x100 + v % 0x100;
    [q % 0x100, v % 0x100]
  }

  /** Four bytes, most significant first, of `v >>> 0` (`w32be`). */
  function BE32(v: int): (r: seq<byte>)
    ensures |r| == 4 && U32BE(r, 0) == v % TWO32
  {
    Split32(v);
    [(v / 0x100_0000) % 0x100, (v / 0x1_0000) % 0x100, (v / 0x100) % 0x100, v % 0x100]
  }

  /** Four bytes, least significant first, of the unsigned 32-bit value of v (`uint32ToBytes`). */
  function LE32(v: int): (r: seq<byte>)
    ensures |r| == 4 && U32LE(r, 0) == v % TWO32
  {
    Split32(v);
    [v % 0x100, (v / 0x100) % 0x100, (v / 0x1_0000) % 0x100, (v / 0x100_0000) % 0x100]
  }

  /** `uint64ToBytes(n)` for an integer n: the low 32 bits, then the next 32 bits, each little-endian. */
  function LE64(n: int): (r: seq<byte>)
    ensures |r| == 8
  {
    LE32(n) + LE32(n / TWO32)
  }

  /** The two words of `uint64ToBytes(n)` read back as the low and the high 32 bits of n. */
  lemma LE64Words(n: int)
    ensures U32LE(LE64(n), 0) == n % TWO32 && U32LE(LE64(n), 4) == (n / TWO32) % TWO32
  {
    var lo, hi := LE32(n), LE32(n / TWO32);
    assert LE64(n)[..4] == lo && LE64(n)[4..] == hi;
    assert U32LE(LE64(n), 4) == U32LE(hi, 0);
  }

  /** The four code units of an ASCII tag, as written by `wTag`. */
  function TagBytes(t: string): (r: seq<byte>)
    requires |t| == 4
    ensures |r| == 4
  {
    [(t[0] as int) % 0x100, (t[1] as int) % 0x100, (t[2] as int) % 0x100, (t[3] as int) % 0x100]
  }
}
