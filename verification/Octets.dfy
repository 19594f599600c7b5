/** Bytes and the little-endian integer accessors of src/libpict.h. */
module Octets {

  type byte = x: int | 0 <= x < 256
  type bytes = seq<byte>

  type u16 = x: int | 0 <= x < 0x1_0000
  type u32 = x: int | 0 <= x < 0x1_0000_0000

  function WriteU16(x: u16): (b: bytes)
    ensures |b| == 2
  {
    [x % 256, x / 256]
  }

  function WriteU32(x: u32): (b: bytes)
    ensures |b| == 4
  {
    [x % 256, x / 256 % 256, x / 0x1_0000 % 256, x / 0x100_0000]
  }

  function ReadU16(b: bytes): u16
    requires |b| >= 2
  {
    var lo: int, hi: int := b[0], b[1];
    lo + 256 * hi
  }

  function ReadU32(b: bytes): u32
    requires |b| >= 4
  {
    var b0: int, b1: int, b2: int, b3: int := b[0], b[1], b[2], b[3];
    b0 + 0x100 * b1 + 0x1_0000 * b2 + 0x100_0000 * b3
  }

  function Min(a: int, b: int): int {
    if a < b then a else b
  }

  lemma Assoc<T>(a: seq<T>, b: seq<T>, c: seq<T>)
    ensures a + (b + c) == a + b + c
  {
  }

  /** Reading back a written word gives the word, whatever follows it. */
  lemma ReadWriteU16(x: u16, rest: bytes)
    ensures ReadU16(WriteU16(x) + rest) == x
  {
  }

  /** Little-endian: the first byte weighs 1, and each further one 256 times as much. */
  function LittleEndian(b: bytes): nat {
    if b == [] then 0 else b[0] + 256 * LittleEndian(b[1..])
  }

  lemma WordsAreLittleEndian(b: bytes)
    ensures |b| == 2 ==> ReadU16(b) == LittleEndian(b)
    ensures |b| == 4 ==> ReadU32(b) == LittleEndian(b)
  {
    if |b| == 2 {
      assert LittleEndian(b[1..]) == b[1] + 256 * LittleEndian(b[1..][1..]) && b[1..][1..] == [];
    } else if |b| == 4 {
      assert b[1..][1..] == b[2..] && b[2..][1..] == b[3..] && b[3..][1..] == [];
      assert LittleEndian(b[3..]) == b[3];
      assert LittleEndian(b[2..]) == b[2] + 256 * LittleEndian(b[3..]);
      assert LittleEndian(b[1..]) == b[1] + 256 * LittleEndian(b[2..]);
    }
  }

  lemma ReadWriteU32(x: u32, rest: bytes)
    ensures ReadU32(WriteU32(x) + rest) == x
  {
    var b := WriteU32(x) + rest;
    assert b[0] == x % 256 && b[1] == x / 256 % 256 && b[2] == x / 0x1_0000 % 256 && b[3] == x / 0x100_0000;
    assert x / 256 / 256 == x / 0x1_0000 && x / 0x1_0000 / 256 == x / 0x100_0000;
  }

  /** Writing back a read word gives the bytes read: the accessors lose nothing. */
  lemma WriteReadU32(b: bytes)
    requires |b| == 4
    ensures WriteU32(ReadU32(b)) == b
  {
    var x: int, b1: int, b2: int, b3: int := ReadU32(b), b[1], b[2], b[3];
    assert x / 256 == b1 + 0x100 * b2 + 0x1_0000 * b3;
    assert x / 0x1_0000 == b2 + 0x100 * b3;
    assert x / 0x100_0000 == b3;
  }

  // ----- Bytes of arrays -----

  /** Stores a piece of memory; the rest of the array stays as it is. */
  method Store(a: array<byte>, at: nat, m: bytes)
    requires at + |m| <= a.Length
    modifies a
    ensures a[..at] == old(a[..at]) && a[at..at + |m|] == m && a[at + |m|..] == old(a[at + |m|..])
  {
    forall i | 0 <= i < |m| {
      a[at + i] := m[i];
    }
  }

  /** ptp_write_u16 */
  method PutU16(a: array<byte>, at: nat, x: u16)
    requires at + 2 <= a.Length
    modifies a
    ensures a[..at] == old(a[..at]) && a[at..at + 2] == WriteU16(x) && a[at + 2..] == old(a[at + 2..])
  {
    a[at] := x % 256;
    a[at + 1] := x / 256;
  }

  /** ptp_write_u32 */
  method PutU32(a: array<byte>, at: nat, x: u32)
    requires at + 4 <= a.Length
    modifies a
    ensures a[..at] == old(a[..at]) && a[at..at + 4] == WriteU32(x) && a[at + 4..] == old(a[at + 4..])
  {
    a[at] := x % 256;
    a[at + 1] := x / 256 % 256;
    a[at + 2] := x / 0x1_0000 % 256;
    a[at + 3] := x / 0x100_0000;
  }
}
