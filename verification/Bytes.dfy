/** Machine integers and the byte-order helpers every other module uses. */
module Bytes {
  type byte = x: int | 0 <= x < 0x100
  type uint16 = x: int | 0 <= x < 0x1_0000
  type uint32 = x: int | 0 <= x < 0x1_0000_0000
  type uint64 = x: int | 0 <= x < 0x1_0000_0000_0000_0000

  const TWO_32: int := 0x1_0000_0000
  const TWO_64: int := 0x1_0000_0000_0000_0000

  datatype Option<+T> = None | Some(value: T)

  function ReadLE16(b: seq<byte>, o: nat): uint16
    requires o + 2 <= |b|
  {
    b[o] as int + 0x100 * (b[o + 1] as int)
  }

  function ReadBE16(b: seq<byte>, o: nat): uint16
    requires o + 2 <= |b|
  {
    0x100 * (b[o] as int) + b[o + 1] as int
  }

  function ReadLE32(b: seq<byte>, o: nat): uint32
    requires o + 4 <= |b|
  {
    b[o] as int + 0x100 * (b[o + 1] as int) + 0x1_0000 * (b[o + 2] as int) + 0x100_0000 * (b[o + 3] as int)
  }

  function ReadBE32(b: seq<byte>, o: nat): uint32
    requires o + 4 <= |b|
  {
    0x100_0000 * (b[o] as int) + 0x1_0000 * (b[o + 1] as int) + 0x100 * (b[o + 2] as int) + b[o + 3] as int
  }

  function ReadLE64(b: seq<byte>, o: nat): uint64
    requires o + 8 <= |b|
  {
    ReadLE32(b, o) + TWO_32 * ReadLE32(b, o + 4)
  }

  function ReadBE64(b: seq<byte>, o: nat): uint64
    requires o + 8 <= |b|
  {
    TWO_32 * ReadBE32(b, o) + ReadBE32(b, o + 4)
  }

  /** Byte k (0 = least significant) of a value. */
  function ByteOf(x: nat, k: nat): byte
    requires k < 4
  {
    if k == 0 then x % 0x100
    else if k == 1 then x / 0x100 % 0x100
    else if k == 2 then x / 0x1_0000 % 0x100
    else x / 0x100_0000 % 0x100
  }

  function HighWord(x: uint64): uint32
  {
    x / TWO_32
  }

  function LowWord(x: uint64): uint32
  {
    x % TWO_32
  }

  function LE16(x: uint16): (r: seq<byte>)
    ensures |r| == 2
  {
    [ByteOf(x, 0), ByteOf(x, 1)]
  }

  function BE16(x: uint16): (r: seq<byte>)
    ensures |r| == 2
  {
    [ByteOf(x, 1), ByteOf(x, 0)]
  }

  function LE32(x: uint32): (r: seq<byte>)
    ensures |r| == 4
  {
    [ByteOf(x, 0), ByteOf(x, 1), ByteOf(x, 2), ByteOf(x, 3)]
  }

  function BE32(x: uint32): (r: seq<byte>)
    ensures |r| == 4
  {
    [ByteOf(x, 3), ByteOf(x, 2), ByteOf(x, 1), ByteOf(x, 0)]
  }

  function LE64(x: uint64): (r: seq<byte>)
    ensures |r| == 8
  {
    LE32(LowWord(x)) + LE32(HighWord(x))
  }

  function BE64(x: uint64): (r: seq<byte>)
    ensures |r| == 8
  {
    BE32(HighWord(x)) + BE32(LowWord(x))
  }

  /** The bytes of a value determine it ... */
  lemma Digits16(x: uint16)
    ensures x == ByteOf(x, 0) + 0x100 * ByteOf(x, 1)
  {
  }

  lemma Digits32(x: uint32)
    ensures x == ByteOf(x, 0) + 0x100 * ByteOf(x, 1) + 0x1_0000 * ByteOf(x, 2) + 0x100_0000 * ByteOf(x, 3)
  {
    hide *;
    LowByte(x);
    LowByte(x / 0x100);
    LowByte(x / 0x1_0000);
    ShiftByByte(x, 0x100);
    ShiftByByte(x, 0x1_0000);
    FourBytes(x);
  }

  lemma LowByte(x: nat)
    ensures x == x / 0x100 * 0x100 + x % 0x100
  {
  }

  lemma ShiftByByte(x: nat, m: nat)
    requires m == 0x100 || m == 0x1_0000
    ensures x / m / 0x100 == x / (m * 0x100)
  {
  }

  lemma FourBytes(x: uint32)
    ensures ByteOf(x, 0) == x % 0x100 && ByteOf(x, 1) == x / 0x100 % 0x100
    ensures ByteOf(x, 2) == x / 0x1_0000 % 0x100 && ByteOf(x, 3) == x / 0x100_0000
  {
  }

  /** ... and any four bytes are the bytes of the value they spell. */
  lemma BytesOfValue(b0: byte, b1: byte, b2: byte, b3: byte)
    ensures var x := b0 + 0x100 * b1 + 0x1_0000 * b2 + 0x100_0000 * b3;
      ByteOf(x, 0) == b0 && ByteOf(x, 1) == b1 && ByteOf(x, 2) == b2 && ByteOf(x, 3) == b3
  {
    var x := b0 + 0x100 * b1 + 0x1_0000 * b2 + 0x100_0000 * b3;
    assert x / 0x100 == b1 + 0x100 * b2 + 0x1_0000 * b3;
    assert x / 0x1_0000 == b2 + 0x100 * b3;
    assert x / 0x100_0000 == b3;
  }

  /** Reading back what was written, wherever it stands. */
  lemma ReadLE32Of(b: seq<byte>, o: nat, x: uint32)
    requires o + 4 <= |b| && b[o..o + 4] == LE32(x)
    ensures ReadLE32(b, o) == x
  {
    hide ByteOf;
    Digits32(x);
    var s := b[o..o + 4];
    assert s[0] == b[o] && s[1] == b[o + 1] && s[2] == b[o + 2] && s[3] == b[o + 3];
  }

  lemma ReadBE16Of(b: seq<byte>, o: nat, x: uint16)
    requires o + 2 <= |b| && b[o..o + 2] == BE16(x)
    ensures ReadBE16(b, o) == x
  {
    hide ByteOf;
    Digits16(x);
    var s := b[o..o + 2];
    assert s[0] == b[o] && s[1] == b[o + 1];
  }

  lemma ReadBE32Of(b: seq<byte>, o: nat, x: uint32)
    requires o + 4 <= |b| && b[o..o + 4] == BE32(x)
    ensures ReadBE32(b, o) == x
  {
    hide ByteOf;
    Digits32(x);
    var s := b[o..o + 4];
    assert s[0] == b[o] && s[1] == b[o + 1] && s[2] == b[o + 2] && s[3] == b[o + 3];
  }

  lemma ReadBE64Of(b: seq<byte>, o: nat, x: uint64)
    requires o + 8 <= |b| && b[o..o + 8] == BE64(x)
    ensures ReadBE64(b, o) == x
  {
    hide BE32, ReadBE32;
    var s := b[o..o + 8];
    assert s[..4] == b[o..o + 4] && s[4..] == b[o + 4..o + 8];
    assert BE64(x)[..4] == BE32(HighWord(x)) && BE64(x)[4..] == BE32(LowWord(x));
    ReadBE32Of(b, o, HighWord(x));
    ReadBE32Of(b, o + 4, LowWord(x));
  }

  /** The bytes at a place are the encoding of the value read there. */
  lemma WriteOfReadLE32(b: seq<byte>, o: nat)
    requires o + 4 <= |b|
    ensures LE32(ReadLE32(b, o)) == b[o..o + 4]
  {
    BytesOfValue(b[o], b[o + 1], b[o + 2], b[o + 3]);
  }

  /** A read inside a slice is a read of the whole. */
  lemma ReadLE32Slice(b: seq<byte>, lo: nat, hi: nat, o: nat)
    requires lo <= hi <= |b| && lo + o + 4 <= hi
    ensures ReadLE32(b[lo..hi], o) == ReadLE32(b, lo + o)
  {
  }

  function Zeros(n: nat): (r: seq<byte>)
    ensures |r| == n
  {
    seq(n, _ => 0)
  }

  function Flatten<T>(xs: seq<seq<T>>): seq<T>
  {
    if xs == [] then [] else xs[0] + Flatten(xs[1..])
  }

  lemma {:induction false} FlattenAppend<T>(xs: seq<seq<T>>, ys: seq<seq<T>>)
    ensures Flatten(xs + ys) == Flatten(xs) + Flatten(ys)
  {
    if xs == [] {
      assert xs + ys == ys;
    } else {
      assert (xs + ys)[1..] == xs[1..] + ys;
      FlattenAppend(xs[1..], ys);
    }
  }

  lemma FlattenSnoc<T>(xs: seq<seq<T>>, x: seq<T>)
    ensures Flatten(xs + [x]) == Flatten(xs) + x
  {
    FlattenAppend(xs, [x]);
    assert Flatten([x]) == x + Flatten<T>([]);
  }
}
