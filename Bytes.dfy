/** Bytes, the big-endian integer helpers and buffer concatenation of wpls.js.

    JavaScript's bitwise operators first reduce their operand to a signed 32-bit
    integer (its value modulo 2^32, read in two's complement).  `(v >> k) & 0xff`
    therefore picks bits k..k+7 of that pattern, which for every integer v is
    `(v / 2^k) % 256` with Dafny's Euclidean division; the byte lists below are
    written that way and hold for any integer argument. */
module Bytes {

  type byte = x: int | 0 <= x < 0x100
  type uint16 = x: int | 0 <= x < 0x1_0000
  type uint32 = x: int | 0 <= x < 0x1_0000_0000

  const TWO_16: int := 0x1_0000
  const TWO_24: int := 0x100_0000
  const TWO_31: int := 0x8000_0000
  const TWO_32: int := 0x1_0000_0000

  /** The two bytes `writeUInt16BE` stores for `value`: bits 8..15, then bits 0..7. */
  function BE16(value: int): (s: seq<byte>)
  {
    [(value / 0x100) % 0x100, value % 0x100]
  }

  /** The four bytes `writeUInt32BE` stores for `value`, most significant first. */
  function BE32(value: int): (s: seq<byte>)
  {
    [(value / TWO_24) % 0x100, (value / TWO_16) % 0x100, (value / 0x100) % 0x100, value % 0x100]
  }

  /** `buf[i]` as the shift and or operators see it: a read past the end is
      `undefined`, which they treat as 0. */
  function At(buf: seq<byte>, i: nat): (b: byte)
    ensures i < |buf| ==> b == buf[i]
    ensures i >= |buf| ==> b == 0
  {
    if i < |buf| then buf[i] else 0
  }

  /** The unsigned value of the `n` bytes at `offset`, most significant
      first, each read as `At` reads it. */
  function BigEndian(buf: seq<byte>, offset: nat, n: nat): nat
  {
    if n == 0 then 0 else BigEndian(buf, offset, n - 1) * 0x100 + At(buf, offset + n - 1)
  }

  /** Two and four bytes, written out. */
  lemma BigEndianDigits(buf: seq<byte>, offset: nat)
    ensures BigEndian(buf, offset, 2) == At(buf, offset) as int * 0x100 + At(buf, offset + 1)
    ensures BigEndian(buf, offset, 4) == At(buf, offset) as int * TWO_24 + At(buf, offset + 1) as int * TWO_16 + At(buf, offset + 2) as int * 0x100 + At(buf, offset + 3)
  {
    assert BigEndian(buf, offset, 1) == At(buf, offset);
    assert BigEndian(buf, offset, 3) == BigEndian(buf, offset, 2) * 0x100 + At(buf, offset + 2);
  }

  /** `readUInt16BE`: `(b0 << 8) | b1`, an unsigned 16-bit value. */
  function ReadUInt16BE(buf: seq<byte>, offset: nat): (v: int)
    ensures 0 <= v < TWO_16
  {
    BigEndianDigits(buf, offset);
    BigEndian(buf, offset, 2)
  }

  /** When both bytes are present they are exactly what `writeUInt16BE` stores
      for the value read. */
  lemma ReadUInt16BEFacts(buf: seq<byte>, offset: nat)
    requires offset + 2 <= |buf|
    ensures BE16(ReadUInt16BE(buf, offset)) == buf[offset..offset + 2]
  {
    BigEndianDigits(buf, offset);
  }

  /** JavaScript's reading of a 32-bit pattern as a signed integer. */
  function ToInt32(u: int): int
  {
    if u < TWO_31 then u else u - TWO_32
  }

  /** `readUInt32BE`: `(b0 << 24) | (b1 << 16) | (b2 << 8) | b3`. */
  function ReadUInt32BE(buf: seq<byte>, offset: nat): int
  {
    ToInt32(BigEndian(buf, offset, 4))
  }

  /** Because `<< 24` yields a signed 32-bit result, the value read is negative
      exactly when the first byte has its top bit set; when the four bytes are
      present they are what `writeUInt32BE` stores for the value read. */
  lemma ReadUInt32BEFacts(buf: seq<byte>, offset: nat)
    ensures var v := ReadUInt32BE(buf, offset);
      && -TWO_31 <= v < TWO_31
      && (v < 0 <==> At(buf, offset) >= 0x80)
      && (offset + 4 <= |buf| ==> BE32(v) == buf[offset..offset + 4])
  {
    var b0, b1, b2, b3 := At(buf, offset) as int, At(buf, offset + 1) as int, At(buf, offset + 2) as int, At(buf, offset + 3) as int;
    var u := b0 * TWO_24 + b1 * TWO_16 + b2 * 0x100 + b3;
    BigEndianDigits(buf, offset);
    BytesOfPattern(b0, b1, b2, b3, if u < TWO_31 then 0 else 1);
  }

  /** The bytes stored for a 32-bit pattern, read as unsigned (t == 0) or as
      the negative value 2^32 below it (t == 1), are the pattern's bytes. */
  lemma BytesOfPattern(b0: byte, b1: byte, b2: byte, b3: byte, t: int)
    requires t == 0 || t == 1
    ensures BE32(b0 * TWO_24 + b1 * TWO_16 + b2 * 0x100 + b3 - t * TWO_32) == [b0, b1, b2, b3]
  {
    var v := b0 * TWO_24 + b1 * TWO_16 + b2 * 0x100 + b3 - t * TWO_32;
    var h := b0 - t * 0x100;
    assert v == h * TWO_24 + b1 * TWO_16 + b2 * 0x100 + b3;
    assert v / 0x100 == h * TWO_16 + b1 * 0x100 + b2;
    assert v % 0x100 == b3;
    assert v / TWO_16 == h * 0x100 + b1;
    assert (v / 0x100) % 0x100 == b2;
    assert v / TWO_24 == h;
    assert (v / TWO_16) % 0x100 == b1;
    assert h % 0x100 == b0;
  }

  /** Only the low 16 bits of a value reach its `BE16` bytes. */
  lemma BE16Mod(v: int)
    ensures BE16(v) == BE16(v % TWO_16)
  {
    var q, r := v / TWO_16, v % TWO_16;
    assert v == q * TWO_16 + r;
    assert v / 0x100 == q * 0x100 + r / 0x100;
  }

  /** Only the low 32 bits of a value reach its `BE32` bytes. */
  lemma BE32Mod(v: int)
    ensures BE32(v) == BE32(v % TWO_32)
  {
    var q, r := v / TWO_32, v % TWO_32;
    assert v == q * TWO_32 + r;
    assert (v / TWO_24) % 0x100 == (r / TWO_24) % 0x100 by {
      DivOfMultiple(q * 0x100, TWO_24, r);
      ShiftedByte(q, r / TWO_24);
    }
    assert (v / TWO_16) % 0x100 == (r / TWO_16) % 0x100 by {
      DivOfMultiple(q * TWO_16, TWO_16, r);
      ShiftedByte(q * 0x100, r / TWO_16);
    }
    assert (v / 0x100) % 0x100 == (r / 0x100) % 0x100 by {
      DivOfMultiple(q * TWO_24, 0x100, r);
      ShiftedByte(q * TWO_16, r / 0x100);
    }
    assert v % 0x100 == r % 0x100 by {
      ShiftedByte(q * TWO_24, r);
    }
  }

  /** Dividing `a * k + r` by a shift `k` divides `r` alone and adds `a`. */
  lemma DivOfMultiple(a: int, k: int, r: int)
    requires k == 0x100 || k == TWO_16 || k == TWO_24
    ensures (a * k + r) / k == a + r / k
  {
    if k == 0x100 {
      assert a * 0x100 + r == (a + r / 0x100) * 0x100 + r % 0x100;
    } else if k == TWO_16 {
      assert a * TWO_16 + r == (a + r / TWO_16) * TWO_16 + r % TWO_16;
    } else {
      assert a * TWO_24 + r == (a + r / TWO_24) * TWO_24 + r % TWO_24;
    }
  }

  /** Adding a multiple of 256 does not change the low byte. */
  lemma ShiftedByte(m: int, x: int)
    ensures (m * 0x100 + x) % 0x100 == x % 0x100
  {
    assert m * 0x100 + x == (m + x / 0x100) * 0x100 + x % 0x100;
  }

  /** The value whose `BE32` bytes are `s` in the range 0 .. 2^32 - 1. */
  lemma BE32Digits(v: int)
    requires 0 <= v < TWO_32
    ensures var s := BE32(v); s[0] as int * TWO_24 + s[1] as int * TWO_16 + s[2] as int * 0x100 + s[3] as int == v
  {
    var q1 := v / 0x100;
    var q2 := q1 / 0x100;
    var q3 := q2 / 0x100;
    assert v == q1 * 0x100 + v % 0x100;
    assert q1 == q2 * 0x100 + q1 % 0x100;
    assert q2 == q3 * 0x100 + q2 % 0x100;
    assert q2 == v / TWO_16;
    assert q3 == v / TWO_24;
    assert q3 < 0x100;
  }

  /** Reading back what `writeUInt16BE` stored returns the value, for every
      unsigned 16-bit value. */
  lemma {:induction false} ReadUInt16BEOfWritten(buf: seq<byte>, offset: nat, v: int)
    requires offset + 2 <= |buf| && 0 <= v < TWO_16
    requires buf[offset..offset + 2] == BE16(v)
    ensures ReadUInt16BE(buf, offset) == v
  {
    BigEndianDigits(buf, offset);
    assert buf[offset] == BE16(v)[0] && buf[offset + 1] == BE16(v)[1];
    assert v == (v / 0x100) * 0x100 + v % 0x100;
  }

  /** Reading back what `writeUInt32BE` stored returns the value when it is below
      2^31 ... */
  lemma {:induction false} ReadUInt32BEOfWritten(buf: seq<byte>, offset: nat, v: int)
    requires offset + 4 <= |buf| && 0 <= v < TWO_31
    requires buf[offset..offset + 4] == BE32(v)
    ensures ReadUInt32BE(buf, offset) == v
  {
    BE32Digits(v);
    BigEndianDigits(buf, offset);
    var s := BE32(v);
    assert buf[offset] == s[0] && buf[offset + 1] == s[1] && buf[offset + 2] == s[2] && buf[offset + 3] == s[3];
  }

  /** ... and a value from 2^31 up comes back negative, shifted by 2^32. */
  lemma {:induction false} ReadUInt32BEOfWrittenHigh(buf: seq<byte>, offset: nat, v: int)
    requires offset + 4 <= |buf| && TWO_31 <= v < TWO_32
    requires buf[offset..offset + 4] == BE32(v)
    ensures ReadUInt32BE(buf, offset) == v - TWO_32
  {
    BE32Digits(v);
    BigEndianDigits(buf, offset);
    var s := BE32(v);
    assert buf[offset] == s[0] && buf[offset + 1] == s[1] && buf[offset + 2] == s[2] && buf[offset + 3] == s[3];
  }

  /** Reading back what `writeUInt16BE` stored for any value gives its low
      16 bits. */
  lemma ReadUInt16BEOfMasked(buf: seq<byte>, offset: nat, v: int)
    requires offset + 2 <= |buf| && buf[offset..offset + 2] == BE16(v)
    ensures ReadUInt16BE(buf, offset) == v % TWO_16
  {
    BE16Mod(v);
    ReadUInt16BEOfWritten(buf, offset, v % TWO_16);
  }

  /** Every signed 32-bit value comes back unchanged: a negative one is
      written as its two's-complement bytes and read back negative. */
  lemma ReadUInt32BEOfInt32(buf: seq<byte>, offset: nat, v: int)
    requires offset + 4 <= |buf| && -TWO_31 <= v < TWO_31
    requires buf[offset..offset + 4] == BE32(v)
    ensures ReadUInt32BE(buf, offset) == v
  {
    if v >= 0 {
      ReadUInt32BEOfWritten(buf, offset, v);
    } else {
      BE32Mod(v);
      ReadUInt32BEOfWrittenHigh(buf, offset, v + TWO_32);
    }
  }

  /** `writeUInt16BE(buf, offset, value)`: stores the two bytes in place and
      leaves every other byte of the buffer as it was. */
  method WriteUInt16BE(buf: array<byte>, offset: nat, value: int)
    requires offset + 2 <= buf.Length
    modifies buf
    ensures buf[..] == old(buf[..offset]) + BE16(value) + old(buf[offset + 2..])
  {
    buf[offset] := (value / 0x100) % 0x100;
    buf[offset + 1] := value % 0x100;
  }

  /** `writeUInt32BE(buf, offset, value)`: stores the four bytes in place and
      leaves every other byte of the buffer as it was. */
  method WriteUInt32BE(buf: array<byte>, offset: nat, value: int)
    requires offset + 4 <= buf.Length
    modifies buf
    ensures buf[..] == old(buf[..offset]) + BE32(value) + old(buf[offset + 4..])
  {
    buf[offset] := (value / TWO_24) % 0x100;
    buf[offset + 1] := (value / TWO_16) % 0x100;
    buf[offset + 2] := (value / 0x100) % 0x100;
    buf[offset + 3] := value % 0x100;
  }

  /** A slice of a slice is a slice of the whole. */
  lemma SliceOfSlice(buf: seq<byte>, a: nat, b: nat, i: nat, j: nat)
    requires a <= b <= |buf| && i <= j <= b - a
    ensures buf[a..b][i..j] == buf[a + i..a + j]
  {
    assert forall k :: 0 <= k < j - i ==> buf[a..b][i..j][k] == buf[a + i + k];
  }

  /** When the bytes from `offset` on are `a` then `b`, `a` sits at `offset`
      and `b` right after it. */
  lemma SplitAt(buf: seq<byte>, offset: nat, a: seq<byte>, b: seq<byte>)
    requires offset <= |buf| && buf[offset..] == a + b
    ensures offset + |a| <= |buf| && buf[offset..offset + |a|] == a && buf[offset + |a|..] == b
  {
    assert forall k :: 0 <= k < |a| ==> buf[offset..offset + |a|][k] == buf[offset..][k];
    assert buf[offset + |a|..] == buf[offset..][|a|..];
    assert (a + b)[|a|..] == b;
  }

  /** The parts laid end to end. */
  function Flatten(parts: seq<seq<byte>>): (out: seq<byte>)
  {
    if |parts| == 0 then [] else Flatten(parts[..|parts| - 1]) + parts[|parts| - 1]
  }

  /** The sum of the lengths of the parts. */
  function TotalLength(parts: seq<seq<byte>>): nat
  {
    if |parts| == 0 then 0 else TotalLength(parts[..|parts| - 1]) + |parts[|parts| - 1]|
  }

  lemma {:induction false} FlattenLength(parts: seq<seq<byte>>)
    ensures |Flatten(parts)| == TotalLength(parts)
  {
    if |parts| > 0 {
      FlattenLength(parts[..|parts| - 1]);
    }
  }

  /** One more part is laid after the others. */
  lemma FlattenSnoc(parts: seq<seq<byte>>, p: seq<byte>)
    ensures Flatten(parts + [p]) == Flatten(parts) + p
  {
    assert (parts + [p])[..|parts|] == parts;
  }

  /** Three parts laid end to end. */
  lemma FlattenThree(a: seq<byte>, b: seq<byte>, c: seq<byte>)
    ensures Flatten([a, b, c]) == a + (b + c)
  {
    FlattenSnoc([], a);
    FlattenSnoc([a], b);
    FlattenSnoc([a, b], c);
    assert [] + [a] == [a] && [a] + [b] == [a, b] && [a, b] + [c] == [a, b, c];
  }

  /** `concatBuffers(arr)`: sums the lengths, allocates the output and copies
      each part at its running offset. */
  method ConcatBuffers(parts: seq<seq<byte>>) returns (out: seq<byte>)
    ensures out == Flatten(parts)
  {
    var total := 0;
    var k := 0;
    while k < |parts|
      invariant k <= |parts|
      invariant total == TotalLength(parts[..k])
    {
      assert parts[..k + 1][..k] == parts[..k];
      total := total + |parts[k]|;
      k := k + 1;
    }
    assert parts[..k] == parts;
    FlattenLength(parts);
    var buf := new byte[total];
    var offset := 0;
    k := 0;
    while k < |parts|
      invariant k <= |parts|
      invariant offset == |Flatten(parts[..k])| <= total
      invariant buf[..offset] == Flatten(parts[..k])
    {
      assert parts[..k + 1][..k] == parts[..k];
      FlattenLength(parts[..k + 1]);
      FlattenPrefixLength(parts, k + 1);
      var part := parts[k];
      CopyAt(buf, offset, part);
      offset := offset + |part|;
      k := k + 1;
    }
    assert parts[..k] == parts;
    out := buf[..];
  }

  /** `out.set(part, offset)`: copies the part to `offset`, keeping the bytes
      before it. */
  method CopyAt(buf: array<byte>, offset: nat, part: seq<byte>)
    requires offset + |part| <= buf.Length
    modifies buf
    ensures buf[..offset + |part|] == old(buf[..offset]) + part
  {
    for j := 0 to |part|
      invariant buf[..offset] == old(buf[..offset])
      invariant buf[offset..offset + j] == part[..j]
    {
      buf[offset + j] := part[j];
      assert buf[offset..offset + j + 1] == buf[offset..offset + j] + [part[j]];
    }
    assert buf[..offset + |part|] == buf[..offset] + buf[offset..offset + |part|];
  }

  lemma {:induction false} FlattenPrefixLength(parts: seq<seq<byte>>, k: nat)
    requires k <= |parts|
    ensures |Flatten(parts[..k])| <= |Flatten(parts)|
    decreases |parts| - k
  {
    if k < |parts| {
      FlattenPrefixLength(parts, k + 1);
      assert parts[..k + 1][..k] == parts[..k];
    } else {
      assert parts[..k] == parts;
    }
  }
}
