/**
 * CRC-32 as computed by zlib's `crc32` (the CRC-32 of ISO/IEC 3309 and
 * IEEE 802.3 clause 3.2.9, also known as CRC-32/ISO-HDLC): reflected
 * polynomial 0xEDB88320, register preset to all ones, result inverted.
 * Defined bit by bit, one shift of the reflected register per input bit.
 */
module Crc32 {
  import opened Bytes

  const Polynomial: bv32 := 0xEDB8_8320

  /** One step of the reflected shift register. */
  function Shift(c: bv32): bv32
  {
    if c & 1 == 1 then (c >> 1) ^ Polynomial else c >> 1
  }

  /** k steps of the shift register. */
  function ShiftN(c: bv32, k: nat): bv32
    decreases k
  {
    if k == 0 then c else ShiftN(Shift(c), k - 1)
  }

  /**
   * One step of the register run backwards. The polynomial has its top bit
   * set, so the top bit of a shifted register tells whether it was added.
   */
  function Unshift(c: bv32): (r: bv32)
    ensures Shift(r) == c
  {
    if c & 0x8000_0000 != 0 then ((c ^ Polynomial) << 1) | 1 else c << 1
  }

  /** Running a step backwards undoes it: the shift register loses no information. */
  lemma UnshiftShift(c: bv32)
    ensures Unshift(Shift(c)) == c
  {
  }

  /** k steps of the register run backwards. */
  function UnshiftN(c: bv32, k: nat): bv32
    decreases k
  {
    if k == 0 then c else Unshift(UnshiftN(c, k - 1))
  }

  lemma {:induction false} UnshiftNShiftN(c: bv32, k: nat)
    ensures UnshiftN(ShiftN(c, k), k) == c
    decreases k
  {
    if k > 0 {
      UnshiftNShiftN(Shift(c), k - 1);
      UnshiftShift(c);
    }
  }

  /** Takes one byte back out of the register: eight steps backwards, then the byte removed. */
  function UndoByte(r: bv32, b: byte): bv32
  {
    UnshiftN(r, 8) ^ (b as bv32)
  }

  /** Feeds one byte, least significant bit first, into the register; UndoByte takes it back out. */
  function UpdateByte(c: bv32, b: byte): (r: bv32)
    ensures UndoByte(r, b) == c
  {
    UnshiftNShiftN(c ^ (b as bv32), 8);
    ShiftN(c ^ (b as bv32), 8)
  }

  /** Takes a byte string back out of the register, its last byte first. */
  function Undo(r: bv32, data: seq<byte>): bv32
    decreases data
  {
    if data == [] then r else UndoByte(Undo(r, data[1..]), data[0])
  }

  /** Feeds a byte string, first byte first, into the register; Undo takes it back out. */
  function Update(c: bv32, data: seq<byte>): (r: bv32)
    ensures Undo(r, data) == c
    decreases data
  {
    if data == [] then c else Update(UpdateByte(c, data[0]), data[1..])
  }

  /** `zlib.crc32(data)`: a value below 2^32. */
  function Checksum(data: seq<byte>): (r: nat)
    ensures r < 0x1_0000_0000
  {
    (Update(0xFFFF_FFFF, data) ^ 0xFFFF_FFFF) as nat
  }

  /** Feeding a + b is feeding a and then b: the register can be run piecewise. */
  lemma {:induction false} UpdateAppend(c: bv32, a: seq<byte>, b: seq<byte>)
    ensures Update(c, a + b) == Update(Update(c, a), b)
    decreases a
  {
    if a == [] {
      assert a + b == b;
    } else {
      assert (a + b)[0] == a[0] && (a + b)[1..] == a[1..] + b;
      UpdateAppend(UpdateByte(c, a[0]), a[1..], b);
    }
  }

  /** A byte fed into a register can be recovered from the new register state. */
  lemma UpdateByteInjective(c: bv32, x: byte, y: byte)
    requires UpdateByte(c, x) == UpdateByte(c, y)
    ensures x == y
  {
  }

  /** The register state before a byte string is determined by the state after it. */
  lemma {:induction false} UpdateInjective(c: bv32, d: bv32, data: seq<byte>)
    requires Update(c, data) == Update(d, data)
    ensures c == d
    decreases data
  {
    if data != [] {
      UpdateInjective(UpdateByte(c, data[0]), UpdateByte(d, data[0]), data[1..]);
    }
  }

  /** Equal checksums come from equal final register states. */
  lemma ChecksumDeterminesRegister(a: seq<byte>, b: seq<byte>)
    requires Checksum(a) == Checksum(b)
    ensures Update(0xFFFF_FFFF, a) == Update(0xFFFF_FFFF, b)
  {
    var x, y := Update(0xFFFF_FFFF, a) ^ 0xFFFF_FFFF, Update(0xFFFF_FFFF, b) ^ 0xFFFF_FFFF;
    NatOfRegister(x);
    NatOfRegister(y);
    assert x == y;
  }

  lemma NatOfRegister(x: bv32)
    ensures (x as nat) as bv32 == x
  {
  }

  /** Running the register over pre, one byte and post, one piece at a time. */
  lemma UpdateAround(c: bv32, pre: seq<byte>, x: byte, post: seq<byte>)
    ensures Update(c, pre + [x] + post) == Update(UpdateByte(Update(c, pre), x), post)
  {
    UpdateAppend(c, pre, [x] + post);
    assert pre + [x] + post == pre + ([x] + post);
    assert ([x] + post)[0] == x && ([x] + post)[1..] == post;
  }

  /**
   * Every single-byte error is detected: changing one byte of a byte string
   * changes its checksum.
   */
  lemma DetectsSingleByteError(data: seq<byte>, i: nat, y: byte)
    requires i < |data| && data[i] != y
    ensures Checksum(data[i := y]) != Checksum(data)
  {
    if Checksum(data[i := y]) == Checksum(data) {
      var pre, post := data[..i], data[i + 1..];
      Splice(data, i, y);
      var c := Update(0xFFFF_FFFF, pre);
      UpdateAround(0xFFFF_FFFF, pre, data[i], post);
      UpdateAround(0xFFFF_FFFF, pre, y, post);
      ChecksumDeterminesRegister(data[i := y], data);
      SameAfterSameByte(c, y, data[i], post);
    }
  }

  /** A byte string around its i-th byte, before and after that byte is replaced. */
  lemma Splice(data: seq<byte>, i: nat, y: byte)
    requires i < |data|
    ensures data == data[..i] + [data[i]] + data[i + 1..]
    ensures data[i := y] == data[..i] + [y] + data[i + 1..]
  {
  }

  /** Two bytes fed into the same register and followed by the same string leave the same state only if they are equal. */
  lemma SameAfterSameByte(c: bv32, x: byte, y: byte, post: seq<byte>)
    requires Update(UpdateByte(c, x), post) == Update(UpdateByte(c, y), post)
    ensures x == y
  {
    var rx, ry := UpdateByte(c, x), UpdateByte(c, y);
    UpdateInjective(rx, ry, post);
    UpdateByteInjective(c, x, y);
  }

  /**
   * The catalogue check value of CRC-32/ISO-HDLC: the checksum of the nine
   * ASCII digits "123456789" is 0xCBF43926. CheckRegisters gives the register
   * after each byte.
   */
  lemma CheckValue()
    ensures Checksum([0x31, 0x32, 0x33, 0x34, 0x35, 0x36, 0x37, 0x38, 0x39]) == 0xCBF4_3926
  {
    CheckRegisters();
    Digits();
    FeedNine(0xFFFFFFFF, 0x7C231048, 0xB0ACBB32, 0x77B79C2D, 0x641C1F5C, 0x340AC5E3,
             0xF68D2C9E, 0xAFFC9660, 0x651F2550, 0x340BC6D9,
             0x31, 0x32, 0x33, 0x34, 0x35, 0x36, 0x37, 0x38, 0x39);
  }

  /** The nine ASCII digits, one byte at a time. */
  lemma Digits()
    ensures var digits: seq<byte> := [0x31, 0x32, 0x33, 0x34, 0x35, 0x36, 0x37, 0x38, 0x39];
      digits == [0x31] + ([0x32] + ([0x33] + ([0x34] + ([0x35] + ([0x36] + ([0x37] + ([0x38] + ([0x39] + []))))))))
  {
  }

  /** The register after each of the nine digits, the i-th from the (i-1)-th. */
  lemma CheckRegisters()
    ensures ShiftN(0xFFFFFFFF ^ 0x31, 8) == 0x7C231048
    ensures ShiftN(0x7C231048 ^ 0x32, 8) == 0xB0ACBB32
    ensures ShiftN(0xB0ACBB32 ^ 0x33, 8) == 0x77B79C2D
    ensures ShiftN(0x77B79C2D ^ 0x34, 8) == 0x641C1F5C
    ensures ShiftN(0x641C1F5C ^ 0x35, 8) == 0x340AC5E3
    ensures ShiftN(0x340AC5E3 ^ 0x36, 8) == 0xF68D2C9E
    ensures ShiftN(0xF68D2C9E ^ 0x37, 8) == 0xAFFC9660
    ensures ShiftN(0xAFFC9660 ^ 0x38, 8) == 0x651F2550
    ensures ShiftN(0x651F2550 ^ 0x39, 8) == 0x340BC6D9
  {
  }

  /** Nine bytes fed one at a time, c1 to c9 the register after each. */
  lemma FeedNine(c0: bv32, c1: bv32, c2: bv32, c3: bv32, c4: bv32, c5: bv32, c6: bv32, c7: bv32, c8: bv32, c9: bv32,
                 b1: byte, b2: byte, b3: byte, b4: byte, b5: byte, b6: byte, b7: byte, b8: byte, b9: byte)
    requires ShiftN(c0 ^ b1 as bv32, 8) == c1 && ShiftN(c1 ^ b2 as bv32, 8) == c2 && ShiftN(c2 ^ b3 as bv32, 8) == c3
    requires ShiftN(c3 ^ b4 as bv32, 8) == c4 && ShiftN(c4 ^ b5 as bv32, 8) == c5 && ShiftN(c5 ^ b6 as bv32, 8) == c6
    requires ShiftN(c6 ^ b7 as bv32, 8) == c7 && ShiftN(c7 ^ b8 as bv32, 8) == c8 && ShiftN(c8 ^ b9 as bv32, 8) == c9
    ensures Update(c0, [b1] + ([b2] + ([b3] + ([b4] + ([b5] + ([b6] + ([b7] + ([b8] + ([b9] + [])))))))))
      == c9
  {
    var s9 := [b9] + [];
    var s8 := [b8] + s9;
    var s7 := [b7] + s8;
    var s6 := [b6] + s7;
    var s5 := [b5] + s6;
    var s4 := [b4] + s5;
    var s3 := [b3] + s4;
    var s2 := [b2] + s3;
    Feed(c0, b1, s2, c1);
    Feed(c1, b2, s3, c2);
    Feed(c2, b3, s4, c3);
    Feed(c3, b4, s5, c4);
    Feed(c4, b5, s6, c5);
    Feed(c5, b6, s7, c6);
    Feed(c6, b7, s8, c7);
    Feed(c7, b8, s9, c8);
    Feed(c8, b9, [], c9);
  }

  /** Feeding one byte before a string. */
  lemma Feed(c: bv32, b: byte, rest: seq<byte>, c': bv32)
    requires ShiftN(c ^ b as bv32, 8) == c'
    ensures Update(c, [b] + rest) == Update(c', rest)
  {
    assert ([b] + rest)[0] == b && ([b] + rest)[1..] == rest;
  }
}
