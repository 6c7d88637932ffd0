/**
 * Bytes and the two field kinds of Python's `struct` module that the
 * metadata header uses: fixed-width big-endian unsigned integers
 * (format characters `I` and `Q` under the `>` byte order) and
 * fixed-width byte strings (format character `s`).
 */
module Bytes {

  /** An octet, as Python's `bytes` holds them. */
  type byte = bv8

  /** The number of values an unsigned field of n bytes can hold. */
  function Pow256(n: nat): (r: nat)
    ensures r >= 1
  {
    if n == 0 then 1 else 256 * Pow256(n - 1)
  }

  /** n zero bytes: the NUL padding of `struct`. */
  function Zeros(n: nat): (r: seq<byte>)
    ensures |r| == n
    ensures forall i :: 0 <= i < n ==> r[i] == 0
  {
    seq(n, _ => 0)
  }

  /**
   * The n-byte big-endian encoding of v, most significant byte first: n bytes
   * that decode back to v.
   */
  function EncodeBE(v: nat, n: nat): (r: seq<byte>)
    requires v < Pow256(n)
    ensures |r| == n
    ensures DecodeBE(r) == v
  {
    if n == 0 then []
    else
      assert v / 256 < Pow256(n - 1);
      var high := EncodeBE(v / 256, n - 1);
      var r := high + [ByteOf(v % 256)];
      assert r[..n - 1] == high;
      r
  }

  /** The unsigned value a big-endian byte string denotes. */
  function DecodeBE(s: seq<byte>): (r: nat)
    ensures r < Pow256(|s|)
  {
    if s == [] then 0
    else
      var hi := DecodeBE(s[..|s| - 1]);
      assert hi * 256 + s[|s| - 1] as nat < 256 * Pow256(|s| - 1) by {
        assert hi <= Pow256(|s| - 1) - 1;
        assert hi * 256 <= (Pow256(|s| - 1) - 1) * 256;
      }
      hi * 256 + s[|s| - 1] as nat
  }

  /**
   * The byte whose value is x, built from its bits, most significant first
   * (a byte and its value as an unsigned integer are the two views Python's
   * `bytes` offers).
   */
  function ByteOf(x: nat): (b: byte)
    requires x < 256
    ensures b as nat == x
  {
    if x == 0 then 0
    else
      var high := ByteOf(x / 2);
      var low: byte := if x % 2 == 1 then 1 else 0;
      assert low as nat == x % 2;
      ShiftInBit(high, low);
      assert x == 2 * (x / 2) + x % 2;
      high * 2 + low
  }

  /** A byte is the byte of its own value. */
  lemma ByteOfValue(b: byte)
    ensures ByteOf(b as nat) == b
  {
    var c := ByteOf(b as nat);
    assert c == (c as nat) as byte;
    assert b == (b as nat) as byte;
  }

  /** Shifting a bit into a byte below 128 doubles its value and adds the bit. */
  lemma ShiftInBit(high: byte, low: byte)
    requires high as nat < 128 && low < 2
    ensures (high * 2 + low) as nat == 2 * (high as nat) + low as nat
  {
    assert high < 128;
  }

  /** Encoding a decoded byte string at its own width gives the string back. */
  lemma {:induction false} EncodeDecode(s: seq<byte>)
    ensures EncodeBE(DecodeBE(s), |s|) == s
  {
    if s != [] {
      var init, last := s[..|s| - 1], s[|s| - 1];
      EncodeDecode(init);
      DigitSplit(DecodeBE(init), last as nat);
      ByteOfValue(last);
      assert s == init + [last];
    }
  }

  /** A value with a low base-256 digit appended splits back into the two. */
  lemma DigitSplit(high: nat, low: nat)
    requires low < 256
    ensures (high * 256 + low) / 256 == high && (high * 256 + low) % 256 == low
  {
  }

  /** Two values that fit the width have equal encodings only if they are equal. */
  lemma EncodeInjective(v: nat, w: nat, n: nat)
    requires v < Pow256(n) && w < Pow256(n)
    requires EncodeBE(v, n) == EncodeBE(w, n)
    ensures v == w
  {
  }

  /**
   * A `struct` field of format `<n>s`: the string is cut to n bytes when it is
   * longer and padded with NUL bytes when it is shorter.
   */
  function PadField(s: seq<byte>, n: nat): (r: seq<byte>)
    ensures |r| == n
    ensures forall i :: 0 <= i < n ==> r[i] == if i < |s| then s[i] else 0
  {
    if |s| >= n then s[..n] else s + Zeros(n - |s|)
  }

  /** `x & 0xffffffff` for a non-negative x: the low 32 bits. */
  function Low32(x: nat): (r: nat)
    ensures r < 0x1_0000_0000
    ensures x < 0x1_0000_0000 ==> r == x
  {
    x % 0x1_0000_0000
  }
}
