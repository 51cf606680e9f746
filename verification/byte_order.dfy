/**
 * The byte-order readers shared by every parser: GET_INT32BE and GET_INT16BE
 * read a big-endian integer at a cursor and advance the cursor past it;
 * CONVERT_INT32LE reads a little-endian 32-bit integer without moving it.
 *
 * A cursor is an index into the byte sequence being parsed. Bytes are the
 * integers 0..255; the source's shifts and ORs of the bytes, taken as
 * unsigned 32-bit arithmetic, are weighted sums, which Or32IsSum and
 * Or16IsSum prove on 8-bit and 32-bit vectors. (C promotes the bytes to
 * signed int, where a top byte of 0x80 or more overflows; the readers give
 * the unsigned value.) The readers' contracts give their values through the
 * reference definitions BigEndian and LittleEndian below.
 */
module ByteOrder {

  /** One byte of input, the unsigned char the parsers read. */
  type byte = b: int | 0 <= b < 256

  const Two16: nat := 0x1_0000
  const Two32: nat := 0x1_0000_0000

  /** 256 to the power n: the number of values an n-byte integer can hold. */
  function Pow256(n: nat): (p: nat)
    ensures p >= 1
  {
    if n == 0 then 1 else 256 * Pow256(n - 1)
  }

  /** The value of a byte string read most significant byte first. */
  function BigEndian(s: seq<byte>): nat
  {
    if s == [] then 0 else BigEndian(s[..|s| - 1]) * 256 + s[|s| - 1]
  }

  /** The value of a byte string read least significant byte first. */
  function LittleEndian(s: seq<byte>): nat
  {
    if s == [] then 0 else s[0] + 256 * LittleEndian(s[1..])
  }

  /** The bytes of s in the opposite order. */
  function Reversed(s: seq<byte>): (r: seq<byte>)
    ensures |r| == |s|
    ensures forall k :: 0 <= k < |s| ==> r[k] == s[|s| - 1 - k]
  {
    if s == [] then [] else Reversed(s[1..]) + [s[0]]
  }

  /** The n-byte big-endian representation of v (the low n bytes of v). */
  function EncodeBigEndian(v: nat, n: nat): (s: seq<byte>)
    ensures |s| == n
  {
    if n == 0 then [] else EncodeBigEndian(v / 256, n - 1) + [v % 256]
  }

  /** An n-byte big-endian integer is below 256^n. */
  lemma {:induction false} BigEndianBound(s: seq<byte>)
    ensures BigEndian(s) < Pow256(|s|)
  {
    if s != [] {
      var init := s[..|s| - 1];
      BigEndianBound(init);
      assert BigEndian(init) + 1 <= Pow256(|init|);
      assert (BigEndian(init) + 1) * 256 <= Pow256(|init|) * 256;
    }
  }

  /** Reading back what EncodeBigEndian wrote gives the value again. */
  lemma {:induction false} DecodeEncodeBigEndian(v: nat, n: nat)
    requires v < Pow256(n)
    ensures BigEndian(EncodeBigEndian(v, n)) == v
  {
    if n > 0 {
      var s := EncodeBigEndian(v, n);
      var q, r := v / 256, v % 256;
      assert q < Pow256(n - 1) by {
        assert Pow256(n) == 256 * Pow256(n - 1);
        DivBelow(v, Pow256(n - 1));
      }
      assert s[..|s| - 1] == EncodeBigEndian(q, n - 1);
      DecodeEncodeBigEndian(q, n - 1);
    }
  }

  /** Dividing a value below 256 * p by 256 leaves a value below p. */
  lemma DivBelow(v: nat, p: nat)
    requires v < 256 * p
    ensures v / 256 < p
  {
  }

  /** Writing back what BigEndian read gives the bytes again. */
  lemma {:induction false} EncodeDecodeBigEndian(s: seq<byte>)
    ensures EncodeBigEndian(BigEndian(s), |s|) == s
  {
    if s != [] {
      var init := s[..|s| - 1];
      var v := BigEndian(s);
      assert v / 256 == BigEndian(init);
      EncodeDecodeBigEndian(init);
      assert s == init + [s[|s| - 1]];
    }
  }

  /** Little-endian order is big-endian order of the reversed bytes. */
  lemma {:induction false} LittleEndianIsReversedBigEndian(s: seq<byte>)
    ensures LittleEndian(s) == BigEndian(Reversed(s))
  {
    if s != [] {
      var r := Reversed(s);
      assert r[..|r| - 1] == Reversed(s[1..]);
      LittleEndianIsReversedBigEndian(s[1..]);
    }
  }

  /** BigEndian unfolded on four bytes. */
  lemma BigEndian4(s: seq<byte>)
    requires |s| == 4
    ensures BigEndian(s) == s[0] as int * 0x100_0000 + s[1] as int * 0x1_0000 + s[2] as int * 0x100 + s[3]
  {
    assert s[..3][..2] == s[..2];
    assert s[..2][..1] == s[..1];
    assert s[..1][..0] == [];
    assert BigEndian(s[..1]) == s[0];
    assert BigEndian(s[..2]) == s[0] as int * 0x100 + s[1];
    assert BigEndian(s[..3]) == s[0] as int * 0x1_0000 + s[1] as int * 0x100 + s[2];
  }

  /** BigEndian unfolded on two bytes. */
  lemma BigEndian2(s: seq<byte>)
    requires |s| == 2
    ensures BigEndian(s) == s[0] as int * 0x100 + s[1]
  {
    assert s[..1][..0] == [];
    assert BigEndian(s[..1]) == s[0];
  }

  /** LittleEndian unfolded on four bytes. */
  lemma LittleEndian4(s: seq<byte>)
    requires |s| == 4
    ensures LittleEndian(s) == s[3] as int * 0x100_0000 + s[2] as int * 0x1_0000 + s[1] as int * 0x100 + s[0]
  {
    assert s[1..][1..] == s[2..];
    assert s[2..][1..] == s[3..];
    assert s[3..][1..] == [];
    assert LittleEndian(s[3..]) == s[3];
    assert LittleEndian(s[2..]) == s[2] + 0x100 * s[3] as int;
    assert LittleEndian(s[1..]) == s[1] + 0x100 * s[2] as int + 0x1_0000 * s[3] as int;
  }

  /**
   * Four bytes promoted to 32-bit words and ORed together at shifts 24, 16,
   * 8 and 0, as the readers write them, give the bytes' weighted sum.
   */
  lemma Or32IsSum(b0: bv8, b1: bv8, b2: bv8, b3: bv8)
    ensures (((b0 as bv32) << 24) | ((b1 as bv32) << 16) | ((b2 as bv32) << 8) | (b3 as bv32)) as int
            == b0 as int * 0x100_0000 + b1 as int * 0x1_0000 + b2 as int * 0x100 + b3 as int
  {
  }

  /** Two bytes ORed together at shifts 8 and 0 give their weighted sum. */
  lemma Or16IsSum(b0: bv8, b1: bv8)
    ensures (((b0 as bv32) << 8) | (b1 as bv32)) as int == b0 as int * 0x100 + b1 as int
  {
  }

  /**
   * GET_INT32BE: the big-endian 32-bit integer at the cursor; the cursor
   * moves on by exactly four bytes. The shifts and ORs are the weighted sum
   * (Or32IsSum).
   */
  method GetInt32BE(b: seq<byte>, cursor: nat) returns (i: nat, next: nat)
    requires cursor + 4 <= |b|
    ensures next == cursor + 4
    ensures i == BigEndian(b[cursor..next])
    ensures i < Two32
  {
    i := b[cursor] as int * 0x100_0000 + b[cursor + 1] as int * 0x1_0000 + b[cursor + 2] as int * 0x100 + b[cursor + 3];
    next := cursor + 4;
    BigEndian4(b[cursor..next]);
  }

  /**
   * GET_INT16BE: the big-endian 16-bit integer at the cursor; the cursor
   * moves on by exactly two bytes (Or16IsSum for the shift and OR).
   */
  method GetInt16BE(b: seq<byte>, cursor: nat) returns (i: nat, next: nat)
    requires cursor + 2 <= |b|
    ensures next == cursor + 2
    ensures i == BigEndian(b[cursor..next])
    ensures i < Two16
  {
    i := b[cursor] as int * 0x100 + b[cursor + 1];
    next := cursor + 2;
    BigEndian2(b[cursor..next]);
  }

  /**
   * CONVERT_INT32LE: the little-endian 32-bit integer at the cursor, which is
   * the big-endian reading of the same four bytes reversed. Being a value,
   * it leaves the cursor where it was.
   */
  function ConvertInt32LE(b: seq<byte>, cursor: nat): (i: nat)
    requires cursor + 4 <= |b|
    ensures i == LittleEndian(b[cursor..cursor + 4])
    ensures i == BigEndian(Reversed(b[cursor..cursor + 4]))
    ensures i < Two32
  {
    LittleEndian4(b[cursor..cursor + 4]);
    LittleEndianIsReversedBigEndian(b[cursor..cursor + 4]);
    b[cursor + 3] as int * 0x100_0000 + b[cursor + 2] as int * 0x1_0000 + b[cursor + 1] as int * 0x100 + b[cursor]
  }

  /** The four big-endian bytes of a 32-bit value, as a writer lays them out. */
  function EncodeInt32BE(v: nat): (s: seq<byte>)
    requires v < Two32
    ensures |s| == 4
  {
    EncodeBigEndian(v, 4)
  }

  /**
   * Round trip: a 32-bit value written as four big-endian bytes is read back
   * by GET_INT32BE (whose result is BigEndian of those bytes) unchanged, and
   * four bytes read and written again are the same bytes.
   */
  lemma Int32BERoundTrip(v: nat, s: seq<byte>)
    requires v < Two32
    requires |s| == 4
    ensures BigEndian(EncodeInt32BE(v)) == v
    ensures BigEndian(s) < Two32
    ensures EncodeInt32BE(BigEndian(s)) == s
  {
    assert Pow256(4) == Two32;
    DecodeEncodeBigEndian(v, 4);
    EncodeDecodeBigEndian(s);
    BigEndianBound(s);
  }

  /** Round trip for the 16-bit reader GET_INT16BE. */
  lemma Int16BERoundTrip(v: nat, s: seq<byte>)
    requires v < Two16
    requires |s| == 2
    ensures BigEndian(EncodeBigEndian(v, 2)) == v
    ensures BigEndian(s) < Two16
    ensures EncodeBigEndian(BigEndian(s), 2) == s
  {
    assert Pow256(2) == Two16;
    DecodeEncodeBigEndian(v, 2);
    EncodeDecodeBigEndian(s);
    BigEndianBound(s);
  }
}
