/**
 * The two fixed-layout headers the raw AAC parser decodes: the ten-byte ID3v2
 * tag header that may precede the audio (ID3v2.4.0 structure document,
 * section 3.1, with the synchsafe size of section 6.2), and the first six
 * bytes of an ADTS frame header (adts_fixed_header and adts_variable_header,
 * ISO/IEC 13818-7 subclause 6.2), from which the parser takes the profile,
 * the sampling-frequency index, the channel configuration and the frame
 * length. Each decoder has an encoder beside it and round-trip lemmas.
 *
 * Bit fields are read arithmetically (a right shift is a division, a mask of
 * low bits a remainder); the lemmas on 8-bit vectors in each part prove that
 * the source's masks and shifts compute the same values.
 */
module AacHeaders {
  import opened Wrappers
  import opened ByteOrder

  // ---------------------------------------------------------------------
  // ID3v2 tag header
  // ---------------------------------------------------------------------

  /** Bytes in an ID3v2 header, and in its optional footer. */
  const Id3HeaderBytes: nat := 10
  /** The tag identifier "ID3" in ASCII. */
  const Id3Magic: seq<byte> := [0x49, 0x44, 0x33]
  /** One more than the largest 28-bit synchsafe value. */
  const Two28: nat := 0x1000_0000

  /** A recognised ID3v2 header: its version bytes, its flags and the whole tag's length. */
  datatype Id3Header = Id3Header(major: byte, revision: byte, flags: byte, tagSize: nat)

  /** Whether the flags announce a footer: bit 4 (0x10) of the flags byte is set. */
  predicate HasFooter(flags: byte): (r: bool)
    ensures r <==> 0x10 <= flags % 0x20
  {
    (flags / 0x10) % 2 == 1
  }

  /** HasFooter is the source's test of the flags against the mask 0x10. */
  lemma FooterFlagMask(flags: bv8)
    ensures HasFooter(flags as int) <==> flags & 0x10 != 0
  {
    assert flags & 0x10 != 0 <==> (flags >> 4) & 0x1 == 1;
    LowBit(flags >> 4);
    ShiftRightFour(flags);
  }

  /** A right shift by four divides a byte by 16. */
  lemma ShiftRightFour(b: bv8)
    ensures (b >> 4) as int == b as int / 16
  {
  }

  /**
   * The 28-bit synchsafe integer held in four bytes whose top bits are clear.
   * The source adds the bytes shifted left by 21, 14 and 7 as C ints, which
   * neither overflow nor overlap here, so the shifts are multiplications.
   */
  function Synchsafe(b6: byte, b7: byte, b8: byte, b9: byte): (n: nat)
    requires b6 < 0x80 && b7 < 0x80 && b8 < 0x80 && b9 < 0x80
    ensures n < Two28
  {
    b6 as int * 0x20_0000 + b7 as int * 0x4000 + b8 as int * 0x80 + b9
  }

  /** Division with remainder by a positive divisor has a unique quotient and remainder. */
  lemma DivModOf(n: int, d: int, q: int, r: int)
    requires d > 0 && 0 <= r < d && n == q * d + r
    ensures n / d == q && n % d == r
  {
    var q0, r0 := n / d, n % d;
    assert (q - q0) * d == r0 - r;
    OnlyZeroMultipleSmall(q - q0, d);
  }

  /** The only multiple of a positive d strictly between -d and d is zero. */
  lemma OnlyZeroMultipleSmall(k: int, d: int)
    requires d > 0 && -d < k * d < d
    ensures k == 0
  {
    if k >= 1 {
      MultipleAtLeast(k, d);
    } else if k <= -1 {
      MultipleAtLeast(-k, d);
    }
  }

  /** A positive multiple of a positive d is at least d. */
  lemma MultipleAtLeast(k: int, d: int)
    requires d > 0 && k >= 1
    ensures k * d >= d
  {
  }

  /** A 28-bit value is the sum of its four seven-bit digits. */
  lemma SynchsafeDigits(n: nat)
    requires n < Two28
    ensures n == Synchsafe((n / 0x20_0000) % 0x80, (n / 0x4000) % 0x80, (n / 0x80) % 0x80, n % 0x80)
  {
    var a := n / 0x80;
    var b := a / 0x80;
    var c := b / 0x80;
    DivModOf(n, 0x80, a, n % 0x80);
    DivModOf(a, 0x80, b, a % 0x80);
    DivModOf(b, 0x80, c, b % 0x80);
    DivModOf(n, 0x4000, b, (a % 0x80) * 0x80 + n % 0x80);
    DivModOf(n, 0x20_0000, c, (b % 0x80) * 0x4000 + (a % 0x80) * 0x80 + n % 0x80);
    assert c < 0x80;
    DivModOf(c, 0x80, 0, c);
  }

  /** Four seven-bit digits are recovered from their weighted sum. */
  lemma SynchsafeUndigits(b6: byte, b7: byte, b8: byte, b9: byte)
    requires b6 < 0x80 && b7 < 0x80 && b8 < 0x80 && b9 < 0x80
    ensures var n := Synchsafe(b6, b7, b8, b9);
            n % 0x80 == b9 && (n / 0x80) % 0x80 == b8
            && (n / 0x4000) % 0x80 == b7 && (n / 0x20_0000) % 0x80 == b6
  {
    var n := Synchsafe(b6, b7, b8, b9);
    var a := b6 as int * 0x4000 + b7 as int * 0x80 + b8;
    var b := b6 as int * 0x80 + b7;
    DivModOf(n, 0x80, a, b9);
    DivModOf(a, 0x80, b, b8);
    DivModOf(n, 0x4000, b, b8 as int * 0x80 + b9);
    DivModOf(b, 0x80, b6, b7);
    DivModOf(n, 0x20_0000, b6, b7 as int * 0x4000 + b8 as int * 0x80 + b9);
    DivModOf(b6, 0x80, 0, b6);
  }

  /** The four synchsafe bytes of a 28-bit value: seven bits per byte, high bit clear. */
  function EncodeSynchsafe(n: nat): (s: seq<byte>)
    requires n < Two28
    ensures |s| == 4
    ensures forall k :: 0 <= k < 4 ==> s[k] < 0x80
  {
    [(n / 0x20_0000) % 0x80, (n / 0x4000) % 0x80, (n / 0x80) % 0x80, n % 0x80]
  }

  /** Synchsafe decoding undoes synchsafe encoding. */
  lemma SynchsafeDecodeEncode(n: nat)
    requires n < Two28
    ensures var e := EncodeSynchsafe(n); Synchsafe(e[0], e[1], e[2], e[3]) == n
  {
    SynchsafeDigits(n);
  }

  /** Synchsafe encoding undoes synchsafe decoding. */
  lemma SynchsafeEncodeDecode(s: seq<byte>)
    requires |s| == 4 && s[0] < 0x80 && s[1] < 0x80 && s[2] < 0x80 && s[3] < 0x80
    ensures EncodeSynchsafe(Synchsafe(s[0], s[1], s[2], s[3])) == s
  {
    SynchsafeUndigits(s[0], s[1], s[2], s[3]);
  }

  /**
   * The ID3 check of get_aacinfo: the first three bytes are "ID3", neither
   * version byte is 0xFF and the four size bytes are below 0x80.
   */
  predicate IsId3Header(h: seq<byte>): (r: bool)
    requires |h| >= Id3HeaderBytes
    ensures r <==> h[..3] == Id3Magic && h[3] != 0xFF && h[4] != 0xFF
                   && forall k :: 6 <= k < Id3HeaderBytes ==> h[k] < 0x80
  {
    h[0] == Id3Magic[0] && h[1] == Id3Magic[1] && h[2] == Id3Magic[2]
    && h[3] < 0xFF && h[4] < 0xFF
    && h[6] < 0x80 && h[7] < 0x80 && h[8] < 0x80 && h[9] < 0x80
  }

  /**
   * The length of a whole tag whose body is bodySize bytes: the ten header
   * bytes, the body, and ten footer bytes when there is a footer.
   */
  function TagLength(bodySize: nat, footer: bool): (n: nat)
    requires bodySize < Two28
    ensures Id3HeaderBytes <= n <= Id3HeaderBytes + (Two28 - 1) + Id3HeaderBytes
    ensures n - bodySize == (if footer then 2 * Id3HeaderBytes else Id3HeaderBytes)
  {
    Id3HeaderBytes + bodySize + (if footer then Id3HeaderBytes else 0)
  }

  /**
   * The header at the start of the input, if it passes the ID3 check, with
   * the tag's total length: the bytes the parser skips before the audio.
   */
  function ParseId3Header(h: seq<byte>): (r: Option<Id3Header>)
    requires |h| >= Id3HeaderBytes
    ensures r.Some? <==> IsId3Header(h)
    ensures r.Some? ==> r.value.major == h[3] && r.value.revision == h[4] && r.value.flags == h[5]
    ensures r.Some? ==> Id3HeaderBytes <= r.value.tagSize <= Id3HeaderBytes + (Two28 - 1) + Id3HeaderBytes
  {
    if IsId3Header(h) then
      Some(Id3Header(h[3], h[4], h[5], TagLength(Synchsafe(h[6], h[7], h[8], h[9]), HasFooter(h[5]))))
    else
      None
  }

  /** The ten header bytes a tag writer emits for a tag body of the given size. */
  function EncodeId3Header(major: byte, revision: byte, flags: byte, bodySize: nat): (h: seq<byte>)
    requires bodySize < Two28
    ensures |h| == Id3HeaderBytes
  {
    Id3Magic + [major, revision, flags] + EncodeSynchsafe(bodySize)
  }

  /**
   * Round trip: a header written for a body of size n (any version other than
   * 0xFF) is recognised, with tag size 10 + n, plus 10 with a footer; and a
   * recognised header is exactly what the writer emits for its fields.
   */
  lemma Id3HeaderRoundTrip(major: byte, revision: byte, flags: byte, bodySize: nat, h: seq<byte>)
    requires major < 0xFF && revision < 0xFF && bodySize < Two28
    requires |h| >= Id3HeaderBytes
    ensures ParseId3Header(EncodeId3Header(major, revision, flags, bodySize))
            == Some(Id3Header(major, revision, flags,
                              Id3HeaderBytes + bodySize + (if HasFooter(flags) then Id3HeaderBytes else 0)))
    ensures ParseId3Header(h).Some? ==>
              EncodeId3Header(h[3], h[4], h[5], Synchsafe(h[6], h[7], h[8], h[9])) == h[..Id3HeaderBytes]
  {
    Id3HeaderParsesWritten(major, revision, flags, bodySize);
    if ParseId3Header(h).Some? {
      Id3HeaderWritesParsed(h);
    }
  }

  /** The first half of Id3HeaderRoundTrip: a written header parses back. */
  lemma Id3HeaderParsesWritten(major: byte, revision: byte, flags: byte, bodySize: nat)
    requires major < 0xFF && revision < 0xFF && bodySize < Two28
    ensures ParseId3Header(EncodeId3Header(major, revision, flags, bodySize))
            == Some(Id3Header(major, revision, flags, TagLength(bodySize, HasFooter(flags))))
  {
    var ss := EncodeSynchsafe(bodySize);
    SynchsafeDecodeEncode(bodySize);
    assert Synchsafe(ss[0], ss[1], ss[2], ss[3]) == bodySize;
    HeaderWithSizeBytes(major, revision, flags, ss);
    assert EncodeId3Header(major, revision, flags, bodySize) == Id3Magic + [major, revision, flags] + ss;
  }

  /** A header laid out from version bytes, flags and four seven-bit size bytes parses back. */
  lemma HeaderWithSizeBytes(major: byte, revision: byte, flags: byte, ss: seq<byte>)
    requires major < 0xFF && revision < 0xFF
    requires |ss| == 4 && ss[0] < 0x80 && ss[1] < 0x80 && ss[2] < 0x80 && ss[3] < 0x80
    ensures ParseId3Header(Id3Magic + [major, revision, flags] + ss)
            == Some(Id3Header(major, revision, flags,
                              TagLength(Synchsafe(ss[0], ss[1], ss[2], ss[3]), HasFooter(flags))))
  {
    var e := Id3Magic + [major, revision, flags] + ss;
    assert e[3] == major && e[4] == revision && e[5] == flags;
    assert e[6] == ss[0] && e[7] == ss[1] && e[8] == ss[2] && e[9] == ss[3];
    assert IsId3Header(e);
  }

  /** The second half of Id3HeaderRoundTrip: a parsed header is what the writer emits. */
  lemma Id3HeaderWritesParsed(h: seq<byte>)
    requires |h| >= Id3HeaderBytes && ParseId3Header(h).Some?
    ensures EncodeId3Header(h[3], h[4], h[5], Synchsafe(h[6], h[7], h[8], h[9])) == h[..Id3HeaderBytes]
  {
    var sz := h[6..10];
    SynchsafeEncodeDecode(sz);
    var e := EncodeId3Header(h[3], h[4], h[5], Synchsafe(h[6], h[7], h[8], h[9]));
    assert e[6..] == sz;
    assert forall k :: 0 <= k < Id3HeaderBytes ==> e[k] == h[k];
  }

  // ---------------------------------------------------------------------
  // ADTS frame header
  // ---------------------------------------------------------------------

  /** Bytes of an ADTS header that aac_parse_adts reads. */
  const AdtsHeaderBytes: nat := 6
  /** One more than the largest 13-bit frame_length. */
  const Two13: nat := 0x2000

  /**
   * The fields aac_parse_adts takes from an ADTS header: profile (2 bits),
   * sampling_frequency_index (4 bits), channel_configuration (3 bits) and
   * frame_length (13 bits, the whole frame including its header).
   */
  datatype AdtsHeader = AdtsHeader(profile: nat, sampleRateIndex: nat, channels: nat, frameLength: nat)

  /** Whether every field fits its bit width. */
  predicate FieldsInRange(h: AdtsHeader)
  {
    h.profile < 4 && h.sampleRateIndex < 16 && h.channels < 8 && h.frameLength < Two13
  }

  /**
   * The syncword test: byte i is 0xFF and byte i + 1 has its top four bits
   * set and its two layer bits clear (mask 0xF6); the ID bit and the
   * protection_absent bit may take either value.
   */
  predicate SyncAt(data: seq<byte>, i: nat): (r: bool)
    ensures r ==> i + 2 <= |data| && data[i] == 0xFF && 0xF0 <= data[i + 1] <= 0xF9
  {
    i + 2 <= |data| && data[i] == 0xFF && SyncSecondByte(data[i + 1])
  }

  /** Bits 7-4 of the second syncword byte are set and bits 2-1 are clear. */
  predicate SyncSecondByte(b: byte)
  {
    b / 16 == 15 && (b / 2) % 4 == 0
  }

  /** Exactly four values pass as the second syncword byte: 0xF0, 0xF1, 0xF8 and 0xF9. */
  lemma SyncSecondByteValues(b: byte)
    ensures SyncSecondByte(b) <==> b in {0xF0, 0xF1, 0xF8, 0xF9}
  {
  }

  /** SyncSecondByte is the source's test `(b & 0xF6) == 0xF0`. */
  lemma SyncMask(b: bv8)
    ensures SyncSecondByte(b as int) <==> b & 0xF6 == 0xF0
  {
  }

  /**
   * The 13-bit frame length held by header bytes 3, 4 and 5: the low two
   * bits of byte 3, all of byte 4 and the top three bits of byte 5.
   */
  function FrameLengthField(b3: byte, b4: byte, b5: byte): (len: nat)
    ensures len < Two13
  {
    (b3 % 4) as int * 0x800 + b4 as int * 8 + b5 / 32
  }

  /**
   * The field extraction of aac_parse_adts on the first six header bytes:
   * profile is bits 7-6 of byte 2, the sampling-frequency index bits 5-2,
   * the channel configuration bit 0 of byte 2 over bits 7-6 of byte 3, and
   * the frame length bits 1-0 of byte 3, byte 4 and bits 7-5 of byte 5
   * (AdtsFieldMasks relates each to the source's masks and shifts).
   */
  function DecodeAdtsHeader(h: seq<byte>): (r: AdtsHeader)
    requires |h| >= AdtsHeaderBytes
    ensures FieldsInRange(r)
  {
    AdtsHeader(h[2] / 64, (h[2] / 4) % 16, (h[2] % 2) as int * 4 + h[3] / 64,
               FrameLengthField(h[3], h[4], h[5]))
  }

  /**
   * The source's masks and shifts on bytes 2 to 5 give the fields
   * DecodeAdtsHeader computes.
   */
  lemma AdtsFieldMasks(b2: bv8, b3: bv8, b4: bv8, b5: bv8)
    ensures ((b2 & 0xC0) >> 6) as int == b2 as int / 64
    ensures ((b2 & 0x3C) >> 2) as int == (b2 as int / 4) % 16
    ensures (((b2 & 0x1) << 2) | ((b3 & 0xC0) >> 6)) as int == (b2 as int % 2) * 4 + b3 as int / 64
    ensures (((b3 as bv32 & 0x3) << 11) | ((b4 as bv32) << 3) | ((b5 >> 5) as bv32)) as int
            == (b3 as int % 4) * 0x800 + b4 as int * 8 + b5 as int / 32
  {
    ProfileBits(b2);
    RateIndexBits(b2);
    ChannelBits(b2, b3);
    FrameLengthBits(b3, b4, b5);
  }

  /** Bits 7-6 of a byte, shifted down, are the byte divided by 64. */
  lemma ProfileBits(b: bv8)
    ensures ((b & 0xC0) >> 6) as int == b as int / 64
  {
    assert (b & 0xC0) >> 6 == b >> 6;
    TopTwoBits(b);
  }

  /** A right shift by six divides a byte by 64. */
  lemma TopTwoBits(b: bv8)
    ensures (b >> 6) as int == b as int / 64
  {
  }

  /** Bits 5-2 of a byte, shifted down, are the byte's quarter modulo 16. */
  lemma RateIndexBits(b: bv8)
    ensures ((b & 0x3C) >> 2) as int == (b as int / 4) % 16
  {
    MaskThenShift(b);
    LowFourBits(b >> 2);
    ShiftRightTwo(b);
  }

  /** Masking bits 5-2 and shifting them down is shifting down and keeping four bits. */
  lemma MaskThenShift(b: bv8)
    ensures (b & 0x3C) >> 2 == (b >> 2) & 0xF
  {
  }

  /** A right shift by two divides a byte by 4. */
  lemma ShiftRightTwo(b: bv8)
    ensures (b >> 2) as int == b as int / 4
  {
  }

  /** The low four bits of a byte are the byte modulo 16. */
  lemma LowFourBits(b: bv8)
    ensures (b & 0xF) as int == b as int % 16
  {
  }

  /** The low bit of a byte is the byte modulo 2. */
  lemma LowBit(b: bv8)
    ensures (b & 0x1) as int == b as int % 2
  {
  }

  /** A one-bit field above a two-bit field make a three-bit value. */
  lemma OneOverTwo(hi: bv8, lo: bv8)
    requires hi < 2 && lo < 4
    ensures ((hi << 2) | lo) as int == hi as int * 4 + lo as int
  {
  }

  /** Bit 0 of one byte and bits 7-6 of the next make a three-bit value. */
  lemma ChannelBits(b2: bv8, b3: bv8)
    ensures (((b2 & 0x1) << 2) | ((b3 & 0xC0) >> 6)) as int == (b2 as int % 2) * 4 + b3 as int / 64
  {
    LowBit(b2);
    ProfileBits(b3);
    OneOverTwo(b2 & 0x1, (b3 & 0xC0) >> 6);
  }

  /** A right shift by five divides a byte by 32. */
  lemma TopThreeBits(b: bv8)
    ensures (b >> 5) as int == b as int / 32
  {
  }

  /** The low two bits of a byte are the byte modulo 4. */
  lemma LowTwoBits(b: bv8)
    ensures (b & 0x3) as int == b as int % 4
  {
  }

  /** Bits 1-0 of b3, all of b4 and bits 7-5 of b5 make the 13-bit frame length. */
  lemma FrameLengthBits(b3: bv8, b4: bv8, b5: bv8)
    ensures (((b3 as bv32 & 0x3) << 11) | ((b4 as bv32) << 3) | ((b5 >> 5) as bv32)) as int
            == (b3 as int % 4) * 0x800 + b4 as int * 8 + b5 as int / 32
  {
    assert b3 as bv32 & 0x3 == (b3 & 0x3) as bv32;
    LowTwoBits(b3);
    TopThreeBits(b5);
    DisjointFieldsSum(b3 & 0x3, b4, b5 >> 5);
  }

  /** Fields in disjoint bit ranges ORed together add up. */
  lemma DisjointFieldsSum(hi: bv8, mid: bv8, lo: bv8)
    requires hi < 4 && lo < 8
    ensures (((hi as bv32) << 11) | ((mid as bv32) << 3) | (lo as bv32)) as int
            == hi as int * 0x800 + mid as int * 8 + lo as int
  {
  }

  /**
   * The six leading header bytes an ADTS writer emits for the given fields
   * (MPEG-4, no CRC, every other bit clear).
   */
  function EncodeAdtsHeader(f: AdtsHeader): (h: seq<byte>)
    requires FieldsInRange(f)
    ensures |h| == AdtsHeaderBytes
    ensures SyncAt(h, 0)
  {
    [0xFF, 0xF1,
     f.profile * 64 + f.sampleRateIndex * 4 + f.channels / 4,
     (f.channels % 4) * 64 + f.frameLength / 0x800,
     (f.frameLength / 8) % 256,
     (f.frameLength % 8) * 32]
  }

  /** The arithmetic of reading back byte 2 as the encoder computes it. */
  lemma Byte2Fields(p: nat, s: nat, c: nat)
    requires p < 4 && s < 16 && c < 8
    ensures var b2 := p * 64 + s * 4 + c / 4;
            b2 / 64 == p && (b2 / 4) % 16 == s && b2 % 2 == c / 4
  {
    var cc := c / 4;
    assert cc < 2;
    var b2 := p * 64 + s * 4 + cc;
    DivModOf(b2, 64, p, s * 4 + cc);
    DivModOf(b2, 4, p * 16 + s, cc);
    DivModOf(p * 16 + s, 16, p, s);
    DivModOf(b2, 2, p * 32 + s * 2, cc);
  }

  /** The arithmetic of reading back bytes 3 to 5 as the encoder computes them. */
  lemma FrameLengthFields(c: nat, fl: nat)
    requires c < 8 && fl < Two13
    ensures var b3 := (c % 4) * 64 + fl / 0x800;
            var b4 := (fl / 8) % 256;
            var b5 := (fl % 8) * 32;
            b3 / 64 == c % 4 && (b3 % 4) * 0x800 + b4 * 8 + b5 / 32 == fl
  {
    var q := fl / 8;
    var mid := q % 256;
    var lo := fl % 8;
    DivModOf(fl, 8, q, lo);
    DivModOf(q, 256, q / 256, mid);
    DivModOf(fl, 0x800, q / 256, mid * 8 + lo);
    var hi := fl / 0x800;
    assert hi < 4;
    var b3 := (c % 4) * 64 + hi;
    DivModOf(b3, 64, c % 4, hi);
    DivModOf(b3, 4, (c % 4) * 16, hi);
    DivModOf(lo * 32, 32, lo, 0);
  }

  /** Round trip: decoding a written header gives back the fields written. */
  lemma AdtsHeaderRoundTrip(f: AdtsHeader)
    requires FieldsInRange(f)
    ensures DecodeAdtsHeader(EncodeAdtsHeader(f)) == f
  {
    Byte2Fields(f.profile, f.sampleRateIndex, f.channels);
    FrameLengthFields(f.channels, f.frameLength);
  }
}
