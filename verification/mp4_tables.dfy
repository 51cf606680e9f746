/**
 * The constants and the box-type test of the MP4 parser's header: the
 * FOURCC_EQ predicate the box walker uses to match four-character box types,
 * the samplingFrequencyIndex table of ISO/IEC 14496-3 subclause 1.6.3, the
 * two-bit bit-depth table, and the shapes of the time-to-sample and
 * sample-to-chunk run records.
 */
module Mp4Tables {
  import opened ByteOrder

  /** A `uint32_t` value. */
  type uint32 = x: int | 0 <= x < 0x1_0000_0000

  /** One time-to-sample run: sample_count samples lasting sample_duration each. */
  datatype TimeToSample = TimeToSample(sampleCount: uint32, sampleDuration: uint32)

  /** One sample-to-chunk run: from first_chunk on, each chunk holds samples_per_chunk samples. */
  datatype SampleToChunk = SampleToChunk(firstChunk: uint32, samplesPerChunk: uint32)

  /** A four-character box type, such as "moov" or "stsz", given as bytes. */
  predicate IsFourcc(a: seq<byte>)
  {
    |a| >= 4
  }

  /**
   * FOURCC_EQ as written: bytes 0, 1 and 3 must be equal, while byte 2 is only
   * required to be nonzero in both arguments; it is never compared.
   */
  predicate FourccEq(a: seq<byte>, b: seq<byte>): (r: bool)
    requires IsFourcc(a) && IsFourcc(b)
    ensures r ==> a[..2] == b[..2] && a[3] == b[3]
    ensures SameFourcc(a, b) ==> (r <==> a[2] != 0)
  {
    a[0] == b[0] && a[1] == b[1] && a[2] != 0 && b[2] != 0 && a[3] == b[3]
  }

  /** What FOURCC_EQ is evidently meant to test: the four type bytes are equal. */
  predicate SameFourcc(a: seq<byte>, b: seq<byte>)
    requires IsFourcc(a) && IsFourcc(b)
  {
    a[..4] == b[..4]
  }

  /** FOURCC_EQ holds exactly when bytes 0, 1, 3 agree and neither byte 2 is zero. */
  lemma FourccEqMeaning(a: seq<byte>, b: seq<byte>)
    requires IsFourcc(a) && IsFourcc(b)
    ensures FourccEq(a, b) <==> (forall k :: 0 <= k < 4 && k != 2 ==> a[k] == b[k]) && a[2] != 0 && b[2] != 0
  {
    if (forall k :: 0 <= k < 4 && k != 2 ==> a[k] == b[k]) && a[2] != 0 && b[2] != 0 {
      assert a[0] == b[0] && a[1] == b[1] && a[3] == b[3];
    }
  }

  /** FOURCC_EQ is symmetric and transitive, but reflexive only where byte 2 is nonzero. */
  lemma FourccEqRelation(a: seq<byte>, b: seq<byte>, c: seq<byte>)
    requires IsFourcc(a) && IsFourcc(b) && IsFourcc(c)
    ensures FourccEq(a, b) ==> FourccEq(b, a)
    ensures FourccEq(a, b) && FourccEq(b, c) ==> FourccEq(a, c)
    ensures FourccEq(a, a) <==> a[2] != 0
  {
  }

  /**
   * The corrected test is an equivalence on box types, and agrees with FOURCC_EQ
   * on every pair whose byte 2 is nonzero and equal; FOURCC_EQ accepts every pair
   * the corrected test accepts except those with a zero byte 2.
   */
  lemma SameFourccAgrees(a: seq<byte>, b: seq<byte>, c: seq<byte>)
    requires IsFourcc(a) && IsFourcc(b) && IsFourcc(c)
    ensures SameFourcc(a, b) <==> forall k :: 0 <= k < 4 ==> a[k] == b[k]
    ensures SameFourcc(a, a)
    ensures SameFourcc(a, b) ==> SameFourcc(b, a)
    ensures SameFourcc(a, b) && SameFourcc(b, c) ==> SameFourcc(a, c)
    ensures a[2] == b[2] ==> (FourccEq(a, b) <==> SameFourcc(a, b) && a[2] != 0)
  {
    if forall k :: 0 <= k < 4 ==> a[k] == b[k] {
      assert a[..4] == b[..4];
    }
    if SameFourcc(a, b) {
      assert forall k :: 0 <= k < 4 ==> a[k] == a[..4][k];
    }
  }

  /**
   * The discrepancy: FOURCC_EQ matches "mp4a" against "mpXa", two box types
   * that differ in byte 2.
   */
  lemma FourccEqIgnoresByte2()
    ensures var mp4a: seq<byte> := [0x6D, 0x70, 0x34, 0x61];
            var mpXa: seq<byte> := [0x6D, 0x70, 0x58, 0x61];
            FourccEq(mp4a, mpXa) && !SameFourcc(mp4a, mpXa)
  {
    var mp4a: seq<byte> := [0x6D, 0x70, 0x34, 0x61];
    var mpXa: seq<byte> := [0x6D, 0x70, 0x58, 0x61];
    assert mp4a[..4][2] != mpXa[..4][2];
  }

  /** The value a C integer constant takes once stored in a `uint32_t`. */
  function ToUint32(x: int): (r: uint32)
    ensures 0 <= x < 0x1_0000_0000 ==> r == x
    ensures (r - x) % 0x1_0000_0000 == 0
  {
    x % 0x1_0000_0000
  }

  /** The initialiser of samplerate_table, as the C literals are written. */
  const SampleRateLiterals: seq<int> :=
    [96000, 88200, 64000, 48000, 44100, 32000, 24000,
     22050, 16000, 12000, 11025, 8000, 7350, -1, -1, 0]

  /** The number of entries of samplerate_table. */
  const SampleRateCount: nat := 16

  /**
   * samplerate_table[index]: the sampling frequency in Hz for a
   * samplingFrequencyIndex. Indices 13 and 14 are reserved and hold -1 stored
   * as `uint32_t`; index 15 (an explicit frequency follows) holds 0.
   */
  function SampleRate(index: nat): (hz: uint32)
    requires index < SampleRateCount
    ensures index <= 12 ==> 7350 <= hz <= 96000
    ensures index == 13 || index == 14 ==> hz == 0xFFFF_FFFF
    ensures index == 15 ==> hz == 0
  {
    ToUint32(SampleRateLiterals[index])
  }

  /** The defined entries 0..12 are strictly decreasing, from 96000 down to 7350. */
  lemma SampleRateDecreasing(i: nat, j: nat)
    requires i < j <= 12
    ensures SampleRate(i) > SampleRate(j)
    ensures SampleRate(0) == 96000 && SampleRate(12) == 7350
  {
  }

  /** The number of entries of bps_table. */
  const BpsCount: nat := 4

  /** bps_table[code]: the bits per sample for a two-bit sample-size code. */
  function BitsPerSample(code: nat): (bits: nat)
    requires code < BpsCount
    ensures bits == 8 || bits == 16 || bits == 20 || bits == 24
    ensures code == 0 <==> bits == 8
  {
    [8, 16, 20, 24][code]
  }

  /** bps_table is strictly increasing, so distinct codes give distinct depths. */
  lemma BitsPerSampleIncreasing(i: nat, j: nat)
    requires i < j < BpsCount
    ensures BitsPerSample(i) < BitsPerSample(j)
  {
  }
}
