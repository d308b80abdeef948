/**
 Raw PCM as the playback loop sees it: ffmpeg is asked for signed 16-bit
 little-endian stereo at 48 kHz, and each 3840-byte block read from its
 output is reinterpreted, byte pair by byte pair, as 1920 interleaved
 16-bit samples (a raw block copy on a little-endian host).
 */
module Pcm {

  newtype byte = x: int | 0 <= x < 0x100
  newtype int16 = x: int | -0x8000 <= x < 0x8000

  /** Samples per channel in one 20 ms frame at 48 kHz. */
  const FrameSize: nat := 960
  const Channels: nat := 2
  const BytesPerSample: nat := 2
  /** Samples (both channels) in one block. */
  const SamplesPerBlock: nat := FrameSize * Channels
  /** Bytes in one PCM block. */
  const BlockBytes: nat := SamplesPerBlock * BytesPerSample

  /** The 16-bit value of the bytes `lo`, `hi` read as a little-endian
      two's-complement sample. */
  function DecodeSample(lo: byte, hi: byte): int16
  {
    var u := lo as int + 0x100 * hi as int;
    if u < 0x8000 then u as int16 else (u - 0x10000) as int16
  }

  /** The decoded sample is the one 16-bit value congruent to the unsigned
      little-endian reading modulo 2^16, negative exactly when the sign bit of
      the high byte is set. */
  lemma DecodeIsTwosComplement(lo: byte, hi: byte)
    ensures (DecodeSample(lo, hi) as int - (lo as int + 0x100 * hi as int)) % 0x10000 == 0
    ensures (DecodeSample(lo, hi) < 0) == (hi >= 0x80)
  {
  }

  /** The two bytes, low byte first, that store `s` in s16le. */
  function EncodeSample(s: int16): (bytes: (byte, byte))
  {
    var u := if s < 0 then s as int + 0x10000 else s as int;
    ((u % 0x100) as byte, (u / 0x100) as byte)
  }

  lemma SampleRoundTrip(s: int16)
    ensures DecodeSample(EncodeSample(s).0, EncodeSample(s).1) == s
  {
  }

  lemma BytePairRoundTrip(lo: byte, hi: byte)
    ensures EncodeSample(DecodeSample(lo, hi)) == (lo, hi)
  {
  }

  /** Reinterpret an even number of bytes as 16-bit samples, pair by pair. */
  function BytesToSamples(bytes: seq<byte>): (pcm: seq<int16>)
    requires |bytes| % 2 == 0
    ensures |pcm| * 2 == |bytes|
    decreases |bytes|
  {
    if bytes == [] then []
    else [DecodeSample(bytes[0], bytes[1])] + BytesToSamples(bytes[2..])
  }

  /** Sample i is made of bytes 2i (low) and 2i + 1 (high). */
  lemma {:induction false} SampleAt(bytes: seq<byte>, i: nat)
    requires |bytes| % 2 == 0 && 2 * i < |bytes|
    ensures BytesToSamples(bytes)[i] == DecodeSample(bytes[2 * i], bytes[2 * i + 1])
    decreases |bytes|
  {
    if i > 0 {
      SampleAt(bytes[2..], i - 1);
    }
  }

  /** Lay samples out as s16le bytes. */
  function SamplesToBytes(pcm: seq<int16>): (bytes: seq<byte>)
    ensures |bytes| == 2 * |pcm|
  {
    if pcm == [] then []
    else [EncodeSample(pcm[0]).0, EncodeSample(pcm[0]).1] + SamplesToBytes(pcm[1..])
  }

  /** The reinterpretation loses nothing: writing the samples back gives the
      bytes that were read. */
  lemma {:induction false} BytesRoundTrip(bytes: seq<byte>)
    requires |bytes| % 2 == 0
    ensures SamplesToBytes(BytesToSamples(bytes)) == bytes
    decreases |bytes|
  {
    if bytes != [] {
      BytePairRoundTrip(bytes[0], bytes[1]);
      BytesRoundTrip(bytes[2..]);
      assert bytes == [bytes[0], bytes[1]] + bytes[2..];
    }
  }

  /** Every sample sequence is the reading of exactly one byte string. */
  lemma {:induction false} SamplesRoundTrip(pcm: seq<int16>)
    ensures BytesToSamples(SamplesToBytes(pcm)) == pcm
  {
    if pcm != [] {
      var e := EncodeSample(pcm[0]);
      var bytes := SamplesToBytes(pcm);
      assert bytes == [e.0, e.1] + SamplesToBytes(pcm[1..]);
      assert bytes[0] == e.0 && bytes[1] == e.1;
      assert bytes[2..] == SamplesToBytes(pcm[1..]);
      SampleRoundTrip(pcm[0]);
      SamplesRoundTrip(pcm[1..]);
      assert BytesToSamples(bytes) == [DecodeSample(e.0, e.1)] + BytesToSamples(bytes[2..]);
    }
  }
}
