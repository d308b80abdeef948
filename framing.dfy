/**
 The read/slice/encode/write loop that streams one track to a guild's voice
 connection. The decoded byte stream is a sequence of read results, the Opus
 encoder an opaque function bounded by the 4000-byte scratch buffer, the
 voice sink the sequence of frames written to it, and cancellation of the
 playback token is observed only when a write is attempted.
 */
module Framing {
  import opened Pcm

  /** Size of the scratch buffer the encoder writes into. */
  const MaxPacket: nat := 4000

  /** The Opus encoder keeps state between calls, so what it produces for a
      block may depend on every block it was fed before: it is modelled as a
      function of the whole history, the current block last. */
  type Encoder = seq<seq<int16>> -> seq<byte>

  /** The encoder never produces more than the scratch buffer holds. */
  ghost predicate Bounded(encode: Encoder)
  {
    forall history :: |encode(history)| <= MaxPacket
  }

  /** When the playback token gets cancelled, counted in completed writes:
      `CancelledAfter(n)` lets n writes through and makes the next one throw. */
  datatype Cancellation = NotCancelled | CancelledAfter(writes: nat)

  /** How the loop ended: a read of 0 bytes, a short read (discarded), or a
      write refused because the token was cancelled. */
  datatype Outcome = EndOfStream | PartialBlock | Cancelled

  /** The i-th read; reading past the end of the stream yields 0 bytes. */
  function ReadAt(chunks: seq<seq<byte>>, i: nat): seq<byte>
  {
    if i < |chunks| then chunks[i] else []
  }

  ghost predicate ChunksFit(chunks: seq<seq<byte>>)
  {
    forall i :: 0 <= i < |chunks| ==> |chunks[i]| <= BlockBytes
  }

  ghost predicate AllFull(blocks: seq<seq<byte>>)
  {
    forall i :: 0 <= i < |blocks| ==> |blocks[i]| == BlockBytes
  }

  lemma AllFullPrepend(block: seq<byte>, blocks: seq<seq<byte>>)
    requires |block| == BlockBytes && AllFull(blocks)
    ensures AllFull([block] + blocks)
  {
    assert forall i :: 1 <= i <= |blocks| ==> ([block] + blocks)[i] == blocks[i - 1];
  }

  /** The number of full blocks before the first short (or empty) read:
      the blocks the loop encodes. */
  function LeadingFull(chunks: seq<seq<byte>>): (k: nat)
    requires ChunksFit(chunks)
    ensures k <= |chunks|
    ensures AllFull(chunks[..k])
    ensures k < |chunks| ==> |chunks[k]| < BlockBytes
  {
    if chunks == [] || |chunks[0]| < BlockBytes then 0
    else
      var k' := LeadingFull(chunks[1..]);
      assert chunks[..1 + k'] == [chunks[0]] + chunks[1..][..k'];
      AllFullPrepend(chunks[0], chunks[1..][..k']);
      1 + k'
  }

  /** The sample blocks handed to the encoder, one per full block. */
  function Pcms(blocks: seq<seq<byte>>): (pcms: seq<seq<int16>>)
    requires AllFull(blocks)
    ensures |pcms| == |blocks|
  {
    if blocks == [] then []
    else
      var last := blocks[|blocks| - 1];
      Pcms(blocks[..|blocks| - 1]) + [BytesToSamples(last)]
  }

  /** The encoder's output for each block, in order. */
  function Packets(encode: Encoder, pcms: seq<seq<int16>>): (packets: seq<seq<byte>>)
    ensures |packets| == |pcms|
  {
    if pcms == [] then []
    else Packets(encode, pcms[..|pcms| - 1]) + [encode(pcms)]
  }

  /** The packets that are actually written: zero-length results are skipped. */
  function NonEmpty(packets: seq<seq<byte>>): (frames: seq<seq<byte>>)
    ensures |frames| <= |packets|
  {
    if packets == [] then []
    else
      var last := packets[|packets| - 1];
      NonEmpty(packets[..|packets| - 1]) + (if |last| > 0 then [last] else [])
  }

  /** The frames the loop writes for the given full blocks, uncancelled. */
  function FramesOf(encode: Encoder, blocks: seq<seq<byte>>): seq<seq<byte>>
    requires AllFull(blocks)
  {
    NonEmpty(Packets(encode, Pcms(blocks)))
  }

  /** Everything the loop would write for this stream if never cancelled. */
  function Frames(chunks: seq<seq<byte>>, encode: Encoder): seq<seq<byte>>
    requires ChunksFit(chunks)
  {
    FramesOf(encode, chunks[..LeadingFull(chunks)])
  }

  /** What the sink holds once the loop has ended. */
  function Written(chunks: seq<seq<byte>>, encode: Encoder, cancel: Cancellation): seq<seq<byte>>
    requires ChunksFit(chunks)
  {
    var frames := Frames(chunks, encode);
    match cancel
    case NotCancelled => frames
    case CancelledAfter(n) => if n < |frames| then frames[..n] else frames
  }

  // ---------------------------------------------------------------------
  // Lemmas about the specification

  /** Only packets the encoder produced, and only non-empty ones, are written. */
  lemma {:induction false} NonEmptyMembers(packets: seq<seq<byte>>, f: seq<byte>)
    requires f in NonEmpty(packets)
    ensures f in packets && |f| > 0
  {
    var init := packets[..|packets| - 1];
    if f in NonEmpty(init) {
      NonEmptyMembers(init, f);
    }
  }

  lemma {:induction false} NonEmptyConcat(a: seq<seq<byte>>, b: seq<seq<byte>>)
    ensures NonEmpty(a + b) == NonEmpty(a) + NonEmpty(b)
    decreases |b|
  {
    if b != [] {
      var b' := b[..|b| - 1];
      assert (a + b)[..|a + b| - 1] == a + b';
      NonEmptyConcat(a, b');
    } else {
      assert a + b == a;
    }
  }

  lemma PcmsAppend(blocks: seq<seq<byte>>, block: seq<byte>)
    requires AllFull(blocks) && |block| == BlockBytes
    ensures AllFull(blocks + [block])
    ensures Pcms(blocks + [block]) == Pcms(blocks) + [BytesToSamples(block)]
  {
    assert (blocks + [block])[..|blocks|] == blocks;
  }

  lemma PacketsAppend(encode: Encoder, pcms: seq<seq<int16>>, pcm: seq<int16>)
    ensures Packets(encode, pcms + [pcm]) == Packets(encode, pcms) + [encode(pcms + [pcm])]
  {
    assert (pcms + [pcm])[..|pcms|] == pcms;
  }

  lemma {:induction false} PcmsPrefix(blocks: seq<seq<byte>>, k: nat)
    requires AllFull(blocks) && k <= |blocks|
    ensures AllFull(blocks[..k])
    ensures Pcms(blocks)[..k] == Pcms(blocks[..k])
    decreases |blocks|
  {
    if k < |blocks| {
      var init := blocks[..|blocks| - 1];
      PcmsPrefix(init, k);
      assert init[..k] == blocks[..k];
    } else {
      assert blocks[..k] == blocks;
    }
  }

  lemma {:induction false} PacketsPrefix(encode: Encoder, pcms: seq<seq<int16>>, k: nat)
    requires k <= |pcms|
    ensures Packets(encode, pcms)[..k] == Packets(encode, pcms[..k])
    decreases |pcms|
  {
    if k < |pcms| {
      var init := pcms[..|pcms| - 1];
      PacketsPrefix(encode, init, k);
      assert init[..k] == pcms[..k];
    } else {
      assert pcms[..k] == pcms;
    }
  }

  /** The frames of a longer run of blocks start with those of a shorter one. */
  lemma FramesOfPrefix(encode: Encoder, blocks: seq<seq<byte>>, k: nat)
    requires AllFull(blocks) && k <= |blocks|
    ensures AllFull(blocks[..k])
    ensures FramesOf(encode, blocks[..k]) <= FramesOf(encode, blocks)
  {
    var all := Packets(encode, Pcms(blocks));
    PcmsPrefix(blocks, k);
    PacketsPrefix(encode, Pcms(blocks), k);
    assert all == all[..k] + all[k..];
    NonEmptyConcat(all[..k], all[k..]);
    assert FramesOf(encode, blocks) == FramesOf(encode, blocks[..k]) + NonEmpty(all[k..]);
  }

  /** The i-th packet is what the encoder returns after being fed blocks 0..i. */
  lemma {:induction false} PacketAt(encode: Encoder, pcms: seq<seq<int16>>, i: nat)
    requires i < |pcms|
    ensures Packets(encode, pcms)[i] == encode(pcms[..i + 1])
    decreases |pcms|
  {
    if i < |pcms| - 1 {
      PacketAt(encode, pcms[..|pcms| - 1], i);
      assert pcms[..|pcms| - 1][..i + 1] == pcms[..i + 1];
    } else {
      assert pcms[..i + 1] == pcms;
    }
  }

  lemma ChunksFitConcat(chunks: seq<seq<byte>>, more: seq<seq<byte>>)
    requires ChunksFit(chunks) && ChunksFit(more)
    ensures ChunksFit(chunks + more)
  {
    var all := chunks + more;
    forall i | |chunks| <= i < |all|
      ensures |all[i]| <= BlockBytes
    {
      assert all[i] == more[i - |chunks|];
    }
  }

  /** Reads after the first short read do not move it. */
  lemma LeadingFullOfConcat(chunks: seq<seq<byte>>, more: seq<seq<byte>>)
    requires ChunksFit(chunks) && ChunksFit(more)
    requires LeadingFull(chunks) < |chunks|
    ensures ChunksFit(chunks + more)
    ensures LeadingFull(chunks + more) == LeadingFull(chunks)
  {
    var k := LeadingFull(chunks);
    var all := chunks + more;
    ChunksFitConcat(chunks, more);
    PrefixOfConcat(chunks, more, k);
    assert all[k] == chunks[k];
    LeadingFullUnique(all, k);
  }

  /** The loop stops at the first short read; the partial block is never
      encoded and nothing read after it matters. */
  lemma TrailingReadsIgnored(chunks: seq<seq<byte>>, more: seq<seq<byte>>, encode: Encoder)
    requires ChunksFit(chunks) && ChunksFit(more)
    requires LeadingFull(chunks) < |chunks|
    ensures Frames(chunks + more, encode) == Frames(chunks, encode)
  {
    LeadingFullOfConcat(chunks, more);
    PrefixOfConcat(chunks, more, LeadingFull(chunks));
  }

  lemma PrefixOfConcat(chunks: seq<seq<byte>>, more: seq<seq<byte>>, k: nat)
    requires k <= |chunks|
    ensures (chunks + more)[..k] == chunks[..k]
  {
  }

  /** LeadingFull is determined by where the first short read is. */
  lemma LeadingFullUnique(chunks: seq<seq<byte>>, k: nat)
    requires ChunksFit(chunks)
    requires k <= |chunks| && AllFull(chunks[..k])
    requires k < |chunks| ==> |chunks[k]| < BlockBytes
    ensures LeadingFull(chunks) == k
  {
  }

  /** Every written frame is a non-empty prefix of the 4000-byte scratch buffer. */
  lemma WrittenFramesBounded(chunks: seq<seq<byte>>, encode: Encoder, cancel: Cancellation)
    requires ChunksFit(chunks)
    requires Bounded(encode)
    ensures forall f :: f in Written(chunks, encode, cancel) ==> 0 < |f| <= MaxPacket
  {
    var frames := Frames(chunks, encode);
    var packets := Packets(encode, Pcms(chunks[..LeadingFull(chunks)]));
    forall f | f in Written(chunks, encode, cancel)
      ensures 0 < |f| <= MaxPacket
    {
      assert f in frames;
      NonEmptyMembers(packets, f);
      var i :| 0 <= i < |packets| && packets[i] == f;
      PacketAt(encode, Pcms(chunks[..LeadingFull(chunks)]), i);
    }
  }

  /** With an encoder that always yields a packet and no cancellation, one
      frame is written per full block read before the first short read. */
  lemma OneFramePerFullBlock(chunks: seq<seq<byte>>, encode: Encoder)
    requires ChunksFit(chunks)
    requires forall history :: |encode(history)| > 0
    ensures |Written(chunks, encode, NotCancelled)| == LeadingFull(chunks)
  {
    var k := LeadingFull(chunks);
    var pcms := Pcms(chunks[..k]);
    var packets := Packets(encode, pcms);
    forall i | 0 <= i < |packets|
      ensures |packets[i]| > 0
    {
      PacketAt(encode, pcms, i);
    }
    NonEmptyKeepsAll(packets);
    assert Written(chunks, encode, NotCancelled) == NonEmpty(packets);
  }

  lemma {:induction false} NonEmptyKeepsAll(packets: seq<seq<byte>>)
    requires forall i :: 0 <= i < |packets| ==> |packets[i]| > 0
    ensures NonEmpty(packets) == packets
  {
    if packets != [] {
      var init := packets[..|packets| - 1];
      NonEmptyKeepsAll(init);
      assert init + [packets[|packets| - 1]] == packets;
    }
  }

  // ---------------------------------------------------------------------
  // Frame count against the byte count

  /** The bytes of successive reads, in order. */
  function Concat(chunks: seq<seq<byte>>): seq<byte>
  {
    if chunks == [] then [] else chunks[0] + Concat(chunks[1..])
  }

  function TotalBytes(chunks: seq<seq<byte>>): nat
  {
    |Concat(chunks)|
  }

  lemma {:induction false} ConcatAppend(a: seq<seq<byte>>, b: seq<seq<byte>>)
    ensures Concat(a + b) == Concat(a) + Concat(b)
  {
    if a != [] {
      assert (a + b)[1..] == a[1..] + b;
      ConcatAppend(a[1..], b);
    } else {
      assert a + b == b;
    }
  }

  lemma {:induction false} TotalBytesOfBlocks(blocks: seq<seq<byte>>)
    requires AllFull(blocks)
    ensures TotalBytes(blocks) == |blocks| * BlockBytes
  {
    if blocks != [] {
      TotalBytesOfBlocks(blocks[1..]);
    }
  }

  /** When every read but the last returns a full block, and the encoder
      always yields a packet, the loop writes floor(total bytes / 3840)
      frames: the trailing partial block is dropped, never padded. */
  lemma FrameCountIsFloor(blocks: seq<seq<byte>>, tail: seq<byte>, encode: Encoder)
    requires AllFull(blocks) && |tail| < BlockBytes
    requires forall history :: |encode(history)| > 0
    ensures ChunksFit(blocks + [tail])
    ensures |Written(blocks + [tail], encode, NotCancelled)| == TotalBytes(blocks + [tail]) / BlockBytes
  {
    var chunks := blocks + [tail];
    assert chunks[..|blocks|] == blocks;
    assert ChunksFit(chunks);
    LeadingFullUnique(chunks, |blocks|);
    OneFramePerFullBlock(chunks, encode);
    TotalBytesOfBlocks(blocks);
    ConcatAppend(blocks, [tail]);
    assert Concat([tail]) == tail;
    assert TotalBytes(chunks) == |blocks| * BlockBytes + |tail|;
  }

  // ---------------------------------------------------------------------
  // Short reads before the end of the stream

  /** The reads up to, not including, the first one that returns 0 bytes. */
  function UntilEof(chunks: seq<seq<byte>>): (live: seq<seq<byte>>)
    ensures live <= chunks
    ensures forall i :: 0 <= i < |live| ==> |live[i]| > 0
  {
    if chunks == [] || |chunks[0]| == 0 then []
    else [chunks[0]] + UntilEof(chunks[1..])
  }

  /** Consecutive 3840-byte blocks of a byte string, the remainder dropped. */
  function Split(bytes: seq<byte>): (blocks: seq<seq<byte>>)
    ensures AllFull(blocks)
    ensures |blocks| == |bytes| / BlockBytes
    decreases |bytes|
  {
    if |bytes| < BlockBytes then []
    else
      var rest := Split(bytes[BlockBytes..]);
      AllFullPrepend(bytes[..BlockBytes], rest);
      [bytes[..BlockBytes]] + rest
  }

  /** The frames written when each block is filled by reading until 3840
      bytes have arrived or a read returns 0, as the 3840-byte geometry
      intends: every byte before end of stream reaches the encoder. */
  function FilledFrames(chunks: seq<seq<byte>>, encode: Encoder): seq<seq<byte>>
  {
    FramesOf(encode, Split(Concat(UntilEof(chunks))))
  }

  /** With blocks filled before encoding, the frame count is the number of
      whole blocks in the bytes delivered before end of stream, however the
      pipe splits them into reads. */
  lemma FilledFrameCount(chunks: seq<seq<byte>>, encode: Encoder)
    requires forall history :: |encode(history)| > 0
    ensures |FilledFrames(chunks, encode)| == TotalBytes(UntilEof(chunks)) / BlockBytes
  {
    var blocks := Split(Concat(UntilEof(chunks)));
    var pcms := Pcms(blocks);
    var packets := Packets(encode, pcms);
    forall i | 0 <= i < |pcms|
      ensures |packets[i]| > 0
    {
      PacketAt(encode, pcms, i);
    }
    NonEmptyKeepsAll(packets);
    assert |FilledFrames(chunks, encode)| == |packets| == |blocks|;
  }

  /** Filling agrees with the loop as written whenever the pipe hands over
      whole blocks until end of stream. */
  lemma FilledAgreesOnWholeBlocks(blocks: seq<seq<byte>>, encode: Encoder)
    requires AllFull(blocks)
    ensures ChunksFit(blocks + [[]])
    ensures FilledFrames(blocks + [[]], encode) == Frames(blocks + [[]], encode)
  {
    var chunks := blocks + [[]];
    assert chunks[..|blocks|] == blocks;
    assert ChunksFit(chunks);
    LeadingFullUnique(chunks, |blocks|);
    UntilEofOfBlocks(blocks);
    SplitConcat(blocks);
  }

  lemma {:induction false} UntilEofOfBlocks(blocks: seq<seq<byte>>)
    requires AllFull(blocks)
    ensures UntilEof(blocks + [[]]) == blocks
  {
    if blocks != [] {
      assert (blocks + [[]])[1..] == blocks[1..] + [[]];
      UntilEofOfBlocks(blocks[1..]);
      assert blocks == [blocks[0]] + blocks[1..];
    }
  }

  lemma {:induction false} SplitConcat(blocks: seq<seq<byte>>)
    requires AllFull(blocks)
    ensures Split(Concat(blocks)) == blocks
  {
    if blocks != [] {
      var bytes := Concat(blocks);
      assert bytes[..BlockBytes] == blocks[0];
      assert bytes[BlockBytes..] == Concat(blocks[1..]);
      SplitConcat(blocks[1..]);
      assert blocks == [blocks[0]] + blocks[1..];
    }
  }

  /** The loop as written: a pipe that hands over one block as two short
      reads (1920 bytes and 1920 bytes, say) before end of stream delivers a
      whole block, yet nothing is written, because the first short read is
      taken for the end of the stream. */
  lemma ShortReadEndsStream(first: seq<byte>, second: seq<byte>, encode: Encoder)
    requires 0 < |first| < BlockBytes && 0 < |second| && |first| + |second| == BlockBytes
    requires forall history :: |encode(history)| > 0
    ensures ChunksFit([first, second, []])
    ensures TotalBytes([first, second, []]) / BlockBytes == 1
    ensures Written([first, second, []], encode, NotCancelled) == []
    ensures |FilledFrames([first, second, []], encode)| == 1
  {
    var chunks := [first, second, []];
    assert ChunksFit(chunks);
    assert Written(chunks, encode, NotCancelled) == [] by {
      LeadingFullUnique(chunks, 0);
      assert chunks[..0] == [];
    }
    TwoReadsThenEof(first, second);
    FilledFrameCount(chunks, encode);
  }

  lemma TwoReadsThenEof(first: seq<byte>, second: seq<byte>)
    requires 0 < |first| && 0 < |second|
    ensures UntilEof([first, second, []]) == [first, second]
    ensures TotalBytes([first, second, []]) == TotalBytes([first, second]) == |first| + |second|
  {
    var chunks := [first, second, []];
    assert chunks[1..] == [second, []];
    assert [second, []][1..] == [[]];
    assert [first, second][1..] == [second];
    assert [second][1..] == [];
    assert Concat([[]]) == [];
    assert Concat([second, []]) == second;
    assert Concat([second]) == second;
    assert Concat(chunks) == first + second;
    assert Concat([first, second]) == first + second;
  }

  // ---------------------------------------------------------------------
  // The loop

  /** Copy `src` to the front of `dst`, leaving the rest of `dst` as it was:
      a stream read into `buffer`, or an encode into `outBuffer`. */
  method CopyToFront(dst: array<byte>, src: seq<byte>)
    requires |src| <= dst.Length
    modifies dst
    ensures dst[..|src|] == src
    ensures dst[|src|..] == old(dst[|src|..])
  {
    var k := 0;
    while k < |src|
      invariant k <= |src|
      invariant dst[..k] == src[..k]
      invariant dst[|src|..] == old(dst[|src|..])
    {
      dst[k] := src[k];
      k := k + 1;
    }
  }

  /** The i-th read of the stream into the front of the block buffer;
      returns the number of bytes read. */
  method ReadInto(buffer: array<byte>, chunks: seq<seq<byte>>, i: nat) returns (n: nat)
    requires ChunksFit(chunks) && buffer.Length == BlockBytes
    modifies buffer
    ensures n == |ReadAt(chunks, i)| <= BlockBytes
    ensures buffer[..n] == ReadAt(chunks, i)
    ensures n == BlockBytes ==> buffer[..] == ReadAt(chunks, i)
  {
    var chunk := ReadAt(chunks, i);
    CopyToFront(buffer, chunk);
    n := |chunk|;
  }

  /** One more full block adds its packet to the frames, when it is non-empty. */
  lemma FramesStep(encode: Encoder, blocks: seq<seq<byte>>, block: seq<byte>)
    requires AllFull(blocks) && |block| == BlockBytes
    ensures AllFull(blocks + [block])
    ensures Pcms(blocks + [block]) == Pcms(blocks) + [BytesToSamples(block)]
    ensures var packet := encode(Pcms(blocks + [block]));
      FramesOf(encode, blocks + [block]) == FramesOf(encode, blocks) + (if |packet| > 0 then [packet] else [])
  {
    PcmsAppend(blocks, block);
    PacketsAppend(encode, Pcms(blocks), BytesToSamples(block));
    var packets := Packets(encode, Pcms(blocks + [block]));
    assert packets[..|packets| - 1] == Packets(encode, Pcms(blocks));
  }

  /** Taking in chunk i, a full block, extends the history by its samples and
      the frames by its packet when that is non-empty. */
  lemma NextBlock(chunks: seq<seq<byte>>, encode: Encoder, i: nat)
    requires i < |chunks| && AllFull(chunks[..i]) && |chunks[i]| == BlockBytes
    ensures AllFull(chunks[..i + 1])
    ensures Pcms(chunks[..i + 1]) == Pcms(chunks[..i]) + [BytesToSamples(chunks[i])]
    ensures var packet := encode(Pcms(chunks[..i + 1]));
      FramesOf(encode, chunks[..i + 1]) == FramesOf(encode, chunks[..i]) + (if |packet| > 0 then [packet] else [])
  {
    FramesStep(encode, chunks[..i], chunks[i]);
    assert chunks[..i + 1] == chunks[..i] + [chunks[i]];
  }

  /** A chunk read before the first short read is a full block. */
  lemma {:induction false} BeforeShortRead(chunks: seq<seq<byte>>, i: nat)
    requires ChunksFit(chunks) && i < |chunks| && AllFull(chunks[..i + 1])
    ensures i < LeadingFull(chunks)
    decreases i
  {
    assert chunks[..i + 1][0] == chunks[0];
    if i > 0 {
      assert chunks[1..][..i] == chunks[..i + 1][1..];
      BeforeShortRead(chunks[1..], i - 1);
    }
  }

  /** A refused write leaves the sink holding exactly the first n frames. */
  lemma CancelledWrites(chunks: seq<seq<byte>>, encode: Encoder, i: nat, n: nat)
    requires ChunksFit(chunks) && i < |chunks| && AllFull(chunks[..i + 1])
    requires |FramesOf(encode, chunks[..i])| == n
    requires |FramesOf(encode, chunks[..i + 1])| == n + 1
    ensures FramesOf(encode, chunks[..i]) == Written(chunks, encode, CancelledAfter(n))
    ensures n < |Frames(chunks, encode)|
    ensures i < LeadingFull(chunks)
  {
    BeforeShortRead(chunks, i);
    var k := LeadingFull(chunks);
    var before := FramesOf(encode, chunks[..i]);
    var next := FramesOf(encode, chunks[..i + 1]);
    var whole := Frames(chunks, encode);
    assert next <= whole by {
      FramesOfPrefix(encode, chunks[..k], i + 1);
      assert chunks[..k][..i + 1] == chunks[..i + 1];
    }
    assert before <= next by {
      FramesOfPrefix(encode, chunks[..i + 1], i);
      assert chunks[..i + 1][..i] == chunks[..i];
    }
    assert whole[..n] == before;
  }

  /** The loop ends at a short or empty read with the frames of the blocks
      before it in the sink: that is all it would ever write. */
  lemma EndsAtShortRead(chunks: seq<seq<byte>>, encode: Encoder, cancel: Cancellation, i: nat)
    requires ChunksFit(chunks) && i <= |chunks| && AllFull(chunks[..i])
    requires |ReadAt(chunks, i)| < BlockBytes
    requires cancel.CancelledAfter? ==> |FramesOf(encode, chunks[..i])| <= cancel.writes
    ensures LeadingFull(chunks) == i
    ensures FramesOf(encode, chunks[..i]) == Written(chunks, encode, cancel)
    ensures !(cancel.CancelledAfter? && cancel.writes < |Frames(chunks, encode)|)
  {
    LeadingFullUnique(chunks, i);
  }

  /** Stream one track: read 3840-byte blocks until a read returns 0 bytes or
      fewer than a full block, reinterpret each full block as 1920 samples,
      encode it, and write every non-empty packet to the sink. Returns the
      frames written, the number of encoder calls and how the loop ended. */
  method StreamFrames(chunks: seq<seq<byte>>, encode: Encoder, cancel: Cancellation)
    returns (sink: seq<seq<byte>>, encodes: nat, outcome: Outcome)
    requires ChunksFit(chunks)
    requires Bounded(encode)
    ensures sink == Written(chunks, encode, cancel)
    ensures outcome == Cancelled <==> cancel.CancelledAfter? && cancel.writes < |Frames(chunks, encode)|
    ensures outcome == EndOfStream <==> outcome != Cancelled && ReadAt(chunks, LeadingFull(chunks)) == []
    ensures encodes <= LeadingFull(chunks)
    ensures outcome != Cancelled ==> encodes == LeadingFull(chunks)
  {
    var buffer := new byte[BlockBytes];
    var outBuffer := new byte[MaxPacket];
    var history: seq<seq<int16>> := [];
    sink, encodes := [], 0;

    var i := 0;
    while true
      invariant i <= |chunks|
      invariant AllFull(chunks[..i])
      invariant history == Pcms(chunks[..i])
      invariant encodes == i
      invariant sink == FramesOf(encode, chunks[..i])
      invariant cancel.CancelledAfter? ==> |sink| <= cancel.writes
      decreases |chunks| - i
    {
      var bytesRead := ReadInto(buffer, chunks, i);
      if bytesRead == 0 {
        break;
      }
      if bytesRead < BlockBytes {
        outcome := PartialBlock;
        EndsAtShortRead(chunks, encode, cancel, i);
        return;
      }
      var pcm := BytesToSamples(buffer[..]);
      NextBlock(chunks, encode, i);
      history := history + [pcm];

      var packet := encode(history);
      CopyToFront(outBuffer, packet);
      var encoded := |packet|;
      encodes := encodes + 1;
      if encoded > 0 {
        if cancel.CancelledAfter? && |sink| == cancel.writes {
          outcome := Cancelled;
          CancelledWrites(chunks, encode, i, |sink|);
          return;
        }
        sink := sink + [outBuffer[..encoded]];
      }
      i := i + 1;
    }
    outcome := EndOfStream;
    EndsAtShortRead(chunks, encode, cancel, i);
  }
}
