/** Properties of the ESP3 framer as a whole: how `parsePacket` treats each
    kind of buffer, what it does with well-formed frames, noise and damaged
    frames, and why the way the stream is cut into chunks does not matter. */
module Esp3FramerProperties {
  import opened Wrappers
  import opened Bytes
  import opened Esp3PacketParser

  // ---------------------------------------------------------------------
  // The cases of one `parsePacket` call

  /** If the first candidate that is not stepped over has fewer than six
      bytes, the buffer is cut back to start at it and the call waits. */
  lemma ShortCandidateWaits(crc8: Checksum, buf: seq<Byte>, c: nat)
    requires FirstCandidate(crc8, buf, c) && |buf| - c < HeaderSize
    ensures ParsePacket(crc8, buf) == Step(buf[c..], None, false)
  {
    FirstViableUnique(crc8, buf, c);
    assert buf[c] == SyncByte;
  }

  /** If every sync byte has six bytes and a failing header CRC (or there is
      no sync byte at all), the whole buffer is discarded. */
  lemma NoHeaderClears(crc8: Checksum, buf: seq<Byte>)
    requires forall j :: 0 <= j < |buf| && buf[j] == SyncByte ==> Rejected(crc8, buf, j)
    ensures ParsePacket(crc8, buf) == Step([], None, false)
  {
    assert FirstViable(crc8, buf, 0) == None;
  }

  /** Once the first candidate has six bytes, the rest of the call only
      looks at the buffer from that candidate on. */
  lemma AdoptsCandidate(crc8: Checksum, buf: seq<Byte>, c: nat)
    requires FirstCandidate(crc8, buf, c) && |buf| - c >= HeaderSize
    ensures HeaderCrcOk(crc8, buf[c..])
    ensures ParsePacket(crc8, buf) == ParseAtHeader(crc8, buf[c..])
  {
    FirstViableUnique(crc8, buf, c);
    assert buf[c] == SyncByte;
  }

  /** The frame start adopted is the first sync byte with six bytes and a
      matching header CRC, provided every earlier sync byte was rejected; the
      bytes before it are dropped, and then the announced length decides
      between waiting, dropping a damaged frame and emitting it. */
  lemma AdoptedHeader(crc8: Checksum, buf: seq<Byte>, c: nat)
    requires FirstCandidate(crc8, buf, c) && |buf| - c >= HeaderSize
    ensures HeaderCrcOk(crc8, buf[c..])
    ensures |buf| - c < PacketLength(buf[c..]) ==> ParsePacket(crc8, buf) == Step(buf[c..], None, false)
    ensures |buf| - c >= PacketLength(buf[c..]) ==>
              && ParsePacket(crc8, buf).progressed
              && ParsePacket(crc8, buf).buffer == buf[c + PacketLength(buf[c..])..]
              && ParsePacket(crc8, buf).emitted ==
                   (if PayloadCrcOk(crc8, buf[c..]) then Some(buf[c..c + PacketLength(buf[c..])]) else None)
  {
    AdoptsCandidate(crc8, buf, c);
    if |buf| - c >= PacketLength(buf[c..]) {
      SuffixSlices(buf, c, PacketLength(buf[c..]));
    }
  }

  /** Slices of a suffix are slices of the whole. */
  lemma SuffixSlices(buf: seq<Byte>, c: nat, n: nat)
    requires c + n <= |buf|
    ensures buf[c..][n..] == buf[c + n..] && buf[c..][..n] == buf[c..c + n]
  {
  }

  // ---------------------------------------------------------------------
  // Appending bytes to the buffer

  lemma NotViableExtend(crc8: Checksum, b: seq<Byte>, x: seq<Byte>, j: nat)
    requires j < |b| && !Viable(crc8, b, j)
    ensures !Viable(crc8, b + x, j)
  {
    assert (b + x)[j] == b[j];
    if b[j] == SyncByte {
      assert (b + x)[j..][..HeaderSize] == b[j..][..HeaderSize];
      HeaderOfPrefix(crc8, (b + x)[j..], b[j..]);
    }
  }

  lemma ParseAtHeaderExtend(crc8: Checksum, t: seq<Byte>, x: seq<Byte>)
    requires |t| >= HeaderSize && ParseAtHeader(crc8, t).progressed
    ensures ParseAtHeader(crc8, t + x) == Step(ParseAtHeader(crc8, t).buffer + x, ParseAtHeader(crc8, t).emitted, true)
  {
    var n := PacketLength(t);
    assert (t + x)[..HeaderSize] == t[..HeaderSize];
    assert (t + x)[..n] == t[..n];
    HeaderOfPrefix(crc8, t + x, t);
    assert (t + x)[n..] == t[n..] + x;
  }

  /** Appending to a buffer in which every candidate is stepped over. */
  lemma StepExtendNoCandidate(crc8: Checksum, b: seq<Byte>, x: seq<Byte>)
    requires FirstViable(crc8, b, 0).None?
    ensures ParsePacket(crc8, b) == Step([], None, false)
    ensures ParsePacket(crc8, b + x) == ParsePacket(crc8, x)
  {
    forall j | 0 <= j < |b|
      ensures !Viable(crc8, b + x, j)
    {
      NotViableExtend(crc8, b, x, j);
    }
    ShiftLemma(crc8, b + x, |b|);
    assert (b + x)[|b|..] == x;
  }

  /** Appending to a buffer whose first candidate is at `c`. */
  lemma StepExtendCandidate(crc8: Checksum, b: seq<Byte>, x: seq<Byte>, c: nat)
    requires FirstCandidate(crc8, b, c)
    ensures ParsePacket(crc8, b + x) == ParsePacket(crc8, b[c..] + x)
  {
    PrefixNotViable(crc8, b, x, c);
    ShiftLemma(crc8, b + x, c);
    assert (b + x)[c..] == b[c..] + x;
  }

  /** Candidates stepped over in `b` are stepped over in `b + x`. */
  lemma PrefixNotViable(crc8: Checksum, b: seq<Byte>, x: seq<Byte>, c: nat)
    requires c <= |b| && forall j :: 0 <= j < c ==> !Viable(crc8, b, j)
    ensures forall j :: 0 <= j < c ==> !Viable(crc8, b + x, j)
  {
    forall j | 0 <= j < c
      ensures !Viable(crc8, b + x, j)
    {
      NotViableExtend(crc8, b, x, j);
    }
  }

  /** Appending to a buffer that starts with a header whose CRC matches. */
  lemma StepExtendHeader(crc8: Checksum, t: seq<Byte>, x: seq<Byte>)
    requires |t| >= HeaderSize && t[0] == SyncByte && HeaderCrcOk(crc8, t)
    ensures ParsePacket(crc8, t + x) == ParseAtHeader(crc8, t + x)
    ensures ParseAtHeader(crc8, t).progressed ==>
              ParseAtHeader(crc8, t + x) == Step(ParseAtHeader(crc8, t).buffer + x, ParseAtHeader(crc8, t).emitted, true)
  {
    assert (t + x)[..HeaderSize] == t[..HeaderSize];
    HeaderOfPrefix(crc8, t + x, t);
    AdoptsCandidate(crc8, t + x, 0);
    assert (t + x)[0..] == t + x;
    if ParseAtHeader(crc8, t).progressed {
      ParseAtHeaderExtend(crc8, t, x);
    }
  }

  /** What one `parsePacket` call does to `b` it also does to `b + x`: a call
      that made progress makes the same progress and keeps `x`; a call that
      waited or discarded behaves as if `x` had been appended to what it left. */
  lemma {:induction false} StepExtend(crc8: Checksum, b: seq<Byte>, x: seq<Byte>)
    ensures ParsePacket(crc8, b).progressed ==>
              ParsePacket(crc8, b + x) == Step(ParsePacket(crc8, b).buffer + x, ParsePacket(crc8, b).emitted, true)
    ensures !ParsePacket(crc8, b).progressed ==> ParsePacket(crc8, b + x) == ParsePacket(crc8, ParsePacket(crc8, b).buffer + x)
  {
    match FirstViable(crc8, b, 0)
    case None =>
      StepExtendNoCandidate(crc8, b, x);
      assert [] + x == x;
    case Some(c) =>
      StepExtendCandidate(crc8, b, x, c);
      if |b| - c < HeaderSize {
        ShortCandidateWaits(crc8, b, c);
      } else {
        AdoptsCandidate(crc8, b, c);
        StepExtendHeader(crc8, b[c..], x);
      }
  }

  // ---------------------------------------------------------------------
  // Chunk-boundary invariance

  /** Draining `b + x` is draining `b`, then draining what it left with `x`
      appended: frames come out in the same order and the same bytes remain. */
  predicate DrainSplits(crc8: Checksum, b: seq<Byte>, x: seq<Byte>) {
    var first := Drain(crc8, b);
    var second := Drain(crc8, first.buffer + x);
    Drain(crc8, b + x) == Feed(second.buffer, first.frames + second.frames)
  }

  /** `DrainSplits` for a buffer on which `parsePacket` makes progress, from
      `DrainSplits` for the buffer that call leaves. */
  lemma DrainSplitsProgress(crc8: Checksum, b: seq<Byte>, x: seq<Byte>)
    requires ParsePacket(crc8, b).progressed
    requires DrainSplits(crc8, ParsePacket(crc8, b).buffer, x)
    ensures DrainSplits(crc8, b, x)
  {
    var s := ParsePacket(crc8, b);
    StepExtend(crc8, b, x);
    DrainProgress(crc8, b);
    DrainProgress(crc8, b + x);
    assert (s.buffer + x) == ParsePacket(crc8, b + x).buffer;
    ConcatAssoc(EmittedFrames(s), Drain(crc8, s.buffer).frames, Drain(crc8, Drain(crc8, s.buffer).buffer + x).frames);
  }

  /** `DrainSplits` for a buffer on which `parsePacket` makes no progress. */
  lemma DrainSplitsStuck(crc8: Checksum, b: seq<Byte>, x: seq<Byte>)
    requires !ParsePacket(crc8, b).progressed
    ensures DrainSplits(crc8, b, x)
  {
    var s := ParsePacket(crc8, b);
    StepExtend(crc8, b, x);
    DrainStuck(crc8, b);
    var second := Drain(crc8, s.buffer + x);
    DrainSameStep(crc8, b + x, s.buffer + x);
    assert [] + second.frames == second.frames;
  }

  /** Two buffers on which `parsePacket` does the same drain the same. */
  lemma DrainSameStep(crc8: Checksum, u: seq<Byte>, v: seq<Byte>)
    requires ParsePacket(crc8, u) == ParsePacket(crc8, v)
    ensures Drain(crc8, u) == Drain(crc8, v)
  {
  }

  lemma {:induction false} DrainConcat(crc8: Checksum, b: seq<Byte>, x: seq<Byte>)
    ensures Drain(crc8, b + x) ==
              Feed(Drain(crc8, Drain(crc8, b).buffer + x).buffer, Drain(crc8, b).frames + Drain(crc8, Drain(crc8, b).buffer + x).frames)
    decreases |b|
  {
    if ParsePacket(crc8, b).progressed {
      DrainConcat(crc8, ParsePacket(crc8, b).buffer, x);
      DrainSplitsProgress(crc8, b, x);
    } else {
      DrainSplitsStuck(crc8, b, x);
    }
  }

  /** Writing a stream to the framer in any number of chunks, starting from
      a buffer at rest, pushes exactly the frames, and leaves exactly the
      buffer, of one write of the whole stream. */
  lemma {:induction false} ChunkInvariance(crc8: Checksum, buf: seq<Byte>, chunks: seq<seq<Byte>>)
    requires AtRest(crc8, buf)
    ensures FeedChunks(crc8, buf, chunks) == Drain(crc8, buf + Concat(chunks))
    decreases |chunks|
  {
    if |chunks| == 0 {
      assert buf + [] == buf;
      DrainStuck(crc8, buf);
    } else {
      var first := Drain(crc8, buf + chunks[0]);
      DrainQuiescent(crc8, buf + chunks[0]);
      ChunkInvariance(crc8, first.buffer, chunks[1..]);
      DrainConcat(crc8, buf + chunks[0], Concat(chunks[1..]));
      ConcatAssoc(buf, chunks[0], Concat(chunks[1..]));
    }
  }

  /** The framer starts with an empty buffer, so however the serial port
      splits the stream, the frames pushed are those of the whole stream. */
  lemma ChunkInvarianceFromStart(crc8: Checksum, chunks: seq<seq<Byte>>)
    ensures FeedChunks(crc8, [], chunks) == Drain(crc8, Concat(chunks))
  {
    ChunkInvariance(crc8, [], chunks);
    assert [] + Concat(chunks) == Concat(chunks);
  }

  // ---------------------------------------------------------------------
  // Well-formed frames, noise and damaged frames

  /** A well-formed frame at the start of the buffer is emitted whole. */
  lemma WellFormedParse(crc8: Checksum, f: seq<Byte>)
    requires WellFormedFrame(crc8, f)
    ensures ParsePacket(crc8, f) == Step([], Some(f), true)
  {
    FirstViableUnique(crc8, f, 0);
    assert f[0] == SyncByte;
    assert f[0..] == f;
    assert f[..|f|] == f;
  }

  /** Round trip: one write of a well-formed frame pushes exactly that frame,
      unaltered, and leaves the buffer empty. */
  lemma SingleFrameRoundTrip(crc8: Checksum, f: seq<Byte>)
    requires WellFormedFrame(crc8, f)
    ensures Drain(crc8, f) == Feed([], [f])
  {
    WellFormedParse(crc8, f);
    DrainProgress(crc8, f);
    DrainStuck(crc8, []);
  }

  /** A well-formed frame followed by anything: the frame comes out first and
      the rest is framed as if it had arrived alone. */
  lemma FrameThenStream(crc8: Checksum, f: seq<Byte>, x: seq<Byte>)
    requires WellFormedFrame(crc8, f)
    ensures Drain(crc8, f + x) == Feed(Drain(crc8, x).buffer, [f] + Drain(crc8, x).frames)
  {
    WellFormedParse(crc8, f);
    StepExtend(crc8, f, x);
    assert [] + x == x;
    DrainProgress(crc8, f + x);
  }

  /** Two well-formed frames in one write come out both, in order. */
  lemma TwoFramesInOrder(crc8: Checksum, f1: seq<Byte>, f2: seq<Byte>)
    requires WellFormedFrame(crc8, f1) && WellFormedFrame(crc8, f2)
    ensures Drain(crc8, f1 + f2) == Feed([], [f1, f2])
  {
    var d := Drain(crc8, f2);
    assert d == Feed([], [f2]) by {
      SingleFrameRoundTrip(crc8, f2);
    }
    assert Drain(crc8, f1 + f2) == Feed(d.buffer, [f1] + d.frames) by {
      FrameThenStream(crc8, f1, f2);
    }
    assert [f1] + [f2] == [f1, f2];
  }

  /** Leading noise whose sync bytes all fail the header CRC does not stop a
      well-formed frame from being extracted. */
  lemma NoiseTolerance(crc8: Checksum, noise: seq<Byte>, f: seq<Byte>)
    requires WellFormedFrame(crc8, f)
    requires forall j :: 0 <= j < |noise| && (noise + f)[j] == SyncByte ==> Rejected(crc8, noise + f, j)
    ensures Drain(crc8, noise + f) == Feed([], [f])
  {
    var b := noise + f;
    forall j | 0 <= j < |noise|
      ensures !Viable(crc8, b, j)
    {
    }
    ShiftLemma(crc8, b, |noise|);
    assert b[|noise|..] == f;
    WellFormedParse(crc8, f);
    DrainProgress(crc8, b);
    DrainStuck(crc8, []);
  }

  /** A frame whose header is sound but whose data CRC fails is dropped
      without losing synchronisation: what follows it is framed as if the
      damaged frame had never been received. */
  lemma CorruptFrameDropped(crc8: Checksum, g: seq<Byte>, x: seq<Byte>)
    requires |g| >= HeaderSize && g[0] == SyncByte && HeaderCrcOk(crc8, g)
    requires |g| == PacketLength(g) && !PayloadCrcOk(crc8, g)
    ensures Drain(crc8, g + x) == Drain(crc8, x)
  {
    FirstViableUnique(crc8, g, 0);
    assert g[0] == SyncByte;
    assert g[0..] == g;
    assert ParsePacket(crc8, g) == Step([], None, true);
    StepExtend(crc8, g, x);
    assert [] + x == x;
    DrainProgress(crc8, g + x);
    if ParsePacket(crc8, x).progressed {
      DrainProgress(crc8, x);
    } else {
      DrainStuck(crc8, x);
    }
  }
}
