/** The ESP3 (EnOcean Serial Protocol 3) stream framer: it cuts CRC-checked
    frames out of the byte stream received from the serial port and
    resynchronises past noise and damaged frames.

    Frame layout: sync byte 0x55, data length (2 bytes, big-endian), optional
    length (1 byte), packet type (1 byte), header CRC8 over the four preceding
    bytes, data, optional data, and a CRC8 over data and optional data. */
module Esp3PacketParser {
  import opened Wrappers
  import opened Bytes

  const SyncByte: Byte := 0x55

  /** Sync byte, four header bytes and the header CRC. */
  const HeaderSize: nat := 6

  /** Everything in a frame except data and optional data. */
  const FrameOverhead: nat := 7

  /** The header CRC of a buffer that starts at a sync candidate matches. */
  predicate HeaderCrcOk(crc8: Checksum, t: seq<Byte>)
    requires |t| >= HeaderSize
  {
    crc8(t[1..5]) == t[5]
  }

  /** Total frame length announced by the header at the start of `t`. */
  function PacketLength(t: seq<Byte>): (n: nat)
    requires |t| >= HeaderSize
    ensures n >= FrameOverhead
    ensures n == FrameOverhead + (t[1] as nat * 256 + t[2] as nat) + t[3] as nat
  {
    FrameOverhead + ReadUInt16BE(t, 1) + t[3] as nat
  }

  /** The trailing CRC of the frame at the start of `t` matches its data and
      optional data. */
  predicate PayloadCrcOk(crc8: Checksum, t: seq<Byte>)
    requires |t| >= HeaderSize && |t| >= PacketLength(t)
  {
    crc8(t[HeaderSize..PacketLength(t) - 1]) == t[PacketLength(t) - 1]
  }

  /** A complete frame that passes both CRC checks: exactly what the framer
      is allowed to hand on. */
  predicate WellFormedFrame(crc8: Checksum, f: seq<Byte>) {
    && |f| >= HeaderSize
    && f[0] == SyncByte
    && HeaderCrcOk(crc8, f)
    && |f| == PacketLength(f)
    && PayloadCrcOk(crc8, f)
  }

  /** The header fields and both CRC verdicts only look at the first
      `PacketLength` bytes, so they survive cutting `t` or extending it. */
  lemma HeaderOfPrefix(crc8: Checksum, t: seq<Byte>, u: seq<Byte>)
    requires |t| >= HeaderSize && |u| >= HeaderSize && t[..HeaderSize] == u[..HeaderSize]
    ensures HeaderCrcOk(crc8, t) == HeaderCrcOk(crc8, u)
    ensures PacketLength(t) == PacketLength(u)
    ensures |t| >= PacketLength(t) && |u| >= PacketLength(u) && t[..PacketLength(t)] == u[..PacketLength(u)] ==>
              PayloadCrcOk(crc8, t) == PayloadCrcOk(crc8, u)
  {
    assert t[1..5] == t[..HeaderSize][1..5];
    assert u[1..5] == u[..HeaderSize][1..5];
    assert t[1] == t[..HeaderSize][1] && t[2] == t[..HeaderSize][2] && t[3] == t[..HeaderSize][3];
    assert u[1] == u[..HeaderSize][1] && u[2] == u[..HeaderSize][2] && u[3] == u[..HeaderSize][3];
    var n := PacketLength(t);
    if |t| >= n && |u| >= n && t[..n] == u[..n] {
      assert t[HeaderSize..n - 1] == t[..n][HeaderSize..n - 1];
      assert u[HeaderSize..n - 1] == u[..n][HeaderSize..n - 1];
      assert t[n - 1] == t[..n][n - 1] && u[n - 1] == u[..n][n - 1];
    }
  }

  /** Every frame of `fs` is well formed. */
  predicate AllWellFormed(crc8: Checksum, fs: seq<seq<Byte>>) {
    forall k :: 0 <= k < |fs| ==> WellFormedFrame(crc8, fs[k])
  }

  lemma AllWellFormedConcat(crc8: Checksum, a: seq<seq<Byte>>, b: seq<seq<Byte>>)
    requires AllWellFormed(crc8, a) && AllWellFormed(crc8, b)
    ensures AllWellFormed(crc8, a + b)
  {
    forall k | 0 <= k < |a + b|
      ensures WellFormedFrame(crc8, (a + b)[k])
    {
      if k < |a| {
        assert (a + b)[k] == a[k];
      } else {
        assert (a + b)[k] == b[k - |a|];
      }
    }
  }

  /** `r` is what remains of `buf` after dropping some prefix. */
  predicate IsSuffix(r: seq<Byte>, buf: seq<Byte>) {
    |r| <= |buf| && r == buf[|buf| - |r|..]
  }

  lemma SuffixTransitive(a: seq<Byte>, b: seq<Byte>, c: seq<Byte>)
    requires IsSuffix(a, b) && IsSuffix(b, c)
    ensures IsSuffix(a, c)
  {
    assert b[|b| - |a|..] == c[|c| - |a|..];
  }

  /** A candidate that the header-CRC loop does not step over: a sync byte
      that either has fewer than six bytes after it (the loop stops and waits)
      or carries a matching header CRC (the loop adopts it). */
  predicate Viable(crc8: Checksum, buf: seq<Byte>, j: nat)
    requires j < |buf|
  {
    buf[j] == SyncByte && (|buf| - j < HeaderSize || HeaderCrcOk(crc8, buf[j..]))
  }

  /** A sync byte whose header CRC was checked and failed. */
  predicate Rejected(crc8: Checksum, buf: seq<Byte>, j: nat)
    requires j < |buf|
  {
    |buf| - j >= HeaderSize && !HeaderCrcOk(crc8, buf[j..])
  }

  /** `c` is the first candidate the loop does not step over. */
  predicate FirstCandidate(crc8: Checksum, buf: seq<Byte>, c: nat) {
    c < |buf| && Viable(crc8, buf, c) && forall j :: 0 <= j < c ==> !Viable(crc8, buf, j)
  }

  /** Scans the candidates at or after `i` in ascending order. */
  function FirstViable(crc8: Checksum, buf: seq<Byte>, i: nat): (r: Option<nat>)
    requires i <= |buf|
    ensures r.Some? ==> i <= r.value < |buf| && Viable(crc8, buf, r.value)
    ensures r.Some? ==> forall j :: i <= j < r.value ==> !Viable(crc8, buf, j)
    ensures r.None? ==> forall j :: i <= j < |buf| ==> !Viable(crc8, buf, j)
    decreases |buf| - i
  {
    if i == |buf| then None
    else if Viable(crc8, buf, i) then Some(i)
    else FirstViable(crc8, buf, i + 1)
  }

  /** Outcome of one `parsePacket` call: the new buffer, the frame pushed
      downstream (if any), and the returned flag. */
  datatype Step = Step(buffer: seq<Byte>, emitted: Option<seq<Byte>>, progressed: bool)

  /** The part of `parsePacket` after a header with a matching CRC was
      adopted at the start of `t`. */
  function ParseAtHeader(crc8: Checksum, t: seq<Byte>): (r: Step)
    requires |t| >= HeaderSize
    ensures !r.progressed ==> r == Step(t, None, false)
    ensures r.progressed <==> |t| >= PacketLength(t)
    ensures r.progressed ==> r.buffer == t[PacketLength(t)..]
    ensures r.emitted.Some? <==> r.progressed && PayloadCrcOk(crc8, t)
    ensures r.emitted.Some? ==> r.emitted.value == t[..PacketLength(t)]
  {
    var dataLength := ReadUInt16BE(t, 1);
    var optionalLength := t[3] as nat;
    var packetLength := PacketLength(t);
    if |t| < packetLength then
      Step(t, None, false)
    else
      var data := t[6..6 + dataLength];
      var optionalData := t[6 + dataLength..6 + dataLength + optionalLength];
      var dataCrc8Byte := t[6 + dataLength + optionalLength];
      SliceConcat(t, 6, 6 + dataLength, packetLength - 1);
      var computedDataCrc8Byte := crc8(data + optionalData);
      assert computedDataCrc8Byte == dataCrc8Byte <==> PayloadCrcOk(crc8, t);
      HeaderOfPrefix(crc8, t, t[..packetLength]);
      if dataCrc8Byte != computedDataCrc8Byte then
        Step(t[packetLength..], None, true)
      else
        Step(t[packetLength..], Some(t[..packetLength]), true)
  }

  /** One call of `parsePacket` on the buffer `buf`. */
  function ParsePacket(crc8: Checksum, buf: seq<Byte>): (r: Step)
    ensures IsSuffix(r.buffer, buf)
    ensures r.progressed ==> |r.buffer| + FrameOverhead <= |buf|
    ensures r.emitted.Some? ==> r.progressed && WellFormedFrame(crc8, r.emitted.value)
    ensures r.emitted.Some? ==>
              |r.emitted.value| + |r.buffer| <= |buf| &&
              buf[|buf| - |r.buffer| - |r.emitted.value|..|buf| - |r.buffer|] == r.emitted.value
    ensures (forall j :: 0 <= j < |buf| ==> buf[j] != SyncByte) ==> r == Step([], None, false)
  {
    if SyncByte !in buf then
      Step([], None, false)
    else
      match FirstViable(crc8, buf, 0)
      case None => Step([], None, false)
      case Some(c) =>
        var tmp := buf[c..];
        if |tmp| < HeaderSize then Step(tmp, None, false)
        else
          var r := ParseAtHeader(crc8, tmp);
          assert r.emitted.Some? ==> WellFormedFrame(crc8, r.emitted.value) by {
            if r.emitted.Some? {
              var f := r.emitted.value;
              assert f[..HeaderSize] == tmp[..HeaderSize];
              assert f[..PacketLength(tmp)] == tmp[..PacketLength(tmp)];
              HeaderOfPrefix(crc8, tmp, f);
            }
          }
          assert r.emitted.Some? ==> buf[c..c + |r.emitted.value|] == r.emitted.value;
          r
  }

  /** Viability of a candidate only depends on the bytes from it onwards. */
  lemma ViableShift(crc8: Checksum, buf: seq<Byte>, c: nat, j: nat)
    requires c <= j < |buf|
    ensures Viable(crc8, buf, j) == Viable(crc8, buf[c..], j - c)
  {
    assert buf[c..][j - c..] == buf[j..];
  }

  lemma FirstViableUnique(crc8: Checksum, buf: seq<Byte>, c: nat)
    requires FirstCandidate(crc8, buf, c)
    ensures FirstViable(crc8, buf, 0) == Some(c)
  {
  }

  /** Dropping a prefix in which every candidate is stepped over does not
      change what `parsePacket` does. */
  lemma {:induction false} ShiftLemma(crc8: Checksum, buf: seq<Byte>, c: nat)
    requires c <= |buf|
    requires forall j :: 0 <= j < c ==> !Viable(crc8, buf, j)
    ensures ParsePacket(crc8, buf) == ParsePacket(crc8, buf[c..])
  {
    var y := buf[c..];
    match FirstViable(crc8, buf, 0)
    case None =>
      forall j | 0 <= j < |y|
        ensures !Viable(crc8, y, j)
      {
        ViableShift(crc8, buf, c, j + c);
      }
      assert FirstViable(crc8, y, 0) == None;
    case Some(d) =>
      ViableShift(crc8, buf, c, d);
      forall j | 0 <= j < d - c
        ensures !Viable(crc8, y, j)
      {
        ViableShift(crc8, buf, c, j + c);
      }
      FirstViableUnique(crc8, y, d - c);
      assert buf[d] == SyncByte && y[d - c] == SyncByte;
      assert y[d - c..] == buf[d..];
  }

  /** When `parsePacket` returns false, calling it again on the buffer it
      left behind changes nothing: the repeat loop has reached a fixed point. */
  lemma {:induction false} StuckIsFixedPoint(crc8: Checksum, buf: seq<Byte>)
    requires !ParsePacket(crc8, buf).progressed
    ensures ParsePacket(crc8, ParsePacket(crc8, buf).buffer) == Step(ParsePacket(crc8, buf).buffer, None, false)
  {
    if SyncByte in buf {
      match FirstViable(crc8, buf, 0)
      case None =>
      case Some(c) =>
        ShiftLemma(crc8, buf, c);
    }
  }

  /** State carried between `_transform` calls and the frames pushed. */
  datatype Feed = Feed(buffer: seq<Byte>, frames: seq<seq<Byte>>)

  function EmittedFrames(s: Step): seq<seq<Byte>> {
    if s.emitted.Some? then [s.emitted.value] else []
  }

  /** Repeats `parsePacket` on `buf` until it returns false (the loop of
      `_transform`). */
  function Drain(crc8: Checksum, buf: seq<Byte>): (r: Feed)
    ensures IsSuffix(r.buffer, buf)
    ensures AllWellFormed(crc8, r.frames)
    decreases |buf|
  {
    var s := ParsePacket(crc8, buf);
    if !s.progressed then
      Feed(s.buffer, [])
    else
      var rest := Drain(crc8, s.buffer);
      SuffixTransitive(rest.buffer, s.buffer, buf);
      AllWellFormedConcat(crc8, EmittedFrames(s), rest.frames);
      Feed(rest.buffer, EmittedFrames(s) + rest.frames)
  }

  /** One unfolding of `Drain` when `parsePacket` returns false. */
  lemma DrainStuck(crc8: Checksum, buf: seq<Byte>)
    requires !ParsePacket(crc8, buf).progressed
    ensures Drain(crc8, buf) == Feed(ParsePacket(crc8, buf).buffer, [])
  {
  }

  /** One unfolding of `Drain` when `parsePacket` returns true. */
  lemma DrainProgress(crc8: Checksum, buf: seq<Byte>)
    requires ParsePacket(crc8, buf).progressed
    ensures Drain(crc8, buf).buffer == Drain(crc8, ParsePacket(crc8, buf).buffer).buffer
    ensures Drain(crc8, buf).frames == EmittedFrames(ParsePacket(crc8, buf)) + Drain(crc8, ParsePacket(crc8, buf).buffer).frames
  {
  }

  /** A buffer on which `parsePacket` returns false and changes nothing: the
      state between two `_transform` calls. */
  predicate AtRest(crc8: Checksum, buf: seq<Byte>) {
    ParsePacket(crc8, buf) == Step(buf, None, false)
  }

  /** The buffer `Drain` leaves behind is at rest. */
  lemma {:induction false} DrainQuiescent(crc8: Checksum, buf: seq<Byte>)
    ensures AtRest(crc8, Drain(crc8, buf).buffer)
    decreases |buf|
  {
    var s := ParsePacket(crc8, buf);
    if s.progressed {
      DrainProgress(crc8, buf);
      DrainQuiescent(crc8, s.buffer);
    } else {
      DrainStuck(crc8, buf);
      StuckIsFixedPoint(crc8, buf);
    }
  }

  /** Frames `fs` pushed earlier, followed by the outcome `d` of a drain. */
  function After(fs: seq<seq<Byte>>, d: Feed): Feed {
    Feed(d.buffer, fs + d.frames)
  }

  /** One turn of the `_transform` loop, seen from the drain it unfolds. */
  lemma DrainLoopStep(crc8: Checksum, fs: seq<seq<Byte>>, buf: seq<Byte>)
    ensures var s := ParsePacket(crc8, buf);
            s.progressed ==> After(fs, Drain(crc8, buf)) == After(fs + EmittedFrames(s), Drain(crc8, s.buffer))
    ensures var s := ParsePacket(crc8, buf);
            !s.progressed ==> After(fs, Drain(crc8, buf)) == Feed(s.buffer, fs + EmittedFrames(s))
  {
    var s := ParsePacket(crc8, buf);
    if s.progressed {
      DrainProgress(crc8, buf);
      ConcatAssoc(fs, EmittedFrames(s), Drain(crc8, s.buffer).frames);
    } else {
      DrainStuck(crc8, buf);
      assert EmittedFrames(s) == [];
      assert fs + [] == fs;
    }
  }

  /** `_transform`: appends `chunk` to the buffer and calls `parsePacket`
      until it returns false; pushed frames are collected in order. */
  method Transform(crc8: Checksum, buffer: seq<Byte>, chunk: seq<Byte>) returns (newBuffer: seq<Byte>, frames: seq<seq<Byte>>)
    ensures Feed(newBuffer, frames) == Drain(crc8, buffer + chunk)
    ensures IsSuffix(newBuffer, buffer + chunk)
    ensures AllWellFormed(crc8, frames)
  {
    var hadPacket := true;
    newBuffer := buffer + chunk;
    frames := [];
    ghost var target := Drain(crc8, buffer + chunk);
    assert target == After([], target);
    while hadPacket
      invariant hadPacket ==> target == After(frames, Drain(crc8, newBuffer))
      invariant !hadPacket ==> target == Feed(newBuffer, frames)
      decreases if hadPacket then |newBuffer| + 1 else 0
    {
      var s := ParsePacket(crc8, newBuffer);
      DrainLoopStep(crc8, frames, newBuffer);
      frames := frames + EmittedFrames(s);
      newBuffer := s.buffer;
      hadPacket := s.progressed;
    }
  }

  /** Concatenation of a list of chunks. */
  function Concat(chunks: seq<seq<Byte>>): seq<Byte> {
    if |chunks| == 0 then [] else chunks[0] + Concat(chunks[1..])
  }

  /** Successive writes of `chunks` into a framer whose buffer is `buffer`:
      each write runs `_transform` once. */
  function FeedChunks(crc8: Checksum, buffer: seq<Byte>, chunks: seq<seq<Byte>>): (r: Feed)
    ensures AllWellFormed(crc8, r.frames)
    decreases |chunks|
  {
    if |chunks| == 0 then
      Feed(buffer, [])
    else
      var first := Drain(crc8, buffer + chunks[0]);
      var rest := FeedChunks(crc8, first.buffer, chunks[1..]);
      AllWellFormedConcat(crc8, first.frames, rest.frames);
      Feed(rest.buffer, first.frames + rest.frames)
  }
}
