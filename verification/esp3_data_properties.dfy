/** Properties of `parseEsp3Data`: its checks are the framer's checks, every
    frame the framer emits passes them, and decoding inverts the frame
    encoding. */
module Esp3DataProperties {
  import opened Wrappers
  import opened Bytes
  import opened Esp3PacketParser
  import opened Esp3FramerProperties
  import opened Esp3DataParser

  // ---------------------------------------------------------------------
  // The frame checks

  /** A packet too short to hold the header CRC makes a read throw. */
  lemma ShortPacketOutOfRange(crc8: Checksum, p: seq<Byte>)
    requires |p| < HeaderSize
    ensures ParseEsp3Data(crc8, p) == Failure(OutOfRange)
  {
  }

  /** The header check of the decoder is the framer's header check. */
  lemma HeaderCheckAgrees(crc8: Checksum, p: seq<Byte>)
    requires |p| >= HeaderSize
    ensures ParseEsp3Data(crc8, p) == Failure(HeaderCrcMismatch) <==> !HeaderCrcOk(crc8, p)
  {
    assert Subarray(p, 1, 5) == p[1..5];
  }

  /** With a sound header, a packet shorter than its announced length makes
      the read of the data CRC byte throw. */
  lemma TruncatedPacketOutOfRange(crc8: Checksum, p: seq<Byte>)
    requires |p| >= HeaderSize && HeaderCrcOk(crc8, p) && |p| < PacketLength(p)
    ensures ParseEsp3Data(crc8, p) == Failure(OutOfRange)
  {
    assert Subarray(p, 1, 5) == p[1..5];
  }

  /** With a sound header and the whole frame present, the data check of the
      decoder is the framer's payload check. */
  lemma PayloadCheckAgrees(crc8: Checksum, p: seq<Byte>)
    requires |p| >= HeaderSize && HeaderCrcOk(crc8, p) && |p| >= PacketLength(p)
    ensures ParseEsp3Data(crc8, p) == Failure(DataCrcMismatch) <==> !PayloadCrcOk(crc8, p)
  {
    var dataLength := ReadUInt16BE(p, 1);
    var n := PacketLength(p);
    assert Subarray(p, 1, 5) == p[1..5];
    assert Subarray(p, 6, 6 + dataLength) == p[6..6 + dataLength];
    assert Subarray(p, 6 + dataLength, n - 1) == p[6 + dataLength..n - 1];
    SliceConcat(p, 6, 6 + dataLength, n - 1);
  }

  /** Whatever the decoder accepts has a sound header CRC, is at least as long
      as its header announces, has a sound payload CRC, is of type RADIO_ERP2
      and carries at least two bytes of optional data. The sync byte and any
      bytes after the announced length are not looked at. */
  lemma DecodedPacketChecks(crc8: Checksum, p: seq<Byte>)
    requires ParseEsp3Data(crc8, p).Success?
    ensures |p| >= HeaderSize && HeaderCrcOk(crc8, p)
    ensures |p| >= PacketLength(p) && PayloadCrcOk(crc8, p)
    ensures p[4] == PacketTypeRadioErp2 && p[3] >= 2
  {
    HeaderCheckAgrees(crc8, p);
    if |p| < PacketLength(p) {
      TruncatedPacketOutOfRange(crc8, p);
    } else {
      PayloadCheckAgrees(crc8, p);
    }
  }

  // ---------------------------------------------------------------------
  // Frame encoding

  /** The data field of a frame whose header announces its length. */
  function FrameData(f: seq<Byte>): seq<Byte>
    requires |f| >= HeaderSize && |f| >= PacketLength(f)
  {
    f[HeaderSize..HeaderSize + ReadUInt16BE(f, 1)]
  }

  /** The optional-data field of a frame whose header announces its length. */
  function FrameOptionalData(f: seq<Byte>): seq<Byte>
    requires |f| >= HeaderSize && |f| >= PacketLength(f)
  {
    f[HeaderSize + ReadUInt16BE(f, 1)..PacketLength(f) - 1]
  }

  /** The four header bytes after the sync byte. */
  function EncodeHeader(packetType: Byte, dataLength: nat, optionalLength: nat): (h: seq<Byte>)
    requires dataLength < 0x1_0000 && optionalLength < 0x100
    ensures |h| == 4 && ReadUInt16BE(h, 0) == dataLength && h[2] as nat == optionalLength && h[3] == packetType
  {
    [(dataLength / 256) as Byte, (dataLength % 256) as Byte, optionalLength as Byte, packetType]
  }

  /** An ESP3 frame as a sender builds it: sync byte, header, header CRC,
      data, optional data and data CRC. */
  function EncodeFrame(crc8: Checksum, packetType: Byte, data: seq<Byte>, optionalData: seq<Byte>): seq<Byte>
    requires |data| < 0x1_0000 && |optionalData| < 0x100
  {
    var h := EncodeHeader(packetType, |data|, |optionalData|);
    [SyncByte] + h + [crc8(h)] + data + optionalData + [crc8(data + optionalData)]
  }

  /** The positions of the fields of an encoded frame. */
  lemma EncodeFrameLayout(crc8: Checksum, packetType: Byte, data: seq<Byte>, optionalData: seq<Byte>)
    requires |data| < 0x1_0000 && |optionalData| < 0x100
    ensures var f := EncodeFrame(crc8, packetType, data, optionalData);
            && |f| == FrameOverhead + |data| + |optionalData|
            && f[0] == SyncByte
            && f[1..5] == EncodeHeader(packetType, |data|, |optionalData|)
            && f[5] == crc8(f[1..5])
            && f[HeaderSize..HeaderSize + |data|] == data
            && f[HeaderSize + |data|..|f| - 1] == optionalData
            && f[|f| - 1] == crc8(data + optionalData)
  {
    var h := EncodeHeader(packetType, |data|, |optionalData|);
    var f := EncodeFrame(crc8, packetType, data, optionalData);
    var head := [SyncByte] + h + [crc8(h)];
    assert f == head + data + optionalData + [crc8(data + optionalData)];
    assert f[1..5] == h;
    assert f[HeaderSize..HeaderSize + |data|] == data;
    assert f[HeaderSize + |data|..|f| - 1] == optionalData;
  }

  /** An encoded frame passes both of the framer's checks, and its header
      announces the data and optional data it was built from. */
  lemma EncodeFrameWellFormed(crc8: Checksum, packetType: Byte, data: seq<Byte>, optionalData: seq<Byte>)
    requires |data| < 0x1_0000 && |optionalData| < 0x100
    ensures var f := EncodeFrame(crc8, packetType, data, optionalData);
            && WellFormedFrame(crc8, f)
            && f[4] == packetType
            && FrameData(f) == data
            && FrameOptionalData(f) == optionalData
  {
    var f := EncodeFrame(crc8, packetType, data, optionalData);
    EncodeFrameLayout(crc8, packetType, data, optionalData);
    var h := EncodeHeader(packetType, |data|, |optionalData|);
    assert f[1] == h[0] && f[2] == h[1] && f[3] == h[2] && f[4] == h[3];
    assert PacketLength(f) == |f|;
    SliceConcat(f, HeaderSize, HeaderSize + |data|, |f| - 1);
  }

  /** Every frame the framer lets through is the encoding of its own type,
      data and optional data. */
  lemma WellFormedFrameIsEncoded(crc8: Checksum, f: seq<Byte>)
    requires WellFormedFrame(crc8, f)
    ensures |FrameData(f)| < 0x1_0000 && |FrameOptionalData(f)| < 0x100
    ensures f == EncodeFrame(crc8, f[4], FrameData(f), FrameOptionalData(f))
  {
    var data := FrameData(f);
    var optionalData := FrameOptionalData(f);
    var g := EncodeFrame(crc8, f[4], data, optionalData);
    EncodeFrameLayout(crc8, f[4], data, optionalData);
    var h := EncodeHeader(f[4], |data|, |optionalData|);
    assert f[1..5] == h;
    SliceConcat(f, HeaderSize, HeaderSize + |data|, |f| - 1);
    assert |g| == |f|;
    forall k | 0 <= k < |f|
      ensures f[k] == g[k]
    {
      if k == 0 {
      } else if k < 5 {
        assert f[k] == f[1..5][k - 1] && g[k] == g[1..5][k - 1];
      } else if k == 5 {
        assert f[1..5] == g[1..5];
      } else if k < HeaderSize + |data| {
        assert f[k] == data[k - HeaderSize] == g[k];
      } else if k < |f| - 1 {
        assert f[k] == optionalData[k - HeaderSize - |data|] == g[k];
      } else {
        assert f[HeaderSize..|f| - 1] == g[HeaderSize..|g| - 1];
      }
    }
  }

  /** Decoding inverts encoding: an encoded RADIO_ERP2 frame with at least
      two bytes of optional data yields its data as `rawData`, the decoded
      telegram, and the first two optional bytes as `subTelNum` and `dBm`;
      any other packet type is rejected by type, and too little optional
      data makes a read throw. */
  lemma DecodeEncodedFrame(crc8: Checksum, packetType: Byte, data: seq<Byte>, optionalData: seq<Byte>)
    requires |data| < 0x1_0000 && |optionalData| < 0x100
    ensures ParseEsp3Data(crc8, EncodeFrame(crc8, packetType, data, optionalData)) ==
              if packetType != PacketTypeRadioErp2 then Failure(UnsupportedPacketType(packetType))
              else if |optionalData| < 2 then Failure(OutOfRange)
              else Success(Esp3Data(data, ParseErp2(crc8, data), optionalData[0], optionalData[1]))
  {
    var f := EncodeFrame(crc8, packetType, data, optionalData);
    EncodeFrameWellFormed(crc8, packetType, data, optionalData);
    EncodeFrameLayout(crc8, packetType, data, optionalData);
    var dataLength := ReadUInt16BE(f, 1);
    assert dataLength == |data| && f[3] as nat == |optionalData|;
    HeaderCheckAgrees(crc8, f);
    PayloadCheckAgrees(crc8, f);
    assert Subarray(f, 6, 6 + dataLength) == data;
    assert Subarray(f, 6 + dataLength, 6 + dataLength + |optionalData|) == optionalData;
  }

  /** Composition with the framer: every frame it emits passes both CRC
      checks of the decoder, which then only rejects it for its type or for
      too little optional data. */
  lemma DecodeWellFormedFrame(crc8: Checksum, f: seq<Byte>)
    requires WellFormedFrame(crc8, f)
    ensures ParseEsp3Data(crc8, f) ==
              if f[4] != PacketTypeRadioErp2 then Failure(UnsupportedPacketType(f[4]))
              else if |FrameOptionalData(f)| < 2 then Failure(OutOfRange)
              else Success(Esp3Data(FrameData(f), ParseErp2(crc8, FrameData(f)),
                                    FrameOptionalData(f)[0], FrameOptionalData(f)[1]))
  {
    WellFormedFrameIsEncoded(crc8, f);
    DecodeEncodedFrame(crc8, f[4], FrameData(f), FrameOptionalData(f));
  }

  /** From radio telegram to decoded data: a frame built from `rawData` and
      optional data, written to a fresh framer in any number of chunks, is
      pushed exactly once and unaltered, and decodes back to `rawData`. */
  lemma StreamedFrameDecodes(crc8: Checksum, rawData: seq<Byte>, optionalData: seq<Byte>, chunks: seq<seq<Byte>>)
    requires |rawData| < 0x1_0000 && 2 <= |optionalData| < 0x100
    requires Concat(chunks) == EncodeFrame(crc8, PacketTypeRadioErp2, rawData, optionalData)
    ensures FeedChunks(crc8, [], chunks).frames == [Concat(chunks)]
    ensures ParseEsp3Data(crc8, Concat(chunks)) ==
              Success(Esp3Data(rawData, ParseErp2(crc8, rawData), optionalData[0], optionalData[1]))
  {
    EncodeFrameWellFormed(crc8, PacketTypeRadioErp2, rawData, optionalData);
    ChunkInvarianceFromStart(crc8, chunks);
    SingleFrameRoundTrip(crc8, Concat(chunks));
    DecodeEncodedFrame(crc8, PacketTypeRadioErp2, rawData, optionalData);
  }
}
