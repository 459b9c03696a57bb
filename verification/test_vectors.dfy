/** The test frame of the repository's own tests, a RADIO_ERP2 telegram of a
    rocker switch with button A1 pressed, taken through the CRC, the framer,
    the decoder and the handler.

    CRC values are established one register update at a time: each of the
    `HeaderCrcStepN`, `FakeHeaderCrcStepN` and `PayloadCrcStepN` lemmas is a
    single byte folded into the register, and `CrcStep` chains
    them along the input. */
module TestVectors {
  import opened Wrappers
  import opened Bytes
  import opened Crc
  import opened Esp3PacketParser
  import opened Esp3FramerProperties
  import opened Esp3DataParser
  import opened Esp3DataProperties
  import opened Erp2Properties
  import opened SwitchHandler

  /** `55 00 07 02 0A 0A 20 00 2E 5C 72 84 F2 01 32 8B`: sync byte, data
      length 7, optional length 2, type RADIO_ERP2, header CRC, seven bytes
      of telegram, sub-telegram number 1, dBm 50, data CRC. */
  const Packet: seq<Byte> := [0x55, 0x00, 0x07, 0x02, 0x0A, 0x0A, 0x20, 0x00, 0x2E, 0x5C, 0x72, 0x84, 0xF2, 0x01, 0x32, 0x8B]

  /** The telegram: header 0x20 (address control 1, telegram type 0),
      originator ID `00 2E 5C 72`, data byte 0x84, telegram CRC 0xF2. */
  const RawData: seq<Byte> := [0x20, 0x00, 0x2E, 0x5C, 0x72, 0x84, 0xF2]

  const OriginatorId: seq<Byte> := [0x00, 0x2E, 0x5C, 0x72]

  // ---------------------------------------------------------------------
  // CRC register updates

  /** Register values while hashing the header `00 07 02 0A`. */
  lemma HeaderCrcStep0() ensures UpdateByte(0x00, 0x00) == 0x00 {}
  lemma HeaderCrcStep1() ensures UpdateByte(0x00, 0x07) == 0x15 {}
  lemma HeaderCrcStep2() ensures UpdateByte(0x15, 0x02) == 0x65 {}
  lemma HeaderCrcStep3() ensures UpdateByte(0x65, 0x0A) == 0x0A {}

  /** Register values while hashing the fake header `55 00 07 02`. */
  lemma FakeHeaderCrcStep0() ensures UpdateByte(0x00, 0x55) == 0xAC {}
  lemma FakeHeaderCrcStep1() ensures UpdateByte(0xAC, 0x00) == 0x4D {}
  lemma FakeHeaderCrcStep2() ensures UpdateByte(0x4D, 0x07) == 0xF1 {}
  lemma FakeHeaderCrcStep3() ensures UpdateByte(0xF1, 0x02) == 0xD7 {}

  /** Register values while hashing the payload `20 00 2E 5C 72 84 F2 01 32`;
      the first six steps are also those of the telegram CRC. */
  lemma PayloadCrcStep0() ensures UpdateByte(0x00, 0x20) == 0xE0 {}
  lemma PayloadCrcStep1() ensures UpdateByte(0xE0, 0x00) == 0xAE {}
  lemma PayloadCrcStep2() ensures UpdateByte(0xAE, 0x2E) == 0x89 {}
  lemma PayloadCrcStep3() ensures UpdateByte(0x89, 0x5C) == 0x25 {}
  lemma PayloadCrcStep4() ensures UpdateByte(0x25, 0x72) == 0xA2 {}
  lemma PayloadCrcStep5() ensures UpdateByte(0xA2, 0x84) == 0xF2 {}
  lemma PayloadCrcStep6() ensures UpdateByte(0xF2, 0xF2) == 0x00 {}
  lemma PayloadCrcStep7() ensures UpdateByte(0x00, 0x01) == 0x07 {}
  lemma PayloadCrcStep8() ensures UpdateByte(0x07, 0x32) == 0x8B {}

  // ---------------------------------------------------------------------
  // CRC vectors

  /** The header CRC of the test frame: crc8(00 07 02 0A) = 0x0A. */
  lemma HeaderCrcVector(p: seq<Byte>)
    requires p == [0x00, 0x07, 0x02, 0x0A]
    ensures Crc8(p) == 0x0A
  {
    assert p[0..] == p;
    HeaderCrcStep0(); CrcStep(0x00, p, 0, 0x00, 0x00);
    HeaderCrcStep1(); CrcStep(0x00, p, 1, 0x07, 0x15);
    HeaderCrcStep2(); CrcStep(0x15, p, 2, 0x02, 0x65);
    HeaderCrcStep3(); CrcStep(0x65, p, 3, 0x0A, 0x0A);
    assert p[4..] == [];
  }

  /** The header a fake sync byte in front of the frame would announce:
      crc8(55 00 07 02) = 0xD7, which is not the 0x0A that follows it. */
  lemma FakeHeaderCrcVector(p: seq<Byte>)
    requires p == [0x55, 0x00, 0x07, 0x02]
    ensures Crc8(p) == 0xD7
  {
    assert p[0..] == p;
    FakeHeaderCrcStep0(); CrcStep(0x00, p, 0, 0x55, 0xAC);
    FakeHeaderCrcStep1(); CrcStep(0xAC, p, 1, 0x00, 0x4D);
    FakeHeaderCrcStep2(); CrcStep(0x4D, p, 2, 0x07, 0xF1);
    FakeHeaderCrcStep3(); CrcStep(0xF1, p, 3, 0x02, 0xD7);
    assert p[4..] == [];
  }

  /** The telegram CRC: crc8(20 00 2E 5C 72 84) = 0xF2. */
  lemma TelegramCrcVector(p: seq<Byte>)
    requires p == [0x20, 0x00, 0x2E, 0x5C, 0x72, 0x84]
    ensures Crc8(p) == 0xF2
  {
    assert p[0..] == p;
    PayloadCrcStep0(); CrcStep(0x00, p, 0, 0x20, 0xE0);
    PayloadCrcStep1(); CrcStep(0xE0, p, 1, 0x00, 0xAE);
    PayloadCrcStep2(); CrcStep(0xAE, p, 2, 0x2E, 0x89);
    PayloadCrcStep3(); CrcStep(0x89, p, 3, 0x5C, 0x25);
    PayloadCrcStep4(); CrcStep(0x25, p, 4, 0x72, 0xA2);
    PayloadCrcStep5(); CrcStep(0xA2, p, 5, 0x84, 0xF2);
    assert p[6..] == [];
  }

  /** The data CRC of the test frame, over data and optional data:
      crc8(20 00 2E 5C 72 84 F2 01 32) = 0x8B. */
  lemma PayloadCrcVector(p: seq<Byte>)
    requires p == [0x20, 0x00, 0x2E, 0x5C, 0x72, 0x84, 0xF2, 0x01, 0x32]
    ensures Crc8(p) == 0x8B
  {
    assert p[0..] == p;
    PayloadCrcStep0(); CrcStep(0x00, p, 0, 0x20, 0xE0);
    PayloadCrcStep1(); CrcStep(0xE0, p, 1, 0x00, 0xAE);
    PayloadCrcStep2(); CrcStep(0xAE, p, 2, 0x2E, 0x89);
    PayloadCrcStep3(); CrcStep(0x89, p, 3, 0x5C, 0x25);
    PayloadCrcStep4(); CrcStep(0x25, p, 4, 0x72, 0xA2);
    PayloadCrcStep5(); CrcStep(0xA2, p, 5, 0x84, 0xF2);
    PayloadCrcStep6(); CrcStep(0xF2, p, 6, 0xF2, 0x00);
    PayloadCrcStep7(); CrcStep(0x00, p, 7, 0x01, 0x07);
    PayloadCrcStep8(); CrcStep(0x07, p, 8, 0x32, 0x8B);
    assert p[9..] == [];
  }

  // ---------------------------------------------------------------------
  // Framer

  /** The test frame passes both of the framer's checks. */
  lemma PacketWellFormed(p: seq<Byte>)
    requires p == Packet
    ensures WellFormedFrame(Crc8, p)
  {
    PacketFields(p);
    FieldsWellFormed(p);
  }

  /** Where the fields of the test frame sit. */
  lemma PacketFields(p: seq<Byte>)
    requires p == Packet
    ensures |p| == 16 && p[0] == SyncByte && p[5] == 0x0A && p[15] == 0x8B
    ensures p[1..5] == [0x00, 0x07, 0x02, 0x0A]
    ensures p[6..15] == [0x20, 0x00, 0x2E, 0x5C, 0x72, 0x84, 0xF2, 0x01, 0x32]
  {
  }

  /** A frame with the test frame's header and payload is well formed. */
  lemma FieldsWellFormed(p: seq<Byte>)
    requires |p| == 16 && p[0] == SyncByte && p[5] == 0x0A && p[15] == 0x8B
    requires p[1..5] == [0x00, 0x07, 0x02, 0x0A]
    requires p[6..15] == [0x20, 0x00, 0x2E, 0x5C, 0x72, 0x84, 0xF2, 0x01, 0x32]
    ensures WellFormedFrame(Crc8, p)
  {
    HeaderCrcVector(p[1..5]);
    assert p[1] == p[1..5][0] && p[2] == p[1..5][1] && p[3] == p[1..5][2];
    assert PacketLength(p) == 16;
    PayloadCrcVector(p[6..15]);
  }

  /** One write pushes the frame unchanged. */
  lemma SinglePacketParsing(p: seq<Byte>)
    requires p == Packet
    ensures FeedChunks(Crc8, [], [p]).frames == [p]
  {
    PacketWellFormed(p);
    ChunkInvarianceFromStart(Crc8, [p]);
    assert Concat([p]) == p;
    SingleFrameRoundTrip(Crc8, p);
  }

  /** The frame written in two pieces, split after byte 4, is pushed whole. */
  lemma SplitReceive(p: seq<Byte>)
    requires p == Packet
    ensures FeedChunks(Crc8, [], [p[..4], p[4..]]).frames == [p]
  {
    PacketWellFormed(p);
    ChunkInvarianceFromStart(Crc8, [p[..4], p[4..]]);
    SplitConcat(p, 4);
    SingleFrameRoundTrip(Crc8, p);
  }

  /** Two pieces of a split are written back to back. */
  lemma SplitConcat(p: seq<Byte>, k: nat)
    requires k <= |p|
    ensures Concat([p[..k], p[k..]]) == p
  {
    assert Concat([p[k..]]) == p[k..] + Concat([]);
    assert [p[..k], p[k..]][1..] == [p[k..]];
    assert p[..k] + p[k..] == p;
  }

  /** The frame written twice is pushed twice, in order. */
  lemma MultiplePacketParsing(p: seq<Byte>)
    requires p == Packet
    ensures FeedChunks(Crc8, [], [p, p]).frames == [p, p]
  {
    PacketWellFormed(p);
    ChunkInvarianceFromStart(Crc8, [p, p]);
    assert Concat([p, p]) == p + p by {
      assert Concat([p]) == p;
    }
    TwoFramesInOrder(Crc8, p, p);
  }

  /** A stray sync byte in front of the frame fails its header CRC and is
      skipped; the frame is pushed unchanged. */
  lemma FakeHeaderSyncByte(p: seq<Byte>)
    requires p == Packet
    ensures FeedChunks(Crc8, [], [[SyncByte] + p]).frames == [p]
  {
    FakeHeaderDrain(p);
    OneChunk(Crc8, [SyncByte] + p);
  }

  /** Draining the frame behind the stray sync byte. */
  lemma FakeHeaderDrain(p: seq<Byte>)
    requires p == Packet
    ensures Drain(Crc8, [SyncByte] + p) == Feed([], [p])
  {
    PacketWellFormed(p);
    FakeSyncRejected(p);
    NoiseTolerance(Crc8, [SyncByte], p);
  }

  /** A single write to a fresh framer is one drain of what was written. */
  lemma OneChunk(crc8: Checksum, b: seq<Byte>)
    ensures FeedChunks(crc8, [], [b]) == Drain(crc8, b)
  {
    var d := Drain(crc8, b);
    assert [] + b == b;
    assert [b][1..] == [];
    assert d.frames + [] == d.frames;
  }

  /** The stray sync byte is the only sync byte before the frame, and its
      header CRC fails. */
  lemma FakeSyncRejected(p: seq<Byte>)
    requires p == Packet
    ensures forall j :: 0 <= j < |[SyncByte]| && ([SyncByte] + p)[j] == SyncByte ==> Rejected(Crc8, [SyncByte] + p, j)
  {
    var b := [SyncByte] + p;
    FakeHeaderCrcVector(b[1..5]);
    assert b[5] == 0x0A;
    assert Rejected(Crc8, b, 0);
  }

  // ---------------------------------------------------------------------
  // Decoder and handler

  /** The fields of the test frame: type RADIO_ERP2, the telegram as data,
      and `01 32` as optional data. */
  lemma FrameFieldsVector(p: seq<Byte>)
    requires p == Packet
    ensures p[4] == PacketTypeRadioErp2
    ensures |p| >= HeaderSize && |p| >= PacketLength(p)
    ensures FrameData(p) == RawData && FrameOptionalData(p) == [0x01, 0x32]
  {
    assert ReadUInt16BE(p, 1) == 7;
    assert PacketLength(p) == 16;
    assert p[6..13] == RawData;
    assert p[13..15] == [0x01, 0x32];
  }

  /** The telegram of the test frame: address control 1, type 0, a four-byte
      originator ID and one data byte. */
  lemma TelegramVector(r: seq<Byte>)
    requires r == RawData
    ensures ParseErp2(Crc8, r) == Success(Full(0, None, None, OriginatorId, None, [0x84], []))
  {
    TelegramChecksVector(r);
    TelegramFieldsVector(r);
  }

  /** The test telegram passes the address-control and CRC checks. */
  lemma TelegramChecksVector(r: seq<Byte>)
    requires r == RawData
    ensures ParseErp2(Crc8, r) == Success(FullFields(r, AddressBits(32, 0)))
  {
    TelegramCrcVector(r[..6]);
    TelegramCrcDecides(Crc8, r);
    assert AddressControl(AddressControlValue(r[0])) == Some(AddressBits(32, 0));
  }

  /** The fields of the test telegram. */
  lemma TelegramFieldsVector(r: seq<Byte>)
    requires r == RawData
    ensures FullFields(r, AddressBits(32, 0)) == Full(0, None, None, OriginatorId, None, [0x84], [])
  {
    var bits := AddressBits(32, 0);
    assert OriginatorIdOffset(r[0]) == 1;
    assert !ExtendedHeaderAvailable(r[0]) && !ExtendedTelegramTypeAvailable(r[0]) && TelegramTypeValue(r[0]) == 0;
    assert Subarray(r, 1, 5) == OriginatorId by {
      assert r[1..5] == OriginatorId;
    }
    assert Subarray(r, 5, -1) == [0x84] by {
      assert r[5..6] == [0x84];
    }
    assert Subarray(r, -1, -1) == [];
    FullFieldsAre(r, bits, Full(0, None, None, OriginatorId, None, [0x84], []));
  }

  /** `parseEsp3Data` on the test frame: the telegram bytes as `rawData`,
      originator ID `00 2E 5C 72`, data `84`, sub-telegram number 1 and
      dBm 50. */
  lemma PacketDataVector(p: seq<Byte>)
    requires p == Packet
    ensures ParseEsp3Data(Crc8, p) ==
              Success(Esp3Data(RawData, Success(Full(0, None, None, OriginatorId, None, [0x84], [])), 0x01, 0x32))
  {
    assert ParseEsp3Data(Crc8, p) == Success(Esp3Data(RawData, ParseErp2(Crc8, RawData), 0x01, 0x32)) by {
      PacketWellFormed(p);
      FrameFieldsVector(p);
      DecodeWellFormedFrame(Crc8, p);
    }
    TelegramVector(RawData);
  }

  /** A listed switch pressing A1: one data point for A1, with count 0. */
  lemma HandlerVector(p: seq<Byte>, timestamp: int)
    requires p == Packet
    ensures HandleEnOceanPacket(Crc8, Recorder([], 0), p, [OriginatorId], timestamp)
              == Recorder([DataPoint(timestamp, OriginatorId, A1, 0)], 1)
  {
    PacketDataVector(p);
    TelegramHandled(timestamp);
  }

  /** The decision part on the test telegram. */
  lemma TelegramHandled(timestamp: int)
    ensures HandleTelegram(Recorder([], 0), Full(0, None, None, OriginatorId, None, [0x84], []), [OriginatorId], timestamp)
              == Recorder([DataPoint(timestamp, OriginatorId, A1, 0)], 1)
  {
    assert ParseF60204Data(0x84) == SwitchData(1, 0, 1, 0, 0);
  }

  /** The same frame from a switch that is not listed records nothing. */
  lemma UnlistedVector(p: seq<Byte>, timestamp: int)
    requires p == Packet
    ensures HandleEnOceanPacket(Crc8, Recorder([], 0), p, [], timestamp) == Recorder([], 0)
  {
    PacketDataVector(p);
  }
}
