/** Properties of `parseErp2`: the address-control table and the CRC check of
    the full layout, the length table of the short layout, and both layouts
    as inverses of the encodings a sender applies. */
module Erp2Properties {
  import opened Wrappers
  import opened Bytes
  import opened Esp3DataParser

  // ---------------------------------------------------------------------
  // Full layout: checks

  /** Address-control values 4 to 7 are rejected before anything else is
      looked at; values 0 to 3 never are. */
  lemma AddressControlRejects(crc8: Checksum, rawData: seq<Byte>)
    requires |rawData| > 6
    ensures (ParseErp2(crc8, rawData) == Failure(InvalidAddressControl(AddressControlValue(rawData[0]))))
              == (rawData[0] >= 128)
  {
  }

  /** With a supported address control, a telegram decodes exactly when its
      last byte is the CRC of all the bytes before it. */
  lemma TelegramCrcDecides(crc8: Checksum, rawData: seq<Byte>)
    requires |rawData| > 6 && rawData[0] < 128
    ensures ParseErp2(crc8, rawData).Success? <==> crc8(rawData[..|rawData| - 1]) == rawData[|rawData| - 1]
    ensures ParseErp2(crc8, rawData).Failure? ==> ParseErp2(crc8, rawData).error == TelegramCrcMismatch
  {
    assert Subarray(rawData, 0, -1) == rawData[..|rawData| - 1];
    assert Subarray(rawData, -1, |rawData|) == rawData[|rawData| - 1..];
  }

  // ---------------------------------------------------------------------
  // Full layout: encoding

  /** Address control value that describes the given ID widths, if any. */
  function AddressMode(originatorId: seq<Byte>, destinationId: Option<seq<Byte>>): Option<nat> {
    match destinationId
    case Some(d) => if |originatorId| == 4 && |d| == 4 then Some(2) else None
    case None =>
      if |originatorId| == 3 then Some(0)
      else if |originatorId| == 4 then Some(1)
      else if |originatorId| == 6 then Some(3)
      else None
  }

  /** A full telegram whose fields fit the ERP2 layout: four-bit type,
      repeater count and optional length, an extended header exactly when
      there is a repeater count, an extended telegram type exactly for type
      0b1111, supported ID widths, and more than six bytes in all. */
  predicate FitsLayout(t: Telegram) {
    && t.Full?
    && t.telegramType < 16
    && AddressMode(t.originatorId, t.destinationId).Some?
    && (t.repeaterCount.Some? ==> t.repeaterCount.value < 16 && |t.optionalData| < 16)
    && (t.repeaterCount.None? ==> t.optionalData == [])
    && (t.extendedTelegramType.Some? <==> t.telegramType == 15)
    && 1 + |ExtendedHeaderBytes(t)| + |ExtendedTypeBytes(t)| + |t.originatorId| + |DestinationBytes(t)|
         + |t.dataDl| + |t.optionalData| + 1 > 6
  }

  /** Telegrams of type 0b1111 without an extended header: their layout puts
      the extended telegram type at byte 1, where the decoder does not look. */
  predicate Misread(t: Telegram) {
    t.Full? && t.telegramType == 15 && t.repeaterCount.None?
  }

  function HeaderByte(t: Telegram): Byte
    requires FitsLayout(t)
  {
    (AddressMode(t.originatorId, t.destinationId).value * 32
     + (if t.repeaterCount.Some? then 16 else 0) + t.telegramType) as Byte
  }

  function ExtendedHeaderBytes(t: Telegram): seq<Byte>
    requires t.Full?
  {
    match t.repeaterCount
    case None => []
    case Some(count) =>
      if count < 16 && |t.optionalData| < 16 then [(count * 16 + |t.optionalData|) as Byte] else []
  }

  function ExtendedTypeBytes(t: Telegram): seq<Byte>
    requires t.Full?
  {
    match t.extendedTelegramType
    case None => []
    case Some(e) => [e]
  }

  function DestinationBytes(t: Telegram): seq<Byte>
    requires t.Full?
  {
    match t.destinationId
    case None => []
    case Some(d) => d
  }

  /** Everything but the trailing CRC. */
  function TelegramBody(t: Telegram): seq<Byte>
    requires FitsLayout(t)
  {
    [HeaderByte(t)] + ExtendedHeaderBytes(t) + ExtendedTypeBytes(t)
      + t.originatorId + DestinationBytes(t) + t.dataDl + t.optionalData
  }

  /** An ERP2 telegram in the full layout, as a sender builds it. */
  function EncodeTelegram(crc8: Checksum, t: Telegram): seq<Byte>
    requires FitsLayout(t)
  {
    TelegramBody(t) + [crc8(TelegramBody(t))]
  }

  /** The header byte carries address control, extended-header flag and
      telegram type. */
  lemma HeaderByteFields(t: Telegram)
    requires FitsLayout(t)
    ensures AddressControlValue(HeaderByte(t)) == AddressMode(t.originatorId, t.destinationId).value
    ensures ExtendedHeaderAvailable(HeaderByte(t)) == t.repeaterCount.Some?
    ensures TelegramTypeValue(HeaderByte(t)) == t.telegramType
  {
    var m := AddressMode(t.originatorId, t.destinationId).value;
    var e := if t.repeaterCount.Some? then 1 else 0;
    var h := HeaderByte(t) as int;
    assert h == m * 32 + e * 16 + t.telegramType;
    assert h / 32 == m;
    assert h / 16 == m * 2 + e;
    assert h % 16 == t.telegramType;
  }

  /** The extended header byte carries repeater count and optional length. */
  lemma ExtendedHeaderFields(count: nat, optionalLength: nat)
    requires count < 16 && optionalLength < 16
    ensures (count * 16 + optionalLength) / 16 == count
    ensures (count * 16 + optionalLength) % 16 == optionalLength
  {
  }

  /** Where the fields of `t` sit in `raw` when it is laid out as a sender
      lays it out; the trailing CRC byte is left unconstrained. */
  predicate LaidOut(raw: seq<Byte>, t: Telegram)
    requires FitsLayout(t)
  {
    HeaderLaidOut(raw, t) && FieldsLaidOut(raw, t)
  }

  /** The header byte, extended header and extended telegram type of `t` at
      the start of `raw`. */
  predicate HeaderLaidOut(raw: seq<Byte>, t: Telegram)
    requires FitsLayout(t)
  {
    var h := HeaderByte(t);
    && |raw| > 6
    && raw[0] == h
    && OriginatorIdOffset(h) == 1 + |ExtendedHeaderBytes(t)| + |ExtendedTypeBytes(t)|
    && (t.repeaterCount.Some? ==> raw[1] == ExtendedHeaderBytes(t)[0])
    && (t.extendedTelegramType.Some? && t.repeaterCount.Some? ==> raw[2] == t.extendedTelegramType.value)
  }

  /** IDs, data and optional data of `t` behind its header bytes, and one
      byte after them. */
  predicate FieldsLaidOut(raw: seq<Byte>, t: Telegram)
    requires FitsLayout(t)
  {
    var off := 1 + |ExtendedHeaderBytes(t)| + |ExtendedTypeBytes(t)|;
    var o := off + |t.originatorId|;
    var d := o + |DestinationBytes(t)|;
    var n := |raw|;
    && d + |t.dataDl| + |t.optionalData| + 1 == n
    && raw[off..o] == t.originatorId
    && raw[o..d] == DestinationBytes(t)
    && raw[d..d + |t.dataDl|] == t.dataDl
    && raw[n - 1 - |t.optionalData|..n - 1] == t.optionalData
  }

  /** An encoded telegram is laid out field by field and ends in the CRC of
      its body. */
  lemma EncodedLayout(crc8: Checksum, t: Telegram)
    requires FitsLayout(t)
    ensures var raw := EncodeTelegram(crc8, t);
            && LaidOut(raw, t)
            && raw[..|raw| - 1] == TelegramBody(t)
            && raw[|raw| - 1] == crc8(TelegramBody(t))
  {
    var h := HeaderByte(t);
    HeaderByteFields(t);
    var p := [h] + ExtendedHeaderBytes(t) + ExtendedTypeBytes(t);
    var dest := DestinationBytes(t);
    var a1 := p + t.originatorId;
    var a2 := a1 + dest;
    var a3 := a2 + t.dataDl;
    var body := a3 + t.optionalData;
    assert body == TelegramBody(t);
    var raw := EncodeTelegram(crc8, t);
    assert raw[..|raw|] == body + [crc8(body)];
    PrefixSplit(raw, body, [crc8(body)]);
    PrefixSplit(raw, a3, t.optionalData);
    PrefixSplit(raw, a2, t.dataDl);
    PrefixSplit(raw, a1, dest);
    PrefixSplit(raw, p, t.originatorId);
    assert raw[0] == raw[..|p|][0];
    assert t.repeaterCount.Some? ==> raw[1] == raw[..|p|][1];
    assert t.extendedTelegramType.Some? && t.repeaterCount.Some? ==> raw[2] == raw[..|p|][2];
  }

  /** What the decoder reports for a telegram laid out from `t`: `t` itself,
      except that a misread telegram reports its first originator ID byte as
      extended telegram type. */
  function DecodedTelegram(t: Telegram): (u: Telegram)
    requires FitsLayout(t)
    ensures u.Full? && (u == t <==> !Misread(t) || t.extendedTelegramType == Some(t.originatorId[0]))
  {
    if Misread(t) then t.(extendedTelegramType := Some(t.originatorId[0])) else t
  }

  /** `FullFields` field by field. */
  lemma FullFieldsAre(rawData: seq<Byte>, bits: AddressBits, t: Telegram)
    requires |rawData| > 6 && t.Full?
    requires var h := rawData[0];
             var optionalLength := if ExtendedHeaderAvailable(h) then rawData[1] as nat % 16 else 0;
             var o := OriginatorIdOffset(h) + bits.originatorBits / 8;
             var d := o + bits.destinationBits / 8;
             && t.telegramType == TelegramTypeValue(h)
             && t.extendedTelegramType == (if ExtendedTelegramTypeAvailable(h) then Some(rawData[2]) else None)
             && t.repeaterCount == (if ExtendedHeaderAvailable(h) then Some(rawData[1] as nat / 16) else None)
             && t.originatorId == Subarray(rawData, OriginatorIdOffset(h), o)
             && t.destinationId == (if bits.destinationBits != 0 then Some(Subarray(rawData, o, d)) else None)
             && t.dataDl == Subarray(rawData, d, -1 - optionalLength)
             && t.optionalData == Subarray(rawData, -1 - optionalLength, -1)
    ensures FullFields(rawData, bits) == t
  {
  }

  /** The header and extended header of a laid-out telegram announce its
      type, address control, repeater count and optional length. */
  lemma LaidOutHeader(raw: seq<Byte>, t: Telegram)
    requires FitsLayout(t) && LaidOut(raw, t)
    ensures var h := raw[0];
            var u := DecodedTelegram(t);
            && AddressControl(AddressControlValue(h)).Some?
            && AddressControl(AddressControlValue(h)).value.originatorBits / 8 == |t.originatorId|
            && AddressControl(AddressControlValue(h)).value.destinationBits / 8 == |DestinationBytes(t)|
            && (AddressControl(AddressControlValue(h)).value.destinationBits != 0 <==> t.destinationId.Some?)
            && (if ExtendedHeaderAvailable(h) then raw[1] as nat % 16 else 0) == |t.optionalData|
            && u.telegramType == TelegramTypeValue(h)
            && u.extendedTelegramType == (if ExtendedTelegramTypeAvailable(h) then Some(raw[2]) else None)
            && u.repeaterCount == (if ExtendedHeaderAvailable(h) then Some(raw[1] as nat / 16) else None)
  {
    HeaderByteFields(t);
    if t.repeaterCount.Some? {
      ExtendedHeaderFields(t.repeaterCount.value, |t.optionalData|);
    }
    if Misread(t) {
      var off := OriginatorIdOffset(raw[0]);
      assert raw[2] == raw[off..off + |t.originatorId|][0];
    }
  }

  /** The clamped slices the decoder takes from a laid-out telegram. */
  lemma LaidOutSlices(raw: seq<Byte>, t: Telegram)
    requires FitsLayout(t) && LaidOut(raw, t)
    ensures var off := OriginatorIdOffset(raw[0]);
            var o := off + |t.originatorId|;
            var d := o + |DestinationBytes(t)|;
            && Subarray(raw, off, o) == t.originatorId
            && Subarray(raw, o, d) == DestinationBytes(t)
            && Subarray(raw, d, -1 - |t.optionalData|) == t.dataDl
            && Subarray(raw, -1 - |t.optionalData|, -1) == t.optionalData
  {
  }

  /** The decoder reads every field of a laid-out telegram back. */
  lemma LaidOutFields(raw: seq<Byte>, t: Telegram)
    requires FitsLayout(t) && LaidOut(raw, t)
    ensures AddressControl(AddressControlValue(raw[0])).Some?
    ensures FullFields(raw, AddressControl(AddressControlValue(raw[0])).value) == DecodedTelegram(t)
  {
    LaidOutHeader(raw, t);
    LaidOutSlices(raw, t);
    FullFieldsAre(raw, AddressControl(AddressControlValue(raw[0])).value, DecodedTelegram(t));
  }

  /** Decoding an encoded telegram gives back every field, except that a
      telegram of type 0b1111 without an extended header reports the first
      originator ID byte as its extended telegram type (the decoder reads the
      extended telegram type at byte 2 whatever precedes it). */
  lemma DecodeEncodedTelegram(crc8: Checksum, t: Telegram)
    requires FitsLayout(t)
    ensures ParseErp2(crc8, EncodeTelegram(crc8, t)) ==
              Success(if Misread(t) then t.(extendedTelegramType := Some(t.originatorId[0])) else t)
  {
    var raw := EncodeTelegram(crc8, t);
    EncodedLayout(crc8, t);
    LaidOutFields(raw, t);
    TelegramCrcDecides(crc8, raw);
  }

  /** The header bytes of a telegram that is not misread sit in front of its
      originator ID. */
  lemma LaidOutPrefix(raw: seq<Byte>, t: Telegram)
    requires FitsLayout(t) && !Misread(t) && LaidOut(raw, t)
    ensures raw[..OriginatorIdOffset(HeaderByte(t))] == [HeaderByte(t)] + ExtendedHeaderBytes(t) + ExtendedTypeBytes(t)
  {
    var p := [HeaderByte(t)] + ExtendedHeaderBytes(t) + ExtendedTypeBytes(t);
    forall k | 0 <= k < |p|
      ensures raw[k] == p[k]
    {
      assert k == 1 ==> t.repeaterCount.Some?;
      assert k == 2 ==> t.repeaterCount.Some? && t.extendedTelegramType.Some?;
    }
  }

  /** Everything but the trailing byte of a laid-out telegram that is not
      misread is the telegram's body: the layout leaves no byte free. */
  lemma LaidOutBody(raw: seq<Byte>, t: Telegram)
    requires FitsLayout(t) && !Misread(t) && LaidOut(raw, t)
    ensures raw[..|raw| - 1] == TelegramBody(t)
  {
    var off := OriginatorIdOffset(HeaderByte(t));
    var o := off + |t.originatorId|;
    var d := o + |DestinationBytes(t)|;
    var e := d + |t.dataDl|;
    var n := |raw|;
    LaidOutPrefix(raw, t);
    SliceConcat(raw, 0, off, o);
    SliceConcat(raw, 0, o, d);
    SliceConcat(raw, 0, d, e);
    SliceConcat(raw, 0, e, n - 1);
  }

  /** A laid-out telegram that ends in the CRC of its body is the encoding of
      that telegram. */
  lemma LaidOutIsEncoded(crc8: Checksum, raw: seq<Byte>, t: Telegram)
    requires FitsLayout(t) && !Misread(t) && LaidOut(raw, t)
    requires raw[|raw| - 1] == crc8(raw[..|raw| - 1])
    ensures raw == EncodeTelegram(crc8, t)
  {
    LaidOutBody(raw, t);
    assert raw == raw[..|raw| - 1] + [raw[|raw| - 1]];
  }

  /** The fewest bytes a full-layout telegram must have for the fields its
      header announces (header bytes, IDs, optional data and CRC) to fit
      without clamping; 0 for an unsupported address control. */
  function AnnouncedLength(rawData: seq<Byte>): nat
    requires |rawData| > 6
  {
    var h := rawData[0];
    match AddressControl(AddressControlValue(h))
    case None => 0
    case Some(bits) =>
      OriginatorIdOffset(h) + bits.originatorBits / 8 + bits.destinationBits / 8
        + (if ExtendedHeaderAvailable(h) then rawData[1] as nat % 16 else 0) + 1
  }

  /** `t` holds the fields the full layout reads from `raw`, taken as plain
      slices: the header announces a supported address control, and every
      announced field fits inside `raw` without clamping. */
  predicate DecodedFrom(raw: seq<Byte>, t: Telegram)
    requires |raw| > 6
  {
    var h := raw[0];
    var n := |raw|;
    && AddressControl(AddressControlValue(h)).Some?
    && var bits := AddressControl(AddressControlValue(h)).value;
       var L := if ExtendedHeaderAvailable(h) then raw[1] as nat % 16 else 0;
       var off := OriginatorIdOffset(h);
       var o := off + bits.originatorBits / 8;
       var d := o + bits.destinationBits / 8;
       && d + L + 1 <= n
       && t.Full?
       && t.telegramType == TelegramTypeValue(h)
       && t.extendedTelegramType == (if ExtendedTelegramTypeAvailable(h) then Some(raw[2]) else None)
       && t.repeaterCount == (if ExtendedHeaderAvailable(h) then Some(raw[1] as nat / 16) else None)
       && t.originatorId == raw[off..o]
       && t.destinationId == (if bits.destinationBits != 0 then Some(raw[o..d]) else None)
       && t.dataDl == raw[d..n - 1 - L]
       && t.optionalData == raw[n - 1 - L..n - 1]
  }

  /** Where the decoder found the fields of a telegram whose announced
      fields fit: plain slices, no clamping. */
  lemma DecodedSlices(crc8: Checksum, rawData: seq<Byte>)
    requires |rawData| > 6 && ParseErp2(crc8, rawData).Success?
    requires AnnouncedLength(rawData) <= |rawData|
    ensures DecodedFrom(rawData, ParseErp2(crc8, rawData).value)
  {
    var bits := AddressControl(AddressControlValue(rawData[0])).value;
    assert ParseErp2(crc8, rawData).value == FullFields(rawData, bits);
  }

  /** The header byte of a decoded telegram, re-encoded, is the one it was
      decoded from. */
  lemma HeaderByteRebuilt(h: Byte, t: Telegram)
    requires FitsLayout(t)
    requires AddressMode(t.originatorId, t.destinationId) == Some(AddressControlValue(h))
    requires t.repeaterCount.Some? == ExtendedHeaderAvailable(h)
    requires t.telegramType == TelegramTypeValue(h)
    ensures HeaderByte(t) == h
  {
    var m := AddressControlValue(h);
    var e := if ExtendedHeaderAvailable(h) then 1 else 0;
    assert h as int == m * 32 + e * 16 + TelegramTypeValue(h);
  }

  /** Fields read as plain slices fit the ERP2 layout, with the address mode
      the header announced. */
  lemma DecodedFits(raw: seq<Byte>, t: Telegram)
    requires |raw| > 6 && DecodedFrom(raw, t)
    ensures FitsLayout(t)
    ensures AddressMode(t.originatorId, t.destinationId) == Some(AddressControlValue(raw[0]))
  {
  }

  /** The header bytes of fields read as plain slices, without a misplaced
      extended telegram type, are the ones a sender writes. */
  lemma DecodedHeaderLaidOut(raw: seq<Byte>, t: Telegram)
    requires |raw| > 6 && DecodedFrom(raw, t)
    requires ExtendedHeaderAvailable(raw[0]) || !ExtendedTelegramTypeAvailable(raw[0])
    ensures FitsLayout(t) && !Misread(t) && HeaderLaidOut(raw, t)
  {
    DecodedFits(raw, t);
    HeaderByteRebuilt(raw[0], t);
    if t.repeaterCount.Some? {
      var x := raw[1] as int;
      assert x == (x / 16) * 16 + x % 16;
      assert raw[1] == ExtendedHeaderBytes(t)[0];
    }
  }

  /** IDs, data and optional data read as plain slices sit where a sender
      writes them. */
  lemma DecodedFieldsLaidOut(raw: seq<Byte>, t: Telegram)
    requires |raw| > 6 && DecodedFrom(raw, t)
    requires ExtendedHeaderAvailable(raw[0]) || !ExtendedTelegramTypeAvailable(raw[0])
    ensures FitsLayout(t) && FieldsLaidOut(raw, t)
  {
    DecodedFits(raw, t);
  }

  /** Fields read as plain slices, without a misplaced extended telegram
      type, sit in `raw` as a sender lays them out. */
  lemma DecodedLaidOut(raw: seq<Byte>, t: Telegram)
    requires |raw| > 6 && DecodedFrom(raw, t)
    requires ExtendedHeaderAvailable(raw[0]) || !ExtendedTelegramTypeAvailable(raw[0])
    ensures FitsLayout(t) && !Misread(t) && LaidOut(raw, t)
  {
    DecodedHeaderLaidOut(raw, t);
    DecodedFieldsLaidOut(raw, t);
  }

  /** A decoded full-layout telegram whose announced fields fit, and whose
      extended telegram type is not misplaced, fits the ERP2 layout and sits
      in the decoded bytes as a sender lays it out. */
  lemma DecodedIsLaidOut(crc8: Checksum, rawData: seq<Byte>)
    requires |rawData| > 6 && ParseErp2(crc8, rawData).Success?
    requires ExtendedHeaderAvailable(rawData[0]) || !ExtendedTelegramTypeAvailable(rawData[0])
    requires AnnouncedLength(rawData) <= |rawData|
    ensures var t := ParseErp2(crc8, rawData).value;
            FitsLayout(t) && !Misread(t) && LaidOut(rawData, t)
  {
    DecodedSlices(crc8, rawData);
    DecodedLaidOut(rawData, ParseErp2(crc8, rawData).value);
  }

  /** Decoding inverts encoding in the other direction too: a telegram the
      decoder accepts, whose announced fields fit and whose extended telegram
      type is not misplaced, is the encoding of what it decodes to. */
  lemma DecodeThenEncode(crc8: Checksum, rawData: seq<Byte>)
    requires |rawData| > 6 && ParseErp2(crc8, rawData).Success?
    requires ExtendedHeaderAvailable(rawData[0]) || !ExtendedTelegramTypeAvailable(rawData[0])
    requires AnnouncedLength(rawData) <= |rawData|
    ensures FitsLayout(ParseErp2(crc8, rawData).value)
    ensures EncodeTelegram(crc8, ParseErp2(crc8, rawData).value) == rawData
  {
    var t := ParseErp2(crc8, rawData).value;
    DecodedIsLaidOut(crc8, rawData);
    TelegramCrcDecides(crc8, rawData);
    LaidOutIsEncoded(crc8, rawData, t);
  }

  /** The misplaced extended telegram type: without an extended header, a
      telegram of type 0b1111 reports the first byte of its originator ID as
      its extended telegram type. */
  lemma ExtendedTypeMisread(crc8: Checksum, rawData: seq<Byte>)
    requires |rawData| > 6 && ParseErp2(crc8, rawData).Success?
    requires !ExtendedHeaderAvailable(rawData[0]) && ExtendedTelegramTypeAvailable(rawData[0])
    ensures var t := ParseErp2(crc8, rawData).value;
            && t.Full? && |t.originatorId| > 0
            && OriginatorIdOffset(rawData[0]) == 2
            && t.extendedTelegramType == Some(t.originatorId[0])
  {
    var bits := AddressControl(AddressControlValue(rawData[0])).value;
    assert ParseErp2(crc8, rawData).value == FullFields(rawData, bits);
    assert Subarray(rawData, 2, 2 + bits.originatorBits / 8)[0] == rawData[2];
  }

  /** Round trip for every telegram whose layout the decoder reads as the
      sender wrote it. */
  lemma Erp2RoundTrip(crc8: Checksum, t: Telegram)
    requires FitsLayout(t) && !Misread(t)
    ensures ParseErp2(crc8, EncodeTelegram(crc8, t)) == Success(t)
  {
    DecodeEncodedTelegram(crc8, t);
  }

  // ---------------------------------------------------------------------
  // Short layout

  /** Telegrams of at most six bytes: only the empty one is rejected; the
      others split, with nothing lost or reordered, into an originator ID and
      data of the widths the length table gives. */
  lemma ShortLayout(crc8: Checksum, rawData: seq<Byte>)
    requires |rawData| <= 6
    ensures ParseErp2(crc8, rawData).Failure? <==> |rawData| == 0
    ensures ParseErp2(crc8, rawData).Failure? ==> ParseErp2(crc8, rawData).error == UnsupportedLength
    ensures ParseErp2(crc8, rawData).Success? ==>
              var t := ParseErp2(crc8, rawData).value;
              && t.Compact?
              && t.originatorId + t.dataDl == rawData
              && |t.originatorId| * 8 == ShortOriginatorBits(|rawData|).value
              && |t.dataDl| * 8 == ShortDataBits(|rawData|).value
  {
    if |rawData| > 0 {
      var k := ShortOriginatorBits(|rawData|).value / 8;
      assert rawData[..k] + rawData[k..] == rawData;
    }
  }

  /** Round trip of the short layout: an originator ID followed by data
      decodes to exactly that pair if and only if the widths match the
      length table. */
  lemma ShortRoundTrip(crc8: Checksum, originatorId: seq<Byte>, dataDl: seq<Byte>)
    ensures ParseErp2(crc8, originatorId + dataDl) == Success(Compact(originatorId, dataDl)) <==>
              && 0 < |originatorId + dataDl| <= 6
              && |originatorId| * 8 == ShortOriginatorBits(|originatorId + dataDl|).value
  {
    var raw := originatorId + dataDl;
    if 0 < |raw| <= 6 {
      ShortLayout(crc8, raw);
      assert raw[..|originatorId|] == originatorId && raw[|originatorId|..] == dataDl;
    }
  }

  /** Which layout a decoded telegram has is decided by its length alone. */
  lemma LayoutByLength(crc8: Checksum, rawData: seq<Byte>)
    requires ParseErp2(crc8, rawData).Success?
    ensures ParseErp2(crc8, rawData).value.Full? <==> |rawData| > 6
  {
  }
}
