/** The rocker-switch side of the decoder: `parseF60204Data`, which splits
    the data byte of an F6-02-04 telegram into its pressed flag and four
    button bits, and the decision part of `handleEnOceanPacket`, which
    appends one data point per pressed button of a listed switch.

    The module-level state of the program (`unsentEnOceanData`, `count`) is a
    `Recorder` value passed in and returned; `Date.now()` and the list of
    accepted originator IDs are parameters. An exception thrown inside the
    handler is caught by its caller before anything was recorded, so it is
    modelled as "the recorder is returned unchanged". */
module SwitchHandler {
  import opened Wrappers
  import opened Bytes
  import opened Esp3DataParser

  // ---------------------------------------------------------------------
  // parseF60204Data

  /** The four rocker buttons of an F6-02-04 switch. */
  datatype Button = A0 | A1 | B0 | B1

  /** The flags `parseF60204Data` returns, each 0 or 1. */
  datatype SwitchData = SwitchData(isPressed: nat, isA0Pressed: nat, isA1Pressed: nat, isB0Pressed: nat, isB1Pressed: nat)

  /** Every flag is a single bit. */
  predicate ValidSwitchData(s: SwitchData) {
    s.isPressed <= 1 && s.isA0Pressed <= 1 && s.isA1Pressed <= 1 && s.isB0Pressed <= 1 && s.isB1Pressed <= 1
  }

  /** `parseF60204Data`: bit 7 is the pressed flag, bits 3 to 0 are the
      buttons A0, A1, B0 and B1. */
  function ParseF60204Data(data: Byte): (s: SwitchData)
    ensures ValidSwitchData(s)
    ensures s.isPressed == 1 <==> data >= 0x80
  {
    SwitchData(data as nat / 128,
               (data as nat / 8) % 2,
               (data as nat / 4) % 2,
               (data as nat / 2) % 2,
               data as nat % 2)
  }

  /** The data byte a switch sends: the flags at their bit positions and
      `unused` in bits 6 to 4. */
  function EncodeF60204(s: SwitchData, unused: nat): (b: Byte)
    requires ValidSwitchData(s) && unused < 8
    ensures b as nat / 16 % 8 == unused
  {
    (s.isPressed * 128 + unused * 16 + s.isA0Pressed * 8 + s.isA1Pressed * 4
      + s.isB0Pressed * 2 + s.isB1Pressed) as Byte
  }

  /** Decoding inverts encoding, whatever bits 6 to 4 hold. */
  lemma F60204RoundTrip(s: SwitchData, unused: nat)
    requires ValidSwitchData(s) && unused < 8
    ensures ParseF60204Data(EncodeF60204(s, unused)) == s
  {
    var b := EncodeF60204(s, unused) as nat;
    var low := s.isA0Pressed * 8 + s.isA1Pressed * 4 + s.isB0Pressed * 2 + s.isB1Pressed;
    assert b == s.isPressed * 128 + unused * 16 + low;
    assert b / 128 == s.isPressed;
    assert b / 8 == s.isPressed * 16 + unused * 2 + s.isA0Pressed;
    assert b / 4 == s.isPressed * 32 + unused * 4 + s.isA0Pressed * 2 + s.isA1Pressed;
    assert b / 2 == s.isPressed * 64 + unused * 8 + s.isA0Pressed * 4 + s.isA1Pressed * 2 + s.isB0Pressed;
  }

  /** Quotient and remainder by a constant divisor are determined by any
      decomposition with the remainder in range. */
  lemma DivMod2(x: int, q: int, r: int)
    requires x == 2 * q + r && 0 <= r < 2
    ensures x / 2 == q && x % 2 == r
  {
  }

  lemma DivMod4(x: int, q: int, r: int)
    requires x == 4 * q + r && 0 <= r < 4
    ensures x / 4 == q && x % 4 == r
  {
  }

  lemma DivMod8(x: int, q: int, r: int)
    requires x == 8 * q + r && 0 <= r < 8
    ensures x / 8 == q && x % 8 == r
  {
  }

  lemma DivMod16(x: int, q: int, r: int)
    requires x == 16 * q + r && 0 <= r < 16
    ensures x / 16 == q && x % 16 == r
  {
  }

  lemma DivMod128(x: int, q: int, r: int)
    requires x == 128 * q + r && 0 <= r < 128
    ensures x / 128 == q && x % 128 == r
  {
  }

  /** A byte split at bit 4 and bit 7, and its low nibble split into bits. */
  lemma ByteSplit(x: nat)
    requires x < 256
    ensures x == x / 128 * 128 + x / 16 % 8 * 16 + x % 16
    ensures x / 8 % 2 == x % 16 / 8
    ensures x / 4 % 2 == x % 16 / 4 % 2
    ensures x / 2 % 2 == x % 16 / 2 % 2
    ensures x % 2 == x % 16 % 2
    ensures x % 16 == x / 8 % 2 * 8 + x / 4 % 2 * 4 + x / 2 % 2 * 2 + x % 2
  {
    HighSplit(x);
    NibbleBits(x % 16);
    Bit3(x);
    Bit2(x);
    Bit1(x);
    Bit0(x);
  }

  lemma HighSplit(x: nat)
    ensures x == x / 128 * 128 + x / 16 % 8 * 16 + x % 16
  {
    var q := x / 16;
    var r := x % 16;
    DivMod16(x, q, r);
    DivMod8(q, q / 8, q % 8);
    DivMod128(x, q / 8, q % 8 * 16 + r);
  }

  lemma NibbleBits(r: nat)
    requires r < 16
    ensures r == r / 8 % 2 * 8 + r / 4 % 2 * 4 + r / 2 % 2 * 2 + r % 2
  {
    DivMod8(r, r / 8, r % 8);
    DivMod2(r / 8, 0, r / 8);
    DivMod4(r % 8, r % 8 / 4, r % 4);
    DivMod4(r, r / 4, r % 4);
    DivMod2(r / 4, r / 8, r % 8 / 4);
    DivMod2(r % 4, r % 4 / 2, r % 2);
    DivMod2(r, r / 2, r % 2);
    DivMod2(r / 2, r / 4, r % 4 / 2);
  }

  lemma Bit3(x: nat)
    ensures x / 8 % 2 == x % 16 / 8
  {
    var q := x / 16;
    var r := x % 16;
    DivMod16(x, q, r);
    DivMod8(r, r / 8, r % 8);
    DivMod8(x, 2 * q + r / 8, r % 8);
    DivMod2(2 * q + r / 8, q, r / 8);
  }

  lemma Bit2(x: nat)
    ensures x / 4 % 2 == x % 16 / 4 % 2
  {
    var q := x / 16;
    var r := x % 16;
    DivMod16(x, q, r);
    DivMod4(r, r / 4, r % 4);
    DivMod4(x, 4 * q + r / 4, r % 4);
    DivMod2(r / 4, r / 8, r / 4 % 2);
    DivMod2(4 * q + r / 4, 2 * q + r / 8, r / 4 % 2);
  }

  lemma Bit1(x: nat)
    ensures x / 2 % 2 == x % 16 / 2 % 2
  {
    var q := x / 16;
    var r := x % 16;
    DivMod16(x, q, r);
    DivMod2(r, r / 2, r % 2);
    DivMod2(x, 8 * q + r / 2, r % 2);
    DivMod2(r / 2, r / 4, r / 2 % 2);
    DivMod2(8 * q + r / 2, 4 * q + r / 4, r / 2 % 2);
  }

  lemma Bit0(x: nat)
    ensures x % 2 == x % 16 % 2
  {
    var q := x / 16;
    var r := x % 16;
    DivMod16(x, q, r);
    DivMod2(r, r / 2, r % 2);
    DivMod2(x, 8 * q + r / 2, r % 2);
  }

  /** Encoding inverts decoding: a byte is its flags plus bits 6 to 4. */
  lemma F60204Complete(b: Byte)
    ensures b == EncodeF60204(ParseF60204Data(b), b as nat / 16 % 8)
  {
    ByteSplit(b as nat);
  }

  /** Bits 6 to 4 never affect the result. */
  lemma F60204IgnoresUnusedBits(b: Byte, c: Byte)
    requires b as nat / 128 == c as nat / 128 && b as nat % 16 == c as nat % 16
    ensures ParseF60204Data(b) == ParseF60204Data(c)
  {
    ByteSplit(b as nat);
    ByteSplit(c as nat);
  }

  // ---------------------------------------------------------------------
  // Pressed buttons

  /** Whether the flag of button `b` is set. */
  predicate IsSet(s: SwitchData, b: Button) {
    match b
    case A0 => s.isA0Pressed != 0
    case A1 => s.isA1Pressed != 0
    case B0 => s.isB0Pressed != 0
    case B1 => s.isB1Pressed != 0
  }

  /** The order in which the handler tests the buttons. */
  function Rank(b: Button): nat {
    match b
    case A0 => 0
    case A1 => 1
    case B0 => 2
    case B1 => 3
  }

  /** The buttons whose flag is set, in the order A0, A1, B0, B1. */
  function PressedButtons(s: SwitchData): (bs: seq<Button>)
    ensures forall b: Button :: b in bs <==> IsSet(s, b)
    ensures forall i, j :: 0 <= i < j < |bs| ==> Rank(bs[i]) < Rank(bs[j])
  {
    (if s.isA0Pressed != 0 then [A0] else [])
      + (if s.isA1Pressed != 0 then [A1] else [])
      + (if s.isB0Pressed != 0 then [B0] else [])
      + (if s.isB1Pressed != 0 then [B1] else [])
  }

  // ---------------------------------------------------------------------
  // recordData

  /** One entry of `unsentEnOceanData`. */
  datatype DataPoint = DataPoint(timestamp: int, originatorId: seq<Byte>, buttonPressed: Button, count: nat)

  /** The handler's state: the data points not yet sent, and the counter the
      next data point receives. */
  datatype Recorder = Recorder(unsent: seq<DataPoint>, count: nat)

  /** `recordData`: append a data point carrying the current count, then
      increment the count. */
  function RecordData(rec: Recorder, timestamp: int, originatorId: seq<Byte>, button: Button): Recorder {
    Recorder(rec.unsent + [DataPoint(timestamp, originatorId, button, rec.count)], rec.count + 1)
  }

  /** `recordData` once for each of `buttons`, in order. */
  function RecordAll(rec: Recorder, timestamp: int, originatorId: seq<Byte>, buttons: seq<Button>): (r: Recorder)
    ensures |r.unsent| == |rec.unsent| + |buttons|
    ensures r.count == rec.count + |buttons|
    decreases |buttons|
  {
    if buttons == [] then rec
    else RecordAll(RecordData(rec, timestamp, originatorId, buttons[0]), timestamp, originatorId, buttons[1..])
  }

  /** `RecordAll` keeps the earlier data points and appends one per button,
      with the given timestamp and originator ID and consecutive counts. */
  lemma {:induction false} RecordAllAppends(rec: Recorder, timestamp: int, originatorId: seq<Byte>, buttons: seq<Button>)
    ensures var r := RecordAll(rec, timestamp, originatorId, buttons);
            && r.unsent[..|rec.unsent|] == rec.unsent
            && forall k :: 0 <= k < |buttons| ==>
                 r.unsent[|rec.unsent| + k] == DataPoint(timestamp, originatorId, buttons[k], rec.count + k)
    decreases |buttons|
  {
    if buttons != [] {
      var next := RecordData(rec, timestamp, originatorId, buttons[0]);
      var r := RecordAll(next, timestamp, originatorId, buttons[1..]);
      RecordAllAppends(next, timestamp, originatorId, buttons[1..]);
      assert r.unsent[..|rec.unsent|] == r.unsent[..|next.unsent|][..|rec.unsent|];
      assert r.unsent[|rec.unsent|] == r.unsent[..|next.unsent|][|rec.unsent|];
      forall k | 1 <= k < |buttons|
        ensures r.unsent[|rec.unsent| + k] == DataPoint(timestamp, originatorId, buttons[k], rec.count + k)
      {
        assert buttons[k] == buttons[1..][k - 1];
        assert r.unsent[|next.unsent| + (k - 1)] == DataPoint(timestamp, originatorId, buttons[1..][k - 1], next.count + (k - 1));
      }
    }
  }

  /** Recording two runs of buttons is recording their concatenation. */
  lemma {:induction false} RecordAllConcat(rec: Recorder, timestamp: int, originatorId: seq<Byte>, xs: seq<Button>, ys: seq<Button>)
    ensures RecordAll(RecordAll(rec, timestamp, originatorId, xs), timestamp, originatorId, ys)
              == RecordAll(rec, timestamp, originatorId, xs + ys)
    decreases |xs|
  {
    if xs == [] {
      assert xs + ys == ys;
    } else {
      var next := RecordData(rec, timestamp, originatorId, xs[0]);
      RecordAllConcat(next, timestamp, originatorId, xs[1..], ys);
      assert (xs + ys)[0] == xs[0] && (xs + ys)[1..] == xs[1..] + ys;
    }
  }

  /** The counter invariant: the unsent data points carry consecutive counts
      ending just below the counter. */
  predicate CountsConsecutive(rec: Recorder) {
    forall k :: 0 <= k < |rec.unsent| ==> rec.unsent[k].count + |rec.unsent| == rec.count + k
  }

  /** Recording keeps the counter invariant. */
  lemma RecordAllKeepsCounts(rec: Recorder, timestamp: int, originatorId: seq<Byte>, buttons: seq<Button>)
    requires CountsConsecutive(rec)
    ensures CountsConsecutive(RecordAll(rec, timestamp, originatorId, buttons))
  {
    var r := RecordAll(rec, timestamp, originatorId, buttons);
    RecordAllAppends(rec, timestamp, originatorId, buttons);
    forall k | 0 <= k < |r.unsent|
      ensures r.unsent[k].count + |r.unsent| == r.count + k
    {
      if k < |rec.unsent| {
        assert r.unsent[k] == r.unsent[..|rec.unsent|][k];
      } else {
        var j := k - |rec.unsent|;
        assert r.unsent[|rec.unsent| + j] == DataPoint(timestamp, originatorId, buttons[j], rec.count + j);
      }
    }
  }

  // ---------------------------------------------------------------------
  // handleEnOceanPacket

  /** `settings.originatorIds.find(...)` is truthy: the ID is in the list
      and its hex string is not empty. Hex strings are compared by equality,
      so byte sequences are too. */
  predicate Listed(allowed: seq<seq<Byte>>, originatorId: seq<Byte>) {
    |originatorId| > 0 && originatorId in allowed
  }

  /** The conditions under which the handler records anything: a full-layout
      telegram of type 0 with a data byte, from a listed switch, with the
      pressed flag set. */
  predicate Accepts(telegram: Telegram, allowed: seq<seq<Byte>>) {
    && telegram.Full?
    && telegram.telegramType == 0
    && |telegram.dataDl| > 0
    && Listed(allowed, telegram.originatorId)
    && ParseF60204Data(telegram.dataDl[0]).isPressed != 0
  }

  /** The part of `handleEnOceanPacket` after decoding: the telegram type
      check, the read of the data byte (which throws on empty data), the
      originator list, the pressed flag, then one `recordData` per set button
      flag in the order A0, A1, B0, B1. */
  function HandleTelegram(rec: Recorder, telegram: Telegram, allowed: seq<seq<Byte>>, timestamp: int): (r: Recorder)
    ensures !Accepts(telegram, allowed) ==> r == rec
    ensures Accepts(telegram, allowed) ==>
              r == RecordAll(rec, timestamp, telegram.originatorId, PressedButtons(ParseF60204Data(telegram.dataDl[0])))
    ensures |rec.unsent| <= |r.unsent| && r.unsent[..|rec.unsent|] == rec.unsent
    ensures r.count == rec.count + (|r.unsent| - |rec.unsent|)
    ensures forall k :: |rec.unsent| <= k < |r.unsent| ==>
              && r.unsent[k].timestamp == timestamp
              && r.unsent[k].count == rec.count + (k - |rec.unsent|)
              && Listed(allowed, r.unsent[k].originatorId)
  {
    if !(telegram.Full? && telegram.telegramType == 0) then rec
    else if |telegram.dataDl| == 0 then rec
    else
      var originatorId := telegram.originatorId;
      var parsedSwitchData := ParseF60204Data(telegram.dataDl[0]);
      if !Listed(allowed, originatorId) then rec
      else if parsedSwitchData.isPressed == 0 then rec
      else
        var r1 := if parsedSwitchData.isA0Pressed != 0 then RecordData(rec, timestamp, originatorId, A0) else rec;
        var r2 := if parsedSwitchData.isA1Pressed != 0 then RecordData(r1, timestamp, originatorId, A1) else r1;
        var r3 := if parsedSwitchData.isB0Pressed != 0 then RecordData(r2, timestamp, originatorId, B0) else r2;
        var r4 := if parsedSwitchData.isB1Pressed != 0 then RecordData(r3, timestamp, originatorId, B1) else r3;
        HandleRecordsPressed(rec, timestamp, originatorId, parsedSwitchData);
        NewPointsListed(rec, timestamp, originatorId, PressedButtons(parsedSwitchData), allowed);
        r4
  }

  /** The data points `RecordAll` appends for a listed switch carry its
      timestamp, consecutive counts and a listed originator ID. */
  lemma NewPointsListed(rec: Recorder, timestamp: int, originatorId: seq<Byte>, buttons: seq<Button>, allowed: seq<seq<Byte>>)
    requires Listed(allowed, originatorId)
    ensures var r := RecordAll(rec, timestamp, originatorId, buttons);
            && r.unsent[..|rec.unsent|] == rec.unsent
            && forall k :: |rec.unsent| <= k < |r.unsent| ==>
                 && r.unsent[k].timestamp == timestamp
                 && r.unsent[k].count == rec.count + (k - |rec.unsent|)
                 && Listed(allowed, r.unsent[k].originatorId)
  {
    var r := RecordAll(rec, timestamp, originatorId, buttons);
    RecordAllAppends(rec, timestamp, originatorId, buttons);
    forall k | |rec.unsent| <= k < |r.unsent|
      ensures r.unsent[k] == DataPoint(timestamp, originatorId, buttons[k - |rec.unsent|], rec.count + (k - |rec.unsent|))
    {
      var j := k - |rec.unsent|;
      assert r.unsent[|rec.unsent| + j] == DataPoint(timestamp, originatorId, buttons[j], rec.count + j);
    }
  }

  /** The four conditional `recordData` calls record the pressed buttons. */
  lemma HandleRecordsPressed(rec: Recorder, timestamp: int, originatorId: seq<Byte>, s: SwitchData)
    ensures var r1 := if s.isA0Pressed != 0 then RecordData(rec, timestamp, originatorId, A0) else rec;
            var r2 := if s.isA1Pressed != 0 then RecordData(r1, timestamp, originatorId, A1) else r1;
            var r3 := if s.isB0Pressed != 0 then RecordData(r2, timestamp, originatorId, B0) else r2;
            var r4 := if s.isB1Pressed != 0 then RecordData(r3, timestamp, originatorId, B1) else r3;
            r4 == RecordAll(rec, timestamp, originatorId, PressedButtons(s))
  {
    var a0 := if s.isA0Pressed != 0 then [A0] else [];
    var a1 := if s.isA1Pressed != 0 then [A1] else [];
    var b0 := if s.isB0Pressed != 0 then [B0] else [];
    var b1 := if s.isB1Pressed != 0 then [B1] else [];
    var r1 := RecordAll(rec, timestamp, originatorId, a0);
    var r2 := RecordAll(r1, timestamp, originatorId, a1);
    var r3 := RecordAll(r2, timestamp, originatorId, b0);
    RecordAllConcat(rec, timestamp, originatorId, a0, a1);
    RecordAllConcat(rec, timestamp, originatorId, a0 + a1, b0);
    RecordAllConcat(rec, timestamp, originatorId, a0 + a1 + b0, b1);
  }

  /** `handleEnOceanPacket` on one frame the framer emitted. A frame that
      does not decode, a telegram that does not decode, and an exception
      (caught by the caller) all leave the recorder unchanged. */
  function HandleEnOceanPacket(crc8: Checksum, rec: Recorder, packet: seq<Byte>, allowed: seq<seq<Byte>>, timestamp: int): (r: Recorder)
    ensures r != rec ==>
              && ParseEsp3Data(crc8, packet).Success?
              && ParseEsp3Data(crc8, packet).value.data.Success?
              && Accepts(ParseEsp3Data(crc8, packet).value.data.value, allowed)
    ensures |rec.unsent| <= |r.unsent| && r.unsent[..|rec.unsent|] == rec.unsent
    ensures r.count == rec.count + (|r.unsent| - |rec.unsent|)
    ensures forall k :: |rec.unsent| <= k < |r.unsent| ==>
              && r.unsent[k].timestamp == timestamp
              && r.unsent[k].count == rec.count + (k - |rec.unsent|)
              && Listed(allowed, r.unsent[k].originatorId)
  {
    match ParseEsp3Data(crc8, packet)
    case Failure(_) => rec
    case Success(esp3Data) =>
      match esp3Data.data
      case Failure(_) => rec
      case Success(telegram) => HandleTelegram(rec, telegram, allowed, timestamp)
  }

  /** Handling a packet keeps the counter invariant. */
  lemma HandleKeepsCounts(crc8: Checksum, rec: Recorder, packet: seq<Byte>, allowed: seq<seq<Byte>>, timestamp: int)
    requires CountsConsecutive(rec)
    ensures CountsConsecutive(HandleEnOceanPacket(crc8, rec, packet, allowed, timestamp))
  {
    var r := HandleEnOceanPacket(crc8, rec, packet, allowed, timestamp);
    if r != rec {
      var telegram := ParseEsp3Data(crc8, packet).value.data.value;
      RecordAllKeepsCounts(rec, timestamp, telegram.originatorId, PressedButtons(ParseF60204Data(telegram.dataDl[0])));
    }
  }

  /** What one accepted packet records: one data point per set button flag,
      in the order A0, A1, B0, B1, with the telegram's originator ID, the
      given timestamp and consecutive counts. */
  lemma HandleRecordsButtons(crc8: Checksum, rec: Recorder, packet: seq<Byte>, allowed: seq<seq<Byte>>, timestamp: int)
    requires ParseEsp3Data(crc8, packet).Success? && ParseEsp3Data(crc8, packet).value.data.Success?
    requires Accepts(ParseEsp3Data(crc8, packet).value.data.value, allowed)
    ensures var telegram := ParseEsp3Data(crc8, packet).value.data.value;
            var buttons := PressedButtons(ParseF60204Data(telegram.dataDl[0]));
            var r := HandleEnOceanPacket(crc8, rec, packet, allowed, timestamp);
            && |r.unsent| == |rec.unsent| + |buttons|
            && forall k :: 0 <= k < |buttons| ==>
                 r.unsent[|rec.unsent| + k] == DataPoint(timestamp, telegram.originatorId, buttons[k], rec.count + k)
  {
    var telegram := ParseEsp3Data(crc8, packet).value.data.value;
    RecordAllAppends(rec, timestamp, telegram.originatorId, PressedButtons(ParseF60204Data(telegram.dataDl[0])));
  }

  /** Short-layout telegrams carry no telegram type and are never recorded. */
  lemma CompactNeverRecorded(rec: Recorder, telegram: Telegram, allowed: seq<seq<Byte>>, timestamp: int)
    requires telegram.Compact?
    ensures HandleTelegram(rec, telegram, allowed, timestamp) == rec
  {
  }

  /** Full-layout originator IDs are never empty, so the empty-hex case of
      the list lookup never arises for a decoded full telegram. */
  lemma FullOriginatorIdNonEmpty(crc8: Checksum, rawData: seq<Byte>)
    requires ParseErp2(crc8, rawData).Success? && ParseErp2(crc8, rawData).value.Full?
    ensures |ParseErp2(crc8, rawData).value.originatorId| > 0
  {
    var h := rawData[0];
    var bits := AddressControl(AddressControlValue(h)).value;
    var off := OriginatorIdOffset(h);
    assert ParseErp2(crc8, rawData).value == FullFields(rawData, bits);
  }
}
