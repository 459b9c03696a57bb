/** Decoding of one ESP3 frame (`parseEsp3Data`) and of the ERP2 radio
    telegram it carries (`parseErp2`).

    `Buffer.readUint8`/`readUint16BE` throw a `RangeError` past the end of
    the buffer; the caller catches it, so a throw is modelled as the failure
    `OutOfRange`. Every other `undefined` result is a failure naming its
    cause. */
module Esp3DataParser {
  import opened Wrappers
  import opened Bytes

  /** ESP3 packet type RADIO_ERP2. */
  const PacketTypeRadioErp2: Byte := 0x0A

  /** Why `parseEsp3Data` produced nothing. */
  datatype FrameError =
    | OutOfRange
    | HeaderCrcMismatch
    | DataCrcMismatch
    | UnsupportedPacketType(packetType: Byte)

  /** Why `parseErp2` returned `undefined`. */
  datatype TelegramError =
    | InvalidAddressControl(value: nat)
    | TelegramCrcMismatch
    | UnsupportedLength

  /** A decoded ERP2 telegram. `Full` is the bit-packed layout of telegrams
      longer than six bytes; `Compact` is the layout of shorter ones, which
      only carries an originator ID and data. */
  datatype Telegram =
    | Full(telegramType: nat, extendedTelegramType: Option<Byte>, repeaterCount: Option<nat>,
           originatorId: seq<Byte>, destinationId: Option<seq<Byte>>,
           dataDl: seq<Byte>, optionalData: seq<Byte>)
    | Compact(originatorId: seq<Byte>, dataDl: seq<Byte>)

  /** What `parseEsp3Data` returns for a RADIO_ERP2 frame. */
  datatype Esp3Data = Esp3Data(rawData: seq<Byte>, data: Result<Telegram, TelegramError>, subTelNum: Byte, dBm: Byte)

  // ---------------------------------------------------------------------
  // ERP2 header fields

  /** Widths, in bits, of the originator and destination IDs. */
  datatype AddressBits = AddressBits(originatorBits: nat, destinationBits: nat)

  /** Address control: the three top bits of the header byte. */
  function AddressControlValue(header: Byte): nat {
    header as nat / 32
  }

  /** Bit 4 of the header byte: an extended header byte follows. */
  predicate ExtendedHeaderAvailable(header: Byte) {
    (header as nat / 16) % 2 == 1
  }

  /** The low nibble of the header byte. */
  function TelegramTypeValue(header: Byte): nat {
    header as nat % 16
  }

  /** Telegram type 0b1111 announces an extended telegram type byte. */
  predicate ExtendedTelegramTypeAvailable(header: Byte) {
    TelegramTypeValue(header) == 15
  }

  /** The address-control table; values 4 to 7 are not supported. */
  function AddressControl(value: nat): Option<AddressBits> {
    if value == 0 then Some(AddressBits(24, 0))
    else if value == 1 then Some(AddressBits(32, 0))
    else if value == 2 then Some(AddressBits(32, 32))
    else if value == 3 then Some(AddressBits(48, 0))
    else None
  }

  /** Byte offset of the originator ID: the header byte, then the extended
      header byte and the extended telegram type byte when they are
      announced. */
  function OriginatorIdOffset(header: Byte): nat {
    var extendedHeaderBits := if ExtendedHeaderAvailable(header) then 8 else 0;
    var extendedTelegramTypeBits := if ExtendedTelegramTypeAvailable(header) then 8 else 0;
    (8 + extendedHeaderBits + extendedTelegramTypeBits) / 8
  }

  // ---------------------------------------------------------------------
  // parseErp2

  /** The fields the full layout reads, once the address control has given
      the ID widths: extended header, extended telegram type, IDs, data and
      optional data, each slice clamped to the telegram. */
  function FullFields(rawData: seq<Byte>, bits: AddressBits): Telegram
    requires |rawData| > 6
  {
    var header := rawData[0];
    var repeaterCountValue := if ExtendedHeaderAvailable(header) then Some(rawData[1] as nat / 16) else None;
    var optionalDataLength := if ExtendedHeaderAvailable(header) then rawData[1] as nat % 16 else 0;
    var extendedTelegramTypeValue := if ExtendedTelegramTypeAvailable(header) then Some(rawData[2]) else None;
    var originatorIdOffset := OriginatorIdOffset(header);
    var originatorId := Subarray(rawData, originatorIdOffset, originatorIdOffset + bits.originatorBits / 8);
    var destinationIdOffset := originatorIdOffset + bits.originatorBits / 8;
    var destinationId :=
      if bits.destinationBits != 0
      then Some(Subarray(rawData, destinationIdOffset, destinationIdOffset + bits.destinationBits / 8))
      else None;
    var dataOffset := destinationIdOffset + bits.destinationBits / 8;
    var data := Subarray(rawData, dataOffset, -1 - optionalDataLength);
    var optionalData := Subarray(rawData, -1 - optionalDataLength, -1);
    Full(TelegramTypeValue(header), extendedTelegramTypeValue, repeaterCountValue,
         originatorId, destinationId, data, optionalData)
  }

  /** The bit-packed layout of a telegram longer than six bytes. The address
      control is checked first, the trailing CRC last. */
  function ParseFull(crc8: Checksum, rawData: seq<Byte>): Result<Telegram, TelegramError>
    requires |rawData| > 6
  {
    var header := rawData[0];
    var addressControlValue := AddressControlValue(header);
    match AddressControl(addressControlValue)
    case None => Failure(InvalidAddressControl(addressControlValue))
    case Some(bits) =>
      var telegram := FullFields(rawData, bits);
      var dataPlCrc8 := Subarray(rawData, -1, |rawData|)[0];
      var computedCrc8 := crc8(Subarray(rawData, 0, -1));
      if dataPlCrc8 != computedCrc8 then Failure(TelegramCrcMismatch) else Success(telegram)
  }

  /** Originator ID width, in bits, of the short layout, keyed by length. */
  function ShortOriginatorBits(length: nat): Option<nat> {
    if length == 1 then Some(8)
    else if length == 2 then Some(8)
    else if length == 3 then Some(16)
    else if length == 4 then Some(24)
    else if length == 5 then Some(32)
    else if length == 6 then Some(32)
    else None
  }

  /** Data width, in bits, that the short layout declares beside the
      originator width (the decoder itself takes everything after the ID). */
  function ShortDataBits(length: nat): Option<nat> {
    if length == 1 then Some(0)
    else if 2 <= length <= 5 then Some(8)
    else if length == 6 then Some(16)
    else None
  }

  /** The layout of a telegram of at most six bytes: no header, no CRC. */
  function ParseShort(rawData: seq<Byte>): Result<Telegram, TelegramError>
    requires |rawData| <= 6
  {
    match ShortOriginatorBits(|rawData|)
    case None => Failure(UnsupportedLength)
    case Some(originatorIdBits) =>
      Success(Compact(Subarray(rawData, 0, originatorIdBits / 8),
                      Subarray(rawData, originatorIdBits / 8, |rawData|)))
  }

  /** `parseErp2`. */
  function ParseErp2(crc8: Checksum, rawData: seq<Byte>): Result<Telegram, TelegramError> {
    if |rawData| > 6 then ParseFull(crc8, rawData) else ParseShort(rawData)
  }

  // ---------------------------------------------------------------------
  // parseEsp3Data

  /** `parseEsp3Data`: re-checks both CRCs of a frame and, for RADIO_ERP2,
      decodes the telegram and the two optional-data fields. */
  function ParseEsp3Data(crc8: Checksum, packet: seq<Byte>): Result<Esp3Data, FrameError> {
    if |packet| < 4 then
      Failure(OutOfRange)
    else
      var header := Subarray(packet, 1, 5);
      var dataLength := ReadUInt16BE(packet, 1);
      var optionalLength := packet[3] as nat;
      var data := Subarray(packet, 6, 6 + dataLength);
      var optionalData := Subarray(packet, 6 + dataLength, 6 + dataLength + optionalLength);
      if |packet| < 6 then
        Failure(OutOfRange)
      else if packet[5] != crc8(header) then
        Failure(HeaderCrcMismatch)
      else if |packet| <= 6 + dataLength + optionalLength then
        Failure(OutOfRange)
      else if packet[6 + dataLength + optionalLength] != crc8(data + optionalData) then
        Failure(DataCrcMismatch)
      else
        var packetType := packet[4];
        if packetType != PacketTypeRadioErp2 then
          Failure(UnsupportedPacketType(packetType))
        else if |optionalData| < 2 then
          Failure(OutOfRange)
        else
          Success(Esp3Data(data, ParseErp2(crc8, data), optionalData[0], optionalData[1]))
  }
}
