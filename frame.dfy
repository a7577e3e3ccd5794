/** The fixed framing of a Type 5 tag image: the Capability Container, the NDEF Message
    TLV header around the message, and the NDEF media record that carries the payload. */
module Frame {
  import opened Bytes

  // Capability Container (NFC Forum Type 5 Tag Technical Specification, chapter 4)
  const CC_MAGIC: byte := 0xE1
  const CC_VERSION_ACCESS: byte := 0x40  // version 1.0 in the upper nibble, unrestricted access in the lower
  const CC_MBREAD: byte := 0x01          // the tag supports Read Multiple Blocks
  const CC_SIZE: nat := 4
  const MAX_CC_SIZE_BYTE: nat := 255     // the size byte holds size / 8

  // TLV blocks
  const TLV_NDEF_MESSAGE: byte := 0x03
  const TLV_LONG_LENGTH: byte := 0xFF
  const TLV_TERMINATOR: byte := 0xFE
  const TLV_SHORT_MAX: nat := 0xFE       // longest message a 1-byte TLV length can state

  // NDEF record header (NFC Forum NDEF Technical Specification, section 3.2)
  const FLAG_MB: byte := 0x80
  const FLAG_ME: byte := 0x40
  const FLAG_SR: byte := 0x10
  const TNF_MEDIA_TYPE: byte := 0x02
  const SHORT_PAYLOAD_MAX: nat := 255    // longest payload a 1-byte PAYLOAD_LENGTH can state
  const MAX_TYPE_LENGTH: nat := 255

  /** The ways `nfc_initialize` can fail, one per check of the source. */
  datatype InitError =
    | UnsupportedTagFamily   // the configured tag family is not NFC-V
    | SizeNotMultipleOf8     // the CC stores the size in units of 8 bytes
    | SizeTooLarge           // size / 8 does not fit the CC size byte
    | TlvLengthNotAByte      // a TLV length byte falls outside 0..255
    | TlvHeaderSizeMismatch  // the TLV header does not have the planned width
    | NoRoomForMeta          // the payload budget does not exceed the meta-section maximum
    | NdefPayloadUnfillable  // no NDEF header width lets the record fill the message exactly
    | AuxRegionTooSmall      // the aux region must be larger than 4 bytes
    | BlockSizeZero          // alignment modulo a zero block size
    | MainRegionTooSmall     // the main region leaves less than the minimum gap
    | RecordTypeTooLong      // the NDEF encoder rejects a media type over 255 bytes
    | NdefLengthMismatch     // the encoded NDEF message is not the planned length
    | RecordRejected         // the image could not be parsed back into a record

  /** Size of the tag as declared by a Capability Container. */
  function DeclaredSize(cc: seq<byte>): nat
    requires |cc| >= 3
  {
    cc[2] as int * 8
  }

  /** The 4-byte Capability Container for a tag of `size` bytes (taghandler.py:103-117). */
  function CapabilityContainer(size: nat): (r: Result<seq<byte>, InitError>)
    ensures r.Ok? <==> size % 8 == 0 && size <= 8 * MAX_CC_SIZE_BYTE
    ensures r.Err? ==> r.error == (if size % 8 != 0 then SizeNotMultipleOf8 else SizeTooLarge)
    ensures r.Ok? ==> |r.value| == CC_SIZE && DeclaredSize(r.value) == size
    ensures r.Ok? ==> r.value[0] == CC_MAGIC && r.value[1] == CC_VERSION_ACCESS && r.value[3] == CC_MBREAD
  {
    if size % 8 != 0 then Err(SizeNotMultipleOf8)
    else if size / 8 > MAX_CC_SIZE_BYTE then Err(SizeTooLarge)
    else Ok([CC_MAGIC, CC_VERSION_ACCESS, size / 8, CC_MBREAD])
  }

  /** The TLV header and the length of the NDEF message it announces. */
  datatype Tlv = Tlv(header: seq<byte>, messageLength: nat)

  /** Well-formed NDEF Message TLV header: tag byte, then a 1-byte length, or 0xFF and 2 bytes. */
  predicate TlvHeaderShape(header: seq<byte>)
  {
    && (|header| == 2 || |header| == 4)
    && header[0] == TLV_NDEF_MESSAGE
    && (|header| == 2 <==> header[1] != TLV_LONG_LENGTH)
  }

  /** The message length a TLV header announces. */
  function TlvLength(header: seq<byte>): nat
    requires TlvHeaderShape(header)
  {
    if |header| == 4 then header[2] as int * 256 + header[3] else header[1]
  }

  /** The TLV framing for a tag of `size` bytes: the NDEF message fills everything after the
      CC, the TLV header and the terminator byte (taghandler.py:119-149). */
  function TlvFrame(size: nat): (r: Result<Tlv, InitError>)
    ensures r.Ok? <==> 7 <= size && size != 262 && size != 263 && size < 0x1_0000 + 9
    ensures r.Err? ==> r.error == (if size < 7 || 0x1_0000 + 9 <= size then TlvLengthNotAByte else TlvHeaderSizeMismatch)
    ensures r.Ok? ==> TlvHeaderShape(r.value.header) && TlvLength(r.value.header) == r.value.messageLength
    ensures r.Ok? ==> (|r.value.header| == 2 <==> r.value.messageLength <= TLV_SHORT_MAX)
    ensures r.Ok? ==> CC_SIZE + |r.value.header| + r.value.messageLength + 1 == size
  {
    var shortLength := size - CC_SIZE - 1 - 2;
    var headerSize := if shortLength > TLV_SHORT_MAX then 4 else 2;
    var length := if shortLength > TLV_SHORT_MAX then shortLength - 2 else shortLength;
    if length < 0 || length / 256 > 255 then Err(TlvLengthNotAByte)
    else
      var header: seq<byte> :=
        if length <= TLV_SHORT_MAX then [TLV_NDEF_MESSAGE, length]
        else [TLV_NDEF_MESSAGE, TLV_LONG_LENGTH, length / 256, length % 256];
      if |header| != headerSize then Err(TlvHeaderSizeMismatch)
      else Ok(Tlv(header, length))
  }

  /** Width of the payload record's header: flags, TYPE_LENGTH, PAYLOAD_LENGTH (1 byte for a
      short record, else 4) and the type itself; there is no ID field. */
  function RecordHeaderSize(typeLength: nat, payloadLength: nat): nat
  {
    3 + typeLength + (if payloadLength > SHORT_PAYLOAD_MAX then 3 else 0)
  }

  function FromBe32(b: seq<byte>): nat
    requires |b| == 4
  {
    ((b[0] as int * 0x100 + b[1]) * 0x100 + b[2]) * 0x100 + b[3]
  }

  /** Big-endian 32-bit encoding of a PAYLOAD_LENGTH. */
  function Be32(n: nat): (b: seq<byte>)
    requires n < 0x1_0000_0000
    ensures |b| == 4 && FromBe32(b) == n
  {
    var n1 := n / 0x100;
    var n2 := n1 / 0x100;
    assert n == n1 * 0x100 + n % 0x100 && n1 == n2 * 0x100 + n1 % 0x100;
    assert n2 < 0x1_0000 && n2 == (n2 / 0x100) * 0x100 + n2 % 0x100;
    [n2 / 0x100, n2 % 0x100, n1 % 0x100, n % 0x100]
  }

  /** The fields of an NDEF record header as a reader decodes them. */
  datatype RecordHeader = RecordHeader(
    messageBegin: bool, messageEnd: bool, chunked: bool, shortRecord: bool, hasId: bool,
    tnf: nat, typeLength: nat, payloadLength: nat)

  /** Decodes the header of the NDEF record at the start of `rec`. */
  function ParseRecordHeader(rec: seq<byte>): Option<RecordHeader>
  {
    if |rec| < 3 then None
    else
      var flags := rec[0];
      var short := (flags / 0x10) % 2 == 1;
      if !short && |rec| < 6 then None
      else Some(RecordHeader(
        flags / 0x80 == 1, (flags / 0x40) % 2 == 1, (flags / 0x20) % 2 == 1, short, (flags / 0x08) % 2 == 1,
        flags % 8, rec[1], if short then rec[2] else FromBe32(rec[2..6])))
  }

  /** Where the type of a record without an ID field starts. */
  function TypeOffset(h: RecordHeader): nat
  {
    if h.shortRecord then 3 else 6
  }

  /** The NDEF encoding of the payload record: an unchunked media-type record without ID, the
      last of its message, first of it when `first` (taghandler.py:213-214). */
  function MediaRecord(mimeType: seq<byte>, payload: seq<byte>, first: bool): (rec: seq<byte>)
    requires |mimeType| <= MAX_TYPE_LENGTH && |payload| < 0x1_0000_0000
    ensures ParseRecordHeader(rec) == Some(RecordHeader(
      first, true, false, |payload| <= SHORT_PAYLOAD_MAX, false, TNF_MEDIA_TYPE as nat, |mimeType|, |payload|))
    ensures |rec| == RecordHeaderSize(|mimeType|, |payload|) + |payload|
    ensures RecordHeaderSize(|mimeType|, |payload|)
         == TypeOffset(ParseRecordHeader(rec).value) + |mimeType|
    ensures rec[RecordHeaderSize(|mimeType|, |payload|) - |mimeType|..RecordHeaderSize(|mimeType|, |payload|)] == mimeType
    ensures rec[RecordHeaderSize(|mimeType|, |payload|)..] == payload
  {
    var short := |payload| <= SHORT_PAYLOAD_MAX;
    var flags: byte := (if first then FLAG_MB else 0) + FLAG_ME + (if short then FLAG_SR else 0) + TNF_MEDIA_TYPE;
    var lengthField := if short then [|payload| as byte] else Be32(|payload|);
    var rec := [flags, |mimeType|] + lengthField + mimeType + payload;
    assert rec[0] == flags && rec[1] == |mimeType|;
    assert short ==> rec[2] == |payload|;
    assert !short ==> rec[2..6] == lengthField;
    assert (flags / 0x10) % 2 == 1 <==> short;
    assert flags / 0x80 == 1 <==> first;
    assert (flags / 0x40) % 2 == 1 && (flags / 0x20) % 2 == 0 && (flags / 0x08) % 2 == 0 && flags % 8 == TNF_MEDIA_TYPE;
    rec
  }
}
