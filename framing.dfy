/**
 * The bytes `frameAndSend` puts on the wire for one frame (sections 5.2 and 5.3
 * of RFC 6455), as pure functions, and a reader of those bytes that serves as
 * the independent partner the encoder is proved against.
 */
module Framing {
  import opened Results
  import opened Bytes

  /** A four-bit frame opcode. */
  type Opcode = b: byte | b < 0x10

  const Continuation: Opcode := 0x0
  const Text: Opcode := 0x1
  const Binary: Opcode := 0x2
  const Close: Opcode := 0x8
  const Ping: Opcode := 0x9
  const Pong: Opcode := 0xA

  /** Payload lengths are below 2^32: the 64-bit length form carries zero in its high half. */
  const PayloadLimit: nat := 0x1_0000_0000

  /** How the payload length is carried in the header. */
  datatype LengthClass = Literal | Extended16 | Extended64

  /** The length class `frameAndSend` picks: 127 from 65536 up, 126 above 125, else literal. */
  function ClassOf(length: nat): LengthClass
  {
    if length >= 0x1_0000 then Extended64 else if length > 125 then Extended16 else Literal
  }

  /** `secondByte` as `frameAndSend` computes it, the low seven bits of byte 1: 127, 126 or the length itself. */
  function LengthMarker(length: nat): (m: byte)
    ensures m < 0x80
  {
    if length >= 0x1_0000 then 127 else if length > 125 then 126 else length
  }

  /** The extended payload length after byte 1: none, 16 bits, or 32 zero bits then 32 bits. */
  function ExtendedLength(length: nat): seq<byte>
  {
    match ClassOf(length)
    case Literal => []
    case Extended16 => UInt16BE(length)
    case Extended64 => UInt32BE(0) + UInt32BE(length)
  }

  /** `dataOffset`: where the payload starts, i.e. the size of the header. */
  function HeaderSize(length: nat, masked: bool): nat
  {
    (if masked then 6 else 2) + match ClassOf(length) {
      case Literal => 0
      case Extended16 => 2
      case Extended64 => 8
    }
  }

  /**
   * Byte 0: bit 7 is the FIN bit, bits 4 to 6 (the reserved bits) stay clear,
   * and bits 0 to 3 hold the opcode. The source sets the FIN bit with
   * `opcode | 0x80`, which `OrHighBit` shows is this sum.
   */
  function FirstByte(opcode: Opcode, fin: bool): (b: byte)
    ensures (b >= 0x80) == fin
    ensures (b / 0x10) % 8 == 0
    ensures b % 0x10 == opcode
  {
    if fin then opcode + 0x80 else opcode
  }

  /**
   * Byte 1: bit 7 is the mask bit and bits 0 to 6 the length marker; the
   * source sets the mask bit with `secondByte | 0x80`.
   */
  function SecondByte(length: nat, masked: bool): (b: byte)
    ensures (b >= 0x80) == masked
    ensures b % 0x80 == LengthMarker(length)
  {
    if masked then LengthMarker(length) + 0x80 else LengthMarker(length)
  }

  /** Header of a frame with a present payload: bytes 0 and 1, extended length, masking key. */
  function Header(opcode: Opcode, fin: bool, length: nat, key: Option<MaskKey>): seq<byte>
  {
    [FirstByte(opcode, fin), SecondByte(length, key.Some?)]
      + ExtendedLength(length)
      + (if key.Some? then key.value else [])
  }

  /**
   * The socket writes of one frame, in order. A falsy payload gives the two-byte
   * frame and is never masked; a masked payload goes out in one write after its
   * header; an unmasked payload is a second write after the header.
   */
  function FrameWrites(opcode: Opcode, fin: bool, data: Option<seq<byte>>, key: Option<MaskKey>): seq<seq<byte>>
  {
    match data
    case None => [[FirstByte(opcode, fin), 0]]
    case Some(payload) =>
      match key
      case Some(k) => [Header(opcode, fin, |payload|, key) + Mask(payload, k)]
      case None => [Header(opcode, fin, |payload|, None), payload]
  }

  /** The byte stream a sequence of writes produces. */
  function Concat(writes: seq<seq<byte>>): seq<byte>
  {
    if writes == [] then [] else writes[0] + Concat(writes[1..])
  }

  /** A frame as a receiver sees it: the payload is already unmasked. */
  datatype Frame = Frame(fin: bool, opcode: Opcode, key: Option<MaskKey>, payload: seq<byte>)

  /** Where the length field ends, given the seven-bit marker of byte 1. */
  function LengthFieldEnd(marker: nat): nat
  {
    if marker == 126 then 4 else if marker == 127 then 10 else 2
  }

  /** Reads exactly one frame (section 5.2 of RFC 6455) from `wire`, or fails. */
  function ParseFrame(wire: seq<byte>): Option<Frame>
  {
    if |wire| < 2 || (wire[0] / 0x10) % 8 != 0 then None
    else ParseAfterFixedBytes(wire, wire[0] >= 0x80, wire[0] % 0x10, wire[1] >= 0x80, wire[1] % 0x80)
  }

  /** The rest of `ParseFrame` once bytes 0 and 1 are split into their fields. */
  function ParseAfterFixedBytes(wire: seq<byte>, fin: bool, opcode: Opcode, masked: bool, marker: nat): Option<Frame>
  {
    var lengthEnd := LengthFieldEnd(marker);
    if |wire| < lengthEnd then None
    else
      var length := if lengthEnd == 2 then marker else FromBE(wire[2..lengthEnd]);
      var keyEnd := if masked then lengthEnd + 4 else lengthEnd;
      if |wire| != keyEnd + length then None
      else if masked then
        var key: MaskKey := wire[lengthEnd..keyEnd];
        Some(Frame(fin, opcode, Some(key), Mask(wire[keyEnd..], key)))
      else
        Some(Frame(fin, opcode, None, wire[keyEnd..]))
  }

  /** Bytes 0 and 1 of a header, and its size. */
  lemma HeaderFixedBytes(opcode: Opcode, fin: bool, length: nat, key: Option<MaskKey>)
    ensures |Header(opcode, fin, length, key)| == HeaderSize(length, key.Some?)
    ensures Header(opcode, fin, length, key)[0] == FirstByte(opcode, fin)
    ensures Header(opcode, fin, length, key)[1] == SecondByte(length, key.Some?)
  {
  }

  lemma HeaderExtended16(opcode: Opcode, fin: bool, length: nat, key: Option<MaskKey>)
    requires 126 <= length < 0x1_0000
    ensures Header(opcode, fin, length, key)[1] % 0x80 == 126
    ensures FromBE(Header(opcode, fin, length, key)[2..4]) == length
    ensures HeaderSize(length, key.Some?) == if key.Some? then 8 else 4
  {
    HeaderFixedBytes(opcode, fin, length, key);
    assert LengthMarker(length) == 126;
    assert ClassOf(length) == Extended16;
    var h := Header(opcode, fin, length, key);
    var ext := ExtendedLength(length);
    assert ext == UInt16BE(length);
    assert h == [h[0], h[1]] + ext + (if key.Some? then key.value else []);
    assert h[2..4] == ext;
    UInt16BERoundTrip(length);
  }

  lemma HeaderExtended64(opcode: Opcode, fin: bool, length: nat, key: Option<MaskKey>)
    requires 0x1_0000 <= length < PayloadLimit
    ensures Header(opcode, fin, length, key)[1] % 0x80 == 127
    ensures Header(opcode, fin, length, key)[2..6] == [0, 0, 0, 0]
    ensures FromBE(Header(opcode, fin, length, key)[6..10]) == length
    ensures HeaderSize(length, key.Some?) == if key.Some? then 14 else 10
  {
    HeaderFixedBytes(opcode, fin, length, key);
    var h := Header(opcode, fin, length, key);
    assert h[2..6] == UInt32BE(0);
    assert h[6..10] == UInt32BE(length);
    UInt32BERoundTrip(length);
  }

  lemma HeaderKeyAtEnd(opcode: Opcode, fin: bool, length: nat, key: MaskKey)
    ensures Header(opcode, fin, length, Some(key))[HeaderSize(length, true) - 4..] == key
  {
    HeaderFixedBytes(opcode, fin, length, Some(key));
  }

  /**
   * The length classes of the header: literal up to 125, marker 126 with a
   * 16-bit length up to 65535, marker 127 with 32 zero bits and a 32-bit length
   * beyond; the mask bit, and the four key bytes at its end.
   */
  lemma HeaderLayout(opcode: Opcode, fin: bool, length: nat, key: Option<MaskKey>)
    requires length < PayloadLimit
    ensures |Header(opcode, fin, length, key)| == HeaderSize(length, key.Some?)
    ensures Header(opcode, fin, length, key)[0] == FirstByte(opcode, fin)
    ensures (Header(opcode, fin, length, key)[1] >= 0x80) == key.Some?
    ensures length <= 125 ==>
      Header(opcode, fin, length, key)[1] % 0x80 == length
      && HeaderSize(length, key.Some?) == if key.Some? then 6 else 2
    ensures 126 <= length < 0x1_0000 ==>
      Header(opcode, fin, length, key)[1] % 0x80 == 126
      && FromBE(Header(opcode, fin, length, key)[2..4]) == length
      && HeaderSize(length, key.Some?) == if key.Some? then 8 else 4
    ensures 0x1_0000 <= length ==>
      Header(opcode, fin, length, key)[1] % 0x80 == 127
      && Header(opcode, fin, length, key)[2..6] == [0, 0, 0, 0]
      && FromBE(Header(opcode, fin, length, key)[6..10]) == length
      && HeaderSize(length, key.Some?) == if key.Some? then 14 else 10
    ensures key.Some? ==> Header(opcode, fin, length, key)[HeaderSize(length, true) - 4..] == key.value
  {
    HeaderFixedBytes(opcode, fin, length, key);
    if length >= 0x1_0000 {
      HeaderExtended64(opcode, fin, length, key);
    } else if length > 125 {
      HeaderExtended16(opcode, fin, length, key);
    }
    if key.Some? {
      HeaderKeyAtEnd(opcode, fin, length, key.value);
    }
  }

  /** Once the length field and the key are where the header says, the payload follows them. */
  lemma ParseAfterLengthField(wire: seq<byte>, fin: bool, opcode: Opcode, key: Option<MaskKey>, marker: nat, length: nat)
    requires LengthFieldEnd(marker) <= |wire|
    requires (if LengthFieldEnd(marker) == 2 then marker else FromBE(wire[2..LengthFieldEnd(marker)])) == length
    requires |wire| == LengthFieldEnd(marker) + (if key.Some? then 4 else 0) + length
    requires key.Some? ==> wire[LengthFieldEnd(marker)..LengthFieldEnd(marker) + 4] == key.value
    ensures ParseAfterFixedBytes(wire, fin, opcode, key.Some?, marker)
      == Some(Frame(fin, opcode, key, if key.Some? then Mask(wire[|wire| - length..], key.value) else wire[|wire| - length..]))
  {
  }

  /** The length field of a header, with anything after it, decodes to the payload length. */
  lemma LengthFieldDecodes(opcode: Opcode, fin: bool, length: nat, key: Option<MaskKey>, rest: seq<byte>)
    requires length < PayloadLimit
    ensures var wire := Header(opcode, fin, length, key) + rest;
      var marker := LengthMarker(length);
      LengthFieldEnd(marker) <= |wire|
      && (if LengthFieldEnd(marker) == 2 then marker else FromBE(wire[2..LengthFieldEnd(marker)])) == length
  {
    if length >= 0x1_0000 {
      LengthField64(opcode, fin, length, key, rest);
    } else if length > 125 {
      LengthField16(opcode, fin, length, key, rest);
    } else {
      HeaderFixedBytes(opcode, fin, length, key);
    }
  }

  lemma LengthField64(opcode: Opcode, fin: bool, length: nat, key: Option<MaskKey>, rest: seq<byte>)
    requires 0x1_0000 <= length < PayloadLimit
    ensures var wire := Header(opcode, fin, length, key) + rest;
      LengthFieldEnd(LengthMarker(length)) == 10 <= |wire| && FromBE(wire[2..10]) == length
  {
    var h := Header(opcode, fin, length, key);
    var wire := h + rest;
    HeaderFixedBytes(opcode, fin, length, key);
    HeaderExtended64(opcode, fin, length, key);
    assert 10 <= |h|;
    assert wire[2..10] == h[2..10];
    assert h[2..10] == h[2..6] + h[6..10];
    FromBEZeroPrefix(h[2..6], h[6..10]);
  }

  lemma LengthField16(opcode: Opcode, fin: bool, length: nat, key: Option<MaskKey>, rest: seq<byte>)
    requires 126 <= length < 0x1_0000
    ensures var wire := Header(opcode, fin, length, key) + rest;
      LengthFieldEnd(LengthMarker(length)) == 4 <= |wire| && FromBE(wire[2..4]) == length
  {
    var h := Header(opcode, fin, length, key);
    var wire := h + rest;
    HeaderFixedBytes(opcode, fin, length, key);
    HeaderExtended16(opcode, fin, length, key);
    assert 4 <= |h|;
    assert wire[2..4] == h[2..4];
  }

  /** The reader splits bytes 0 and 1 of a header back into FIN, opcode, mask bit and marker. */
  lemma FixedBytesDecode(opcode: Opcode, fin: bool, key: Option<MaskKey>, rest: seq<byte>)
    ensures var wire := Header(opcode, fin, |rest|, key) + rest;
      ParseFrame(wire) == ParseAfterFixedBytes(wire, fin, opcode, key.Some?, LengthMarker(|rest|))
  {
    var h := Header(opcode, fin, |rest|, key);
    var wire := h + rest;
    HeaderFixedBytes(opcode, fin, |rest|, key);
    assert wire[0] == h[0] && wire[1] == h[1];
  }

  /** The reader recovers every header field and finds the payload right after it. */
  lemma ParseHeaderThenPayload(opcode: Opcode, fin: bool, key: Option<MaskKey>, rest: seq<byte>)
    requires |rest| < PayloadLimit
    ensures ParseFrame(Header(opcode, fin, |rest|, key) + rest)
      == Some(Frame(fin, opcode, key, if key.Some? then Mask(rest, key.value) else rest))
  {
    var length := |rest|;
    var h := Header(opcode, fin, length, key);
    var wire := h + rest;
    var size := HeaderSize(length, key.Some?);
    var marker := LengthMarker(length);
    var lengthEnd := LengthFieldEnd(marker);
    assert |h| == size && wire[size..] == rest && lengthEnd <= |wire| by {
      HeaderLayout(opcode, fin, length, key);
    }
    FixedBytesDecode(opcode, fin, key, rest);
    assert (if lengthEnd == 2 then marker else FromBE(wire[2..lengthEnd])) == length by {
      LengthFieldDecodes(opcode, fin, length, key, rest);
    }
    assert |wire| == lengthEnd + (if key.Some? then 4 else 0) + length by {
      HeaderLayout(opcode, fin, length, key);
    }
    if key.Some? {
      assert wire[lengthEnd..lengthEnd + 4] == key.value by {
        HeaderLayout(opcode, fin, length, key);
        assert wire[lengthEnd..lengthEnd + 4] == h[size - 4..];
      }
    }
    ParseAfterLengthField(wire, fin, opcode, key, marker, length);
  }

  /**
   * Round trip: the bytes of every frame read back as one frame with the same
   * FIN bit, opcode and payload; the masking key is the one written, and a
   * falsy payload reads back as an empty, unmasked frame.
   */
  lemma FrameRoundTrip(opcode: Opcode, fin: bool, data: Option<seq<byte>>, key: Option<MaskKey>)
    requires data.Some? ==> |data.value| < PayloadLimit
    ensures ParseFrame(Concat(FrameWrites(opcode, fin, data, key)))
      == Some(Frame(fin, opcode, if data.Some? then key else None, if data.Some? then data.value else []))
  {
    var writes := FrameWrites(opcode, fin, data, key);
    match data
    case None =>
      assert Concat(writes) == [FirstByte(opcode, fin), 0];
    case Some(payload) =>
      match key
      case Some(k) =>
        var masked := Mask(payload, k);
        assert Concat(writes) == Header(opcode, fin, |masked|, key) + masked;
        ParseHeaderThenPayload(opcode, fin, key, masked);
        MaskInvolution(payload, k);
      case None =>
        assert Concat(writes) == Header(opcode, fin, |payload|, None) + payload by {
          assert Concat(writes[1..]) == payload + Concat([]);
        }
        ParseHeaderThenPayload(opcode, fin, None, payload);
  }
}
