/**
 * The HyBi sender of ws: a `Sender` object that frames payloads and hands the
 * bytes to its socket. The socket is modelled by the trace of its `write`
 * calls; the random mask source is the `freshKey` argument.
 */
module HybiSender {
  import opened Results
  import opened Bytes
  import opened Framing
  import opened Fragmentation

  /** The transport: every `write` call appends the bytes it was handed, in call order. */
  class Socket {
    var writes: seq<seq<byte>>

    constructor ()
      ensures writes == []
    {
      writes := [];
    }

    method Write(bytes: seq<byte>)
      modifies this
      ensures writes == old(writes) + [bytes]
    {
      writes := writes + [bytes];
    }
  }

  /**
   * The `done` counter and `callback` closure of an unmasked frame: both of its
   * writes complete into `Arrive`, and the caller's callback fires on the second.
   */
  class Join {
    var done: nat
    const hasCallback: bool

    constructor (hasCallback: bool)
      ensures done == 0 && this.hasCallback == hasCallback
    {
      done := 0;
      this.hasCallback := hasCallback;
    }

    /** One write completion: `fire` says whether the caller's callback runs now. */
    method Arrive() returns (fire: bool)
      modifies this
      ensures done == old(done) + 1
      ensures fire <==> hasCallback && done == 2
    {
      done := done + 1;
      fire := done == 2 && hasCallback;
    }
  }

  /** Both completions of an unmasked frame: the callback waits for the second. */
  method CompleteBothWrites(join: Join) returns (first: bool, second: bool)
    requires join.done == 0
    modifies join
    ensures !first && second == join.hasCallback && join.done == 2
  {
    first := join.Arrive();
    second := join.Arrive();
  }

  /** `writeUInt16BE`: stores `value` big-endian at `offset` and touches nothing else. */
  method WriteUInt16BE(buffer: array<byte>, value: int, offset: nat)
    requires offset + 2 <= buffer.Length
    modifies buffer
    ensures buffer[offset..offset + 2] == UInt16BE(value)
    ensures forall i :: 0 <= i < buffer.Length && !(offset <= i < offset + 2) ==> buffer[i] == old(buffer[i])
  {
    buffer[offset] := (value / 0x100) % 0x100;
    buffer[offset + 1] := value % 0x100;
  }

  /** `writeUInt32BE`: stores `value` big-endian at `offset` and touches nothing else. */
  method WriteUInt32BE(buffer: array<byte>, value: int, offset: nat)
    requires offset + 4 <= buffer.Length
    modifies buffer
    ensures buffer[offset..offset + 4] == UInt32BE(value)
    ensures forall i :: 0 <= i < buffer.Length && !(offset <= i < offset + 4) ==> buffer[i] == old(buffer[i])
  {
    buffer[offset] := (value / 0x100_0000) % 0x100;
    buffer[offset + 1] := (value / 0x1_0000) % 0x100;
    buffer[offset + 2] := (value / 0x100) % 0x100;
    buffer[offset + 3] := value % 0x100;
  }

  /** `getArrayBuffer`: a fresh Buffer holding a copy of the bytes of `source`. */
  method GetArrayBuffer(source: array<byte>) returns (buffer: array<byte>)
    ensures fresh(buffer)
    ensures buffer[..] == source[..]
  {
    var l := source.Length;
    buffer := new byte[l];
    var i := 0;
    while i < l
      invariant 0 <= i <= l
      invariant forall k :: 0 <= k < i ==> buffer[k] == source[k]
    {
      buffer[i] := source[i];
      i := i + 1;
    }
  }

  /**
   * `bufferUtil.mask(source, key, output, offset, length)`: writes the first
   * `length` bytes of `source`, XORed with the repeating key, at `offset`.
   */
  method MaskInto(source: seq<byte>, key: MaskKey, output: array<byte>, offset: nat, length: nat)
    requires length <= |source| && offset + length <= output.Length
    modifies output
    ensures output[..] == old(output[..offset]) + Mask(source[..length], key) + old(output[offset + length..])
  {
    forall i | offset <= i < offset + length {
      output[i] := Xor(source[i - offset], key[(i - offset) % 4]);
    }
    assert output[..] == old(output[..offset]) + Mask(source[..length], key) + old(output[offset + length..]);
  }

  /** The key a masked frame uses: the cached one, or else the freshly drawn one. */
  function MaskInUse(cached: Option<MaskKey>, freshKey: MaskKey): MaskKey
  {
    if cached.Some? then cached.value else freshKey
  }

  /** The key a frame carries: none for a falsy payload or when masking is off. */
  function FrameKey(cached: Option<MaskKey>, freshKey: MaskKey, data: Option<seq<byte>>, maskData: bool): Option<MaskKey>
  {
    if maskData && data.Some? then Some(MaskInUse(cached, freshKey)) else None
  }

  /** `totalLength`: the header, plus the payload when it is masked into the same buffer. */
  function OutputLength(length: nat, maskData: bool): nat
  {
    if maskData then HeaderSize(length, true) + length else HeaderSize(length, false)
  }

  /** How `close` reads its first argument. */
  datatype CloseCode = Omitted | NonNumeric | Code(n: int)

  /** `close` throws before writing anything when a code is given that is not a valid number. */
  predicate CloseCodeRejected(code: CloseCode, isValidErrorCode: int -> bool)
  {
    code.NonNumeric? || (code.Code? && !isValidErrorCode(code.n))
  }

  /** `code || 1000`: an omitted (or zero) code becomes 1000. */
  function EffectiveCloseCode(code: CloseCode): int
  {
    if code.Code? && code.n != 0 then code.n else 1000
  }

  /** The payload of a Close frame: the status code big-endian, then the reason bytes. */
  function ClosePayload(code: int, reason: seq<byte>): seq<byte>
  {
    UInt16BE(code) + reason
  }

  /** A receiver reads the status code modulo 2^16 from the first two bytes, and the reason after them. */
  lemma ClosePayloadReadsBack(code: int, reason: seq<byte>)
    ensures |ClosePayload(code, reason)| == 2 + |reason|
    ensures FromBE(ClosePayload(code, reason)[..2]) == code % 0x1_0000
    ensures ClosePayload(code, reason)[2..] == reason
  {
    assert ClosePayload(code, reason)[..2] == UInt16BE(code);
    UInt16BERoundTrip(code);
  }

  /** `close()` sends status 1000; `close(1001, "bye")` sends 0x03 0xE9 then the reason. */
  lemma CloseExamples(isValidErrorCode: int -> bool)
    ensures !CloseCodeRejected(Omitted, isValidErrorCode)
    ensures ClosePayload(EffectiveCloseCode(Omitted), []) == [0x03, 0xE8]
    ensures isValidErrorCode(1001) ==>
      !CloseCodeRejected(Code(1001), isValidErrorCode)
      && ClosePayload(EffectiveCloseCode(Code(1001)), [0x62, 0x79, 0x65]) == [0x03, 0xE9, 0x62, 0x79, 0x65]
    ensures !isValidErrorCode(4999) ==> CloseCodeRejected(Code(4999), isValidErrorCode)
  {
    assert UInt16BE(1000) == [0x03, 0xE8] by {
      assert (1000 / 0x100) % 0x100 == 0x03 && 1000 % 0x100 == 0xE8;
    }
    assert UInt16BE(1001) == [0x03, 0xE9] by {
      assert (1001 / 0x100) % 0x100 == 0x03 && 1001 % 0x100 == 0xE9;
    }
  }

  /** A buffer laid out piece by piece as `frameAndSend` writes it holds the header and masked payload. */
  lemma AssembledFrame(out: seq<byte>, opcode: Opcode, fin: bool, payload: seq<byte>, key: MaskKey)
    requires |payload| < PayloadLimit
    requires |out| == OutputLength(|payload|, true)
    requires out[0] == FirstByte(opcode, fin)
    requires out[1] == SecondByte(|payload|, true)
    requires out[2..2 + |ExtendedLength(|payload|)|] == ExtendedLength(|payload|)
    requires out[HeaderSize(|payload|, true) - 4..HeaderSize(|payload|, true)] == key
    requires out[HeaderSize(|payload|, true)..] == Mask(payload, key)
    ensures out == Header(opcode, fin, |payload|, Some(key)) + Mask(payload, key)
  {
    var ext := ExtendedLength(|payload|);
    var size := HeaderSize(|payload|, true);
    assert |ext| + 6 == size;
    assert out[..size] == [out[0], out[1]] + out[2..2 + |ext|] + out[size - 4..size];
    assert out == out[..size] + out[size..];
  }

  /**
   * The output region of a masked frame. `head` is the buffer once byte 0 and
   * the length field are written, `withSecond` once byte 1 is, `withKey` once
   * the key is, and `out` once the masked payload is.
   */
  lemma MaskedRegion(head: seq<byte>, withSecond: seq<byte>, withKey: seq<byte>, out: seq<byte>,
                     second: byte, dataOffset: nat, totalLength: nat, opcode: Opcode, fin: bool,
                     payload: seq<byte>, mask: MaskKey)
    requires |payload| < PayloadLimit
    requires dataOffset == HeaderSize(|payload|, true)
    requires totalLength == dataOffset + |payload| <= |head|
    requires |head| == |withSecond| == |withKey| == |out|
    requires head[0] == FirstByte(opcode, fin)
    requires head[2..2 + |ExtendedLength(|payload|)|] == ExtendedLength(|payload|)
    requires second == SecondByte(|payload|, true)
    requires withSecond == head[1 := second]
    requires withKey == withSecond[..dataOffset - 4] + mask + withSecond[dataOffset..]
    requires out == withKey[..dataOffset] + Mask(payload[..|payload|], mask) + withKey[dataOffset + |payload|..]
    ensures out[..totalLength] == Header(opcode, fin, |payload|, Some(mask)) + Mask(payload, mask)
    ensures out[totalLength..] == head[totalLength..]
  {
    var size := dataOffset;
    var ext := ExtendedLength(|payload|);
    assert payload[..|payload|] == payload;
    assert |ext| + 6 == size;
    assert out[..size] == withKey[..size];
    assert out[2..2 + |ext|] == ext by {
      forall j | 0 <= j < |ext| ensures out[2..2 + |ext|][j] == ext[j] {
        assert out[2 + j] == withKey[2 + j] == withSecond[2 + j] == head[2 + j];
        assert head[2..2 + |ext|][j] == head[2 + j];
      }
    }
    assert out[0] == head[0];
    assert out[1] == withSecond[1];
    assert out[size - 4..size] == mask;
    assert out[size..totalLength] == Mask(payload, mask);
    AssembledFrame(out[..totalLength], opcode, fin, payload, mask);
    assert out[totalLength..] == head[totalLength..];
  }

  /** The output region of an unmasked frame: the header alone. */
  lemma UnmaskedRegion(out: seq<byte>, head: seq<byte>, totalLength: nat, opcode: Opcode, fin: bool, length: nat)
    requires length < PayloadLimit
    requires totalLength == OutputLength(length, false) <= |out| == |head|
    requires head[0] == FirstByte(opcode, fin)
    requires head[2..2 + |ExtendedLength(length)|] == ExtendedLength(length)
    requires out[1] == SecondByte(length, false)
    requires forall i :: 0 <= i < |out| && i != 1 ==> out[i] == head[i]
    ensures out[..totalLength] == Header(opcode, fin, length, None)
    ensures out[totalLength..] == head[totalLength..]
  {
    var ext := ExtendedLength(length);
    assert out[2..2 + |ext|] == ext by {
      forall j | 0 <= j < |ext| ensures out[2..2 + |ext|][j] == ext[j] {
        assert out[2 + j] == head[2 + j];
        assert head[2..2 + |ext|][j] == head[2 + j];
      }
    }
    assert |ext| + 2 == totalLength;
    assert out[..totalLength] == [out[0], out[1]] + ext;
  }

  class Sender {
    const socket: Socket
    /** `_sendCache`, allocated once when the configured size is positive; never replaced. */
    const sendCache: array?<byte>
    /** `_sendCacheSize`. */
    const sendCacheSize: nat
    /** True when the next data send starts a new message. */
    var firstFragment: bool
    /** `_randomMask`: drawn on the first masked frame and reused afterwards. */
    var randomMask: Option<MaskKey>

    ghost predicate Valid()
    {
      sendCache != null ==> sendCache.Length == sendCacheSize > 0
    }

    /** `new Sender(socket, options)`: `sendBufferCacheSize` defaults to 65536; zero or less disables the cache. */
    constructor (socket: Socket, sendBufferCacheSize: Option<int>)
      ensures Valid()
      ensures this.socket == socket && firstFragment && randomMask == None
      ensures var size := if sendBufferCacheSize.Some? then sendBufferCacheSize.value else 65536;
        (sendCache != null <==> size > 0)
        && (sendCache != null ==> fresh(sendCache) && sendCacheSize == size)
    {
      var size := if sendBufferCacheSize.Some? then sendBufferCacheSize.value else 65536;
      if size > 0 {
        sendCacheSize := size;
        sendCache := new byte[size];
      } else {
        sendCacheSize := 0;
        sendCache := null;
      }
      this.socket := socket;
      firstFragment := true;
      randomMask := None;
    }

    /** Whether a frame whose output region has `totalLength` bytes is built in the cache. */
    predicate UsesCache(totalLength: nat)
    {
      sendCache != null && totalLength <= sendCacheSize
    }

    /**
     * The output region of `frameAndSend`: a prefix view of the cache when the
     * frame fits, else a fresh buffer of exactly `totalLength` bytes. The view
     * is the cache itself, of which the frame uses the first `totalLength` bytes.
     */
    method OutputBuffer(totalLength: nat) returns (output: array<byte>)
      requires Valid()
      ensures totalLength <= output.Length
      ensures UsesCache(totalLength) ==> output == sendCache
      ensures !UsesCache(totalLength) ==> fresh(output) && output.Length == totalLength
    {
      if UsesCache(totalLength) {
        output := sendCache;
      } else {
        output := new byte[totalLength];
      }
    }

    /**
     * `close(code, data, mask)`: a code that is given must be a number that
     * `isValidErrorCode` accepts, or the call fails before anything is written;
     * otherwise one final Close frame carries the code (1000 when omitted or
     * zero) big-endian, then the reason bytes.
     */
    method Close(code: CloseCode, reason: seq<byte>, maskData: bool, isValidErrorCode: int -> bool, freshKey: MaskKey)
      returns (outcome: Outcome<string>)
      requires Valid()
      requires 2 + |reason| < PayloadLimit
      modifies this`randomMask, socket, sendCache
      ensures outcome.Fail? <==> CloseCodeRejected(code, isValidErrorCode)
      ensures outcome.Fail? ==>
        socket.writes == old(socket.writes) && randomMask == old(randomMask)
        && (sendCache != null ==> sendCache[..] == old(sendCache[..]))
      ensures outcome.Pass? ==>
        var payload := Some(ClosePayload(EffectiveCloseCode(code), reason));
        socket.writes == old(socket.writes) + FrameWrites(Framing.Close, true, payload, FrameKey(old(randomMask), freshKey, payload, maskData))
        && randomMask == if maskData then Some(MaskInUse(old(randomMask), freshKey)) else old(randomMask)
    {
      if !code.Omitted? {
        if !code.Code? || !isValidErrorCode(code.n) {
          return Fail("first argument must be a valid error code number");
        }
      }
      var effective := if code.Code? && code.n != 0 then code.n else 1000;
      var dataBuffer := new byte[2 + |reason|];
      WriteUInt16BE(dataBuffer, effective, 0);
      if dataBuffer.Length > 2 {
        forall i | 2 <= i < dataBuffer.Length {
          dataBuffer[i] := reason[i - 2];
        }
      }
      assert dataBuffer[..] == ClosePayload(effective, reason) by {
        assert dataBuffer[..] == dataBuffer[0..2] + dataBuffer[2..];
      }
      var join := FrameAndSend(Framing.Close, Some(dataBuffer[..]), true, maskData, freshKey, false);
      outcome := Pass;
    }

    /**
     * `ping(data, options)`: one final Ping frame. A falsy payload becomes `''`,
     * which is still falsy, so it goes out as the two bytes 0x89 0x00.
     */
    method Ping(data: Option<seq<byte>>, maskData: bool, freshKey: MaskKey)
      requires Valid()
      requires data.Some? ==> |data.value| < PayloadLimit
      modifies this`randomMask, socket, sendCache
      ensures socket.writes == old(socket.writes) + FrameWrites(Framing.Ping, true, data, FrameKey(old(randomMask), freshKey, data, maskData))
      ensures data.None? ==> socket.writes == old(socket.writes) + [[0x89, 0x00]]
      ensures randomMask == if maskData && data.Some? then Some(MaskInUse(old(randomMask), freshKey)) else old(randomMask)
    {
      var join := FrameAndSend(Framing.Ping, data, true, maskData, freshKey, false);
    }

    /** `pong(data, options)`: as `ping`, with opcode Pong; a falsy payload goes out as 0x8A 0x00. */
    method Pong(data: Option<seq<byte>>, maskData: bool, freshKey: MaskKey)
      requires Valid()
      requires data.Some? ==> |data.value| < PayloadLimit
      modifies this`randomMask, socket, sendCache
      ensures socket.writes == old(socket.writes) + FrameWrites(Framing.Pong, true, data, FrameKey(old(randomMask), freshKey, data, maskData))
      ensures data.None? ==> socket.writes == old(socket.writes) + [[0x8A, 0x00]]
      ensures randomMask == if maskData && data.Some? then Some(MaskInUse(old(randomMask), freshKey)) else old(randomMask)
    {
      var join := FrameAndSend(Framing.Pong, data, true, maskData, freshKey, false);
    }

    /**
     * `send(data, options, cb)`: one data frame. The opcode and the next value of
     * `firstFragment` follow the tracker's `Step`: Text or Binary when a message
     * starts, Continuation inside one, and a frame with FIN set closes it.
     */
    method Send(data: Option<seq<byte>>, binary: bool, fin: bool, maskData: bool, freshKey: MaskKey, hasCallback: bool)
      returns (join: Join?)
      requires Valid()
      requires data.Some? ==> |data.value| < PayloadLimit
      modifies this`firstFragment, this`randomMask, socket, sendCache
      ensures firstFragment == Step(old(firstFragment), binary, fin).firstFragment
      ensures socket.writes == old(socket.writes)
        + FrameWrites(Step(old(firstFragment), binary, fin).opcode, fin, data, FrameKey(old(randomMask), freshKey, data, maskData))
      ensures randomMask == if maskData && data.Some? then Some(MaskInUse(old(randomMask), freshKey)) else old(randomMask)
      ensures join == null <==> data.None? || maskData
      ensures join != null ==> fresh(join) && join.done == 0 && join.hasCallback == hasCallback
    {
      var opcode := if binary then Binary else Text;
      if !firstFragment {
        opcode := Continuation;
      } else {
        firstFragment := false;
      }
      if fin {
        firstFragment := true;
      }
      join := FrameAndSend(opcode, data, fin, maskData, freshKey, hasCallback);
    }

    /**
     * `frameAndSend`: puts one frame on the socket. A falsy payload goes out as
     * two bytes, unmasked even when masking is asked for. A masked frame is built
     * whole in the output region and written once. Otherwise the output region
     * holds the header only and the payload follows as a second write, and the
     * returned join fires the caller's callback after both complete.
     */
    method FrameAndSend(opcode: Opcode, data: Option<seq<byte>>, fin: bool, maskData: bool,
                        freshKey: MaskKey, hasCallback: bool) returns (join: Join?)
      requires Valid()
      requires data.Some? ==> |data.value| < PayloadLimit
      modifies this`randomMask, socket, sendCache
      ensures socket.writes == old(socket.writes) + FrameWrites(opcode, fin, data, FrameKey(old(randomMask), freshKey, data, maskData))
      ensures randomMask == if maskData && data.Some? then Some(MaskInUse(old(randomMask), freshKey)) else old(randomMask)
      ensures join == null <==> data.None? || maskData
      ensures join != null ==> fresh(join) && join.done == 0 && join.hasCallback == hasCallback
      ensures data.Some? && UsesCache(OutputLength(|data.value|, maskData)) ==>
        sendCache[..OutputLength(|data.value|, maskData)] == socket.writes[|old(socket.writes)|]
        && sendCache[OutputLength(|data.value|, maskData)..] == old(sendCache[OutputLength(|data.value|, maskData)..])
      ensures sendCache != null && (data.None? || !UsesCache(OutputLength(|data.value|, maskData))) ==>
        sendCache[..] == old(sendCache[..])
    {
      if data.None? {
        OrHighBit(opcode);
        OrZero(opcode);
        socket.Write([Or(opcode, if fin then 0x80 else 0), 0]);
        return null;
      }
      var payload := data.value;
      var output, dataOffset, secondByte, totalLength := StartFrame(opcode, fin, |payload|, maskData);
      if maskData {
        SendMasked(output, opcode, fin, payload, secondByte, dataOffset, totalLength, freshKey);
        join := null;
      } else {
        join := SendUnmasked(output, opcode, fin, payload, secondByte, totalLength, hasCallback);
      }
    }

    /**
     * The masked branch of `frameAndSend`: the key (drawn once and cached), the
     * region built around it, and one write of the whole region.
     */
    method SendMasked(output: array<byte>, opcode: Opcode, fin: bool, payload: seq<byte>,
                      secondByte: nat, dataOffset: nat, totalLength: nat, freshKey: MaskKey)
      requires |payload| < PayloadLimit
      requires secondByte == LengthMarker(|payload|)
      requires dataOffset == HeaderSize(|payload|, true)
      requires totalLength == OutputLength(|payload|, true) <= output.Length
      requires output[0] == FirstByte(opcode, fin)
      requires output[2..2 + |ExtendedLength(|payload|)|] == ExtendedLength(|payload|)
      modifies this`randomMask, socket, output
      ensures randomMask == Some(MaskInUse(old(randomMask), freshKey))
      ensures output[..totalLength] == Header(opcode, fin, |payload|, randomMask) + Mask(payload, randomMask.value)
      ensures output[totalLength..] == old(output[totalLength..])
      ensures socket.writes == old(socket.writes) + FrameWrites(opcode, fin, Some(payload), randomMask)
      ensures socket.writes[|old(socket.writes)|] == output[..totalLength]
    {
      if randomMask.None? {
        randomMask := Some(freshKey);
      }
      BuildMasked(output, opcode, fin, payload, secondByte, dataOffset, totalLength, randomMask.value);
      socket.Write(output[..totalLength]);
    }

    /** Byte 1 with the mask bit, the key before `dataOffset`, and the payload XORed in after it. */
    static method BuildMasked(output: array<byte>, opcode: Opcode, fin: bool, payload: seq<byte>,
                              secondByte: nat, dataOffset: nat, totalLength: nat, mask: MaskKey)
      requires |payload| < PayloadLimit
      requires secondByte == LengthMarker(|payload|)
      requires dataOffset == HeaderSize(|payload|, true)
      requires totalLength == OutputLength(|payload|, true) <= output.Length
      requires output[0] == FirstByte(opcode, fin)
      requires output[2..2 + |ExtendedLength(|payload|)|] == ExtendedLength(|payload|)
      modifies output
      ensures output[..totalLength] == Header(opcode, fin, |payload|, Some(mask)) + Mask(payload, mask)
      ensures output[totalLength..] == old(output[totalLength..])
    {
      ghost var headStart := output[..];
      OrHighBit(secondByte);
      output[1] := Or(secondByte, 0x80);
      ghost var withSecond := output[..];
      assert withSecond == headStart[1 := output[1]];
      WriteMaskKey(output, dataOffset, mask);
      ghost var withKey := output[..];
      MaskInto(payload, mask, output, dataOffset, |payload|);
      MaskedRegion(headStart, withSecond, withKey, output[..], withSecond[1], dataOffset, totalLength,
                   opcode, fin, payload, mask);
      assert output[..totalLength] == output[..][..totalLength];
      assert output[totalLength..] == output[..][totalLength..];
    }

    /**
     * The unmasked branch of `frameAndSend`: byte 1 without the mask bit, the
     * header region written first, then the payload as it was given; the
     * returned join counts their two completions.
     */
    method SendUnmasked(output: array<byte>, opcode: Opcode, fin: bool, payload: seq<byte>,
                        secondByte: nat, totalLength: nat, hasCallback: bool) returns (join: Join)
      requires |payload| < PayloadLimit
      requires secondByte == LengthMarker(|payload|)
      requires totalLength == OutputLength(|payload|, false) <= output.Length
      requires output[0] == FirstByte(opcode, fin)
      requires output[2..2 + |ExtendedLength(|payload|)|] == ExtendedLength(|payload|)
      modifies socket, output
      ensures output[..totalLength] == Header(opcode, fin, |payload|, None)
      ensures output[totalLength..] == old(output[totalLength..])
      ensures socket.writes == old(socket.writes) + FrameWrites(opcode, fin, Some(payload), None)
      ensures socket.writes[|old(socket.writes)|] == output[..totalLength]
      ensures fresh(join) && join.done == 0 && join.hasCallback == hasCallback
    {
      ghost var headStart := output[..];

      output[1] := secondByte;
      UnmaskedRegion(output[..], headStart, totalLength, opcode, fin, |payload|);
      assert output[..totalLength] == output[..][..totalLength];
      assert output[totalLength..] == output[..][totalLength..];
      join := new Join(hasCallback);
      socket.Write(output[..totalLength]);
      socket.Write(payload);
    }

    /**
     * The header part of `frameAndSend`: the length class chain, the choice of
     * output region, byte 0 and the extended length field. Byte 1 and the key
     * are left to the masked and unmasked branches.
     */
    method StartFrame(opcode: Opcode, fin: bool, dataLength: nat, maskData: bool)
      returns (output: array<byte>, dataOffset: nat, secondByte: nat, totalLength: nat)
      requires Valid()
      requires dataLength < PayloadLimit
      modifies sendCache
      ensures dataOffset == HeaderSize(dataLength, maskData)
      ensures secondByte == LengthMarker(dataLength)
      ensures totalLength == OutputLength(dataLength, maskData) <= output.Length
      ensures UsesCache(totalLength) ==> output == sendCache
      ensures !UsesCache(totalLength) ==> fresh(output) && output.Length == totalLength
      ensures output[0] == FirstByte(opcode, fin)
      ensures output[2..2 + |ExtendedLength(dataLength)|] == ExtendedLength(dataLength)
      ensures UsesCache(totalLength) ==> sendCache[totalLength..] == old(sendCache[totalLength..])
      ensures sendCache != null && !UsesCache(totalLength) ==> sendCache[..] == old(sendCache[..])
    {
      dataOffset, secondByte := LengthFields(dataLength, maskData);
      totalLength := if maskData then dataLength + dataOffset else dataOffset;
      output := OutputBuffer(totalLength);
      ghost var before := output[..];
      OrHighBit(opcode);
      output[0] := if fin then Or(opcode, 0x80) else opcode;
      assert 2 + |ExtendedLength(dataLength)| <= totalLength;
      WriteLengthField(output, dataLength, secondByte);
      assert output[totalLength..] == before[totalLength..] by {
        forall i | totalLength <= i < output.Length
          ensures output[i] == before[i]
        {
        }
      }
    }

    /** The length class chain of `frameAndSend`: where the payload starts, and the marker of byte 1. */
    static method LengthFields(dataLength: nat, maskData: bool) returns (dataOffset: nat, secondByte: nat)
      ensures dataOffset == HeaderSize(dataLength, maskData)
      ensures secondByte == LengthMarker(dataLength)
    {
      dataOffset := if maskData then 6 else 2;
      secondByte := dataLength;
      if dataLength >= 0x1_0000 {
        dataOffset := dataOffset + 8;
        secondByte := 127;
      } else if dataLength > 125 {
        dataOffset := dataOffset + 2;
        secondByte := 126;
      }
    }

    /** The `switch (secondByte)` of `frameAndSend`: the extended payload length at offset 2. */
    method WriteLengthField(output: array<byte>, dataLength: nat, secondByte: nat)
      requires dataLength < PayloadLimit
      requires secondByte == LengthMarker(dataLength)
      requires 2 + |ExtendedLength(dataLength)| <= output.Length
      modifies output
      ensures output[2..2 + |ExtendedLength(dataLength)|] == ExtendedLength(dataLength)
      ensures forall i :: 0 <= i < output.Length && !(2 <= i < 2 + |ExtendedLength(dataLength)|) ==> output[i] == old(output[i])
    {
      if secondByte == 126 {
        WriteUInt16BE(output, dataLength, 2);
      } else if secondByte == 127 {
        WriteUInt32BE(output, 0, 2);
        WriteUInt32BE(output, dataLength, 6);
        assert output[2..10] == output[2..6] + output[6..10];
      }
    }

    /** The four masking-key bytes just before `dataOffset`. */
    static method WriteMaskKey(output: array<byte>, dataOffset: nat, mask: MaskKey)
      requires 4 <= dataOffset <= output.Length
      modifies output
      ensures output[..] == old(output[..dataOffset - 4]) + mask + old(output[dataOffset..])
    {
      output[dataOffset - 4] := mask[0];
      output[dataOffset - 3] := mask[1];
      output[dataOffset - 2] := mask[2];
      output[dataOffset - 1] := mask[3];
      assert output[..] == old(output[..dataOffset - 4]) + mask + old(output[dataOffset..]);
    }
  }
}
