/** The vocabulary of the protocol: message types, error codes, frames, limits. */
module Protocol {
  import opened Bytes

  const VERSION: byte := 1
  const HEADER_SIZE := 19
  const MAC_SIZE := 32
  const MAX_PAYLOAD := 0x10_0000
  const MAX_SEQ: uint32 := 0xFFFF_FFFF
  const KNOWN_FLAGS := 3

  /** b"WIRE" */
  function Magic(): (m: bytes)
    ensures |m| == 4
  {
    [0x57, 0x49, 0x52, 0x45]
  }

  datatype MsgType = Hello | HelloAck | Data | Ack | Ping | Pong | Error | Bye

  datatype ErrorCode =
    | ErrVersion | ErrMagic | ErrLength | ErrCrc | ErrAuth | ErrType
    | ErrState | ErrSeq | ErrFlags | ErrTimeout | ErrInternal

  /** A value, or the code of the `ProtocolError` raised instead of it. */
  datatype Result<+T> = Ok(value: T) | Err(code: ErrorCode) {
    predicate IsFailure() {
      Err?
    }

    function PropagateFailure<U>(): Result<U>
      requires Err?
    {
      Err(code)
    }

    function Extract(): T
      requires Ok?
    {
      value
    }
  }

  datatype Header = Header(msgType: MsgType, flags: byte, seqNo: uint32, length: uint32, crc: uint32)

  /** What a caller may build. Nothing bounds its fields until `Encode` looks at them. */
  datatype Frame = Frame(msgType: MsgType, seqNo: int, payload: bytes, flags: int)

  /** `flags & ~KNOWN_FLAGS` is zero exactly for 0..3: a negative number keeps high bits set. */
  predicate Encodable(f: Frame)
  {
    && |f.payload| <= MAX_PAYLOAD
    && 0 <= f.seqNo <= MAX_SEQ
    && 0 <= f.flags <= KNOWN_FLAGS
  }

  type WireFrame = f: Frame | Encodable(f) witness Frame(Hello, 0, [], 0)

  type Digest = s: bytes | |s| == MAC_SIZE witness seq(MAC_SIZE, _ => 0)
  type Payload = s: bytes | |s| <= MAX_PAYLOAD witness []

  /** What a HELLO payload says about the peer. */
  datatype HelloInfo = HelloInfo(clientId: string, nonce: string)

  /** Library code the protocol calls and this model does not look into: the CRC, the MAC,
      and JSON. `encodeError` builds the payload of an ERROR frame; `decodeAckJson` reads an
      ACK payload that is not in the form `EncodeAck` prints. */
  datatype Library = Library(
    crc32: bytes -> uint32,
    hmac: (bytes, bytes) -> Digest,
    encodeError: ErrorCode -> Payload,
    decodeError: bytes -> Result<ErrorCode>,
    decodeHello: bytes -> Result<HelloInfo>,
    decodeHelloAck: bytes -> Result<string>,
    decodeAckJson: bytes -> Result<int>)
}
