/** The frame codec (`protocol/codec.py`). A key of `None` is observer mode: the MAC is
    carried but not verified. */
module Codec {
  import opened Bytes
  import opened Protocol

  function TypeCode(t: MsgType): (c: byte)
    ensures 1 <= c <= 8
  {
    match t
    case Hello => 1
    case HelloAck => 2
    case Data => 3
    case Ack => 4
    case Ping => 5
    case Pong => 6
    case Error => 7
    case Bye => 8
  }

  function TypeOfCode(c: byte): (t: Option<MsgType>)
    ensures forall m: MsgType :: t == Some(m) <==> TypeCode(m) == c
  {
    if c == 1 then Some(Hello)
    else if c == 2 then Some(HelloAck)
    else if c == 3 then Some(Data)
    else if c == 4 then Some(Ack)
    else if c == 5 then Some(Ping)
    else if c == 6 then Some(Pong)
    else if c == 7 then Some(Error)
    else if c == 8 then Some(Bye)
    else None
  }

  function PackHeader(h: Header): (raw: bytes)
    ensures |raw| == HEADER_SIZE
  {
    Magic() + [VERSION, TypeCode(h.msgType), h.flags] + Big32(h.seqNo) + Big32(h.length) + Big32(h.crc)
  }

  function HeaderOf(lib: Library, f: WireFrame): Header
  {
    Header(f.msgType, f.flags, f.seqNo, |f.payload|, lib.crc32(f.payload))
  }

  function Sign(lib: Library, header: bytes, payload: bytes, key: bytes): Digest
  {
    lib.hmac(key, header + payload)
  }

  /** The bytes of a frame that passed the checks of `Encode`. */
  function Wire(lib: Library, f: WireFrame, key: bytes): (raw: bytes)
    ensures |raw| == HEADER_SIZE + |f.payload| + MAC_SIZE
  {
    var header := PackHeader(HeaderOf(lib, f));
    header + f.payload + Sign(lib, header, f.payload, key)
  }

  function Encode(lib: Library, f: Frame, key: bytes): (r: Result<bytes>)
    ensures r.Ok? <==> Encodable(f)
    ensures r.Err? ==> (r.code == ErrLength <==> |f.payload| > MAX_PAYLOAD)
    ensures r == Err(ErrSeq) ==> !(0 <= f.seqNo <= MAX_SEQ)
    ensures r == Err(ErrFlags) ==> 0 <= f.seqNo <= MAX_SEQ && !(0 <= f.flags <= KNOWN_FLAGS)
  {
    if |f.payload| > MAX_PAYLOAD then Err(ErrLength)
    else if !(0 <= f.seqNo <= MAX_SEQ) then Err(ErrSeq)
    else if !(0 <= f.flags <= KNOWN_FLAGS) then Err(ErrFlags)
    else Ok(Wire(lib, f, key))
  }

  function DecodeHeader(raw: bytes): (r: Result<Header>)
    ensures r.Ok? ==> r.value.length <= MAX_PAYLOAD && r.value.flags <= KNOWN_FLAGS
    ensures r.Err? ==> r.code in {ErrLength, ErrMagic, ErrVersion, ErrFlags, ErrType}
  {
    if |raw| != HEADER_SIZE then Err(ErrLength)
    else if raw[..4] != Magic() then Err(ErrMagic)
    else if raw[4] != VERSION then Err(ErrVersion)
    else if ReadBig32(raw[11..15]) > MAX_PAYLOAD then Err(ErrLength)
    else if raw[6] > KNOWN_FLAGS then Err(ErrFlags)
    else
      match TypeOfCode(raw[5])
      case None => Err(ErrType)
      case Some(t) =>
        Ok(Header(t, raw[6], ReadBig32(raw[7..11]), ReadBig32(raw[11..15]), ReadBig32(raw[15..19])))
  }

  function DecodeFrame(lib: Library, rawHeader: bytes, payload: bytes, mac: bytes, key: Option<bytes>)
    : (r: Result<WireFrame>)
  {
    var header :- DecodeHeader(rawHeader);
    if |payload| != header.length then Err(ErrLength)
    else if |mac| != MAC_SIZE then Err(ErrAuth)
    else if lib.crc32(payload) != header.crc then Err(ErrCrc)
    else if key.Some? && Sign(lib, rawHeader, payload, key.value) != mac then Err(ErrAuth)
    else Ok(Frame(header.msgType, header.seqNo, payload, header.flags))
  }

  /** One complete frame from one buffer: datagram mode. */
  function Decode(lib: Library, raw: bytes, key: Option<bytes>): Result<WireFrame>
  {
    if |raw| < HEADER_SIZE + MAC_SIZE then Err(ErrLength)
    else DecodeFrame(lib, raw[..HEADER_SIZE], raw[HEADER_SIZE..|raw| - MAC_SIZE], raw[|raw| - MAC_SIZE..], key)
  }

  // ---- the header ----

  /** The parts of a concatenation, by their offsets. */
  lemma FiveParts(a: bytes, b: bytes, c: bytes, d: bytes, e: bytes)
    requires |a| == 4 && |b| == 3 && |c| == |d| == |e| == 4
    ensures var s := a + b + c + d + e;
            && |s| == 19 && s[..4] == a && s[4] == b[0] && s[5] == b[1] && s[6] == b[2]
            && s[7..11] == c && s[11..15] == d && s[15..19] == e
  {
    var s := a + b + c + d + e;
    assert s[7..11] == c;
    assert s[11..15] == d;
    assert s[15..19] == e;
  }

  lemma PackedFields(h: Header)
    ensures var raw := PackHeader(h);
            && raw[..4] == Magic() && raw[4] == VERSION && raw[5] == TypeCode(h.msgType) && raw[6] == h.flags
            && ReadBig32(raw[7..11]) == h.seqNo && ReadBig32(raw[11..15]) == h.length && ReadBig32(raw[15..19]) == h.crc
  {
    FiveParts(Magic(), [VERSION, TypeCode(h.msgType), h.flags], Big32(h.seqNo), Big32(h.length), Big32(h.crc));
    Big32RoundTrip(h.seqNo);
    Big32RoundTrip(h.length);
    Big32RoundTrip(h.crc);
  }

  lemma HeaderRoundTrip(h: Header)
    requires h.length <= MAX_PAYLOAD && h.flags <= KNOWN_FLAGS
    ensures DecodeHeader(PackHeader(h)) == Ok(h)
  {
    PackedFields(h);
  }

  lemma HeaderInverse(raw: bytes)
    requires DecodeHeader(raw).Ok?
    ensures PackHeader(DecodeHeader(raw).value) == raw
  {
    Big32Inverse(raw[7..11]);
    Big32Inverse(raw[11..15]);
    Big32Inverse(raw[15..19]);
    assert raw == raw[..4] + [raw[4], raw[5], raw[6]] + raw[7..11] + raw[11..15] + raw[15..19];
  }

  // ---- whole frames ----

  /** The three parts a reader collects, put back together by `DecodeFrame`, are accepted with
      a key exactly when they are the bytes of the frame it returns. */
  lemma PartsIff(lib: Library, rawHeader: bytes, payload: bytes, mac: bytes, key: bytes, f: WireFrame)
    requires |rawHeader| == HEADER_SIZE && |mac| == MAC_SIZE
    ensures DecodeFrame(lib, rawHeader, payload, mac, Some(key)) == Ok(f)
       <==> rawHeader + payload + mac == Wire(lib, f, key)
  {
    var raw := rawHeader + payload + mac;
    if DecodeFrame(lib, rawHeader, payload, mac, Some(key)) == Ok(f) {
      HeaderInverse(rawHeader);
    }
    if raw == Wire(lib, f, key) {
      var h := PackHeader(HeaderOf(lib, f));
      assert |raw| == |Wire(lib, f, key)|;
      assert rawHeader == raw[..HEADER_SIZE] == h;
      assert payload == raw[HEADER_SIZE..|raw| - MAC_SIZE] == f.payload;
      assert mac == raw[|raw| - MAC_SIZE..] == Sign(lib, h, f.payload, key);
      HeaderRoundTrip(HeaderOf(lib, f));
    }
  }

  lemma WireParts(lib: Library, f: WireFrame, key: bytes)
    ensures var raw, n := Wire(lib, f, key), HEADER_SIZE + |f.payload|;
            && raw[..HEADER_SIZE] == PackHeader(HeaderOf(lib, f))
            && raw[HEADER_SIZE..n] == f.payload
            && raw[n..] == Sign(lib, PackHeader(HeaderOf(lib, f)), f.payload, key)
  {
  }

  /** The layout of an encoded frame, field by field: magic, version, type, flags, the big-endian
      number, length and CRC of the payload, the payload, and the MAC of everything before it. */
  lemma EncodeLayout(lib: Library, f: Frame, key: bytes)
    requires Encode(lib, f, key).Ok?
    ensures var raw, n := Encode(lib, f, key).value, 19 + |f.payload|;
            && |raw| == n + 32
            && raw[..4] == Ascii("WIRE") && raw[4] == 1 && TypeAt(raw[5]) == Some(f.msgType) && raw[6] == f.flags
            && BigEndian(raw[7..11]) == f.seqNo && BigEndian(raw[11..15]) == |f.payload|
            && BigEndian(raw[15..19]) == lib.crc32(f.payload)
            && raw[19..n] == f.payload
            && raw[n..] == lib.hmac(key, raw[..n])
  {
    var raw, n := Encode(lib, f, key).value, HEADER_SIZE + |f.payload|;
    var header := PackHeader(HeaderOf(lib, f));
    WireParts(lib, f, key);
    PackedFields(HeaderOf(lib, f));
    TypeTable(raw[5]);
    assert raw[..4] == header[..4] && raw[4] == header[4] && raw[5] == header[5] && raw[6] == header[6];
    assert raw[7..11] == header[7..11] && raw[11..15] == header[11..15] && raw[15..19] == header[15..19];
    assert raw[..n] == header + f.payload;
    BigEndianFour(raw[7..11]);
    BigEndianFour(raw[11..15]);
    BigEndianFour(raw[15..19]);
    MagicIsWire();
  }

  lemma MagicIsWire()
    ensures Magic() == Ascii("WIRE")
  {
  }

  /** The table of message types of section 3 of the protocol. */
  function TypeAt(c: byte): Option<MsgType>
  {
    var types := [Hello, HelloAck, Data, Ack, Ping, Pong, Error, Bye];
    if 1 <= c <= 8 then Some(types[c - 1]) else None
  }

  lemma TypeTable(c: byte)
    ensures TypeOfCode(c) == TypeAt(c)
  {
  }

  /** What is wrong with 19 bytes, taken as a header: the first fault in this order decides. */
  function HeaderFault(raw: bytes): Option<ErrorCode>
    requires |raw| == 19
  {
    if raw[..4] != Ascii("WIRE") then Some(ErrMagic)
    else if raw[4] != 1 then Some(ErrVersion)
    else if BigEndian(raw[11..15]) > 0x10_0000 then Some(ErrLength)
    else if raw[6] >= 4 then Some(ErrFlags)
    else if raw[5] == 0 || raw[5] > 8 then Some(ErrType)
    else None
  }

  /** A header with several faults is refused for the first of them: magic, version, length,
      flags, type. One without is read field by field. */
  lemma HeaderPrecedence(raw: bytes)
    requires |raw| == 19
    ensures HeaderFault(raw).Some? ==> DecodeHeader(raw) == Err(HeaderFault(raw).value)
    ensures HeaderFault(raw).None? ==>
              && DecodeHeader(raw).Ok?
              && var h := DecodeHeader(raw).value;
                 && TypeAt(raw[5]) == Some(h.msgType) && h.flags == raw[6] && h.seqNo == BigEndian(raw[7..11])
                 && h.length == BigEndian(raw[11..15]) && h.crc == BigEndian(raw[15..19])
  {
    MagicIsWire();
    TypeTable(raw[5]);
    BigEndianFour(raw[7..11]);
    BigEndianFour(raw[11..15]);
    BigEndianFour(raw[15..19]);
  }

  /** What is wrong with a datagram: too short, a header fault, a body of another length than
      declared, the CRC, and only then the MAC. */
  function DatagramFault(lib: Library, raw: bytes, key: Option<bytes>): Option<ErrorCode>
  {
    if |raw| < 51 then Some(ErrLength)
    else if HeaderFault(raw[..19]).Some? then HeaderFault(raw[..19])
    else
      var n := |raw| - 32;
      if n - 19 != BigEndian(raw[11..15]) then Some(ErrLength)
      else if lib.crc32(raw[19..n]) != BigEndian(raw[15..19]) then Some(ErrCrc)
      else if key.Some? && lib.hmac(key.value, raw[..n]) != raw[n..] then Some(ErrAuth)
      else None
  }

  lemma DatagramPrecedence(lib: Library, raw: bytes, key: Option<bytes>)
    ensures var fault := DatagramFault(lib, raw, key);
            if fault.Some? then Decode(lib, raw, key) == Err(fault.value) else Decode(lib, raw, key).Ok?
  {
    if |raw| >= 51 {
      var n := |raw| - 32;
      HeaderPrecedence(raw[..19]);
      assert raw[..19][11..15] == raw[11..15] && raw[..19][15..19] == raw[15..19];
      assert raw[..n] == raw[..19] + raw[19..n];
    }
  }

  /** Accepted byte strings and encodable frames correspond one to one. */
  lemma DecodeIffEncode(lib: Library, raw: bytes, f: Frame, key: bytes)
    ensures (Encodable(f) && Decode(lib, raw, Some(key)) == Ok(f)) <==> Encode(lib, f, key) == Ok(raw)
  {
    if |raw| >= HEADER_SIZE + MAC_SIZE && Encodable(f) {
      var header, payload, mac :=
        raw[..HEADER_SIZE], raw[HEADER_SIZE..|raw| - MAC_SIZE], raw[|raw| - MAC_SIZE..];
      assert raw == header + payload + mac;
      PartsIff(lib, header, payload, mac, key, f);
    }
  }

  /** An observer reads every encoding too, without the key. */
  lemma ObserverReadsEncoding(lib: Library, f: WireFrame, key: bytes)
    ensures Decode(lib, Wire(lib, f, key), None) == Ok(f)
  {
    DecodeIffEncode(lib, Wire(lib, f, key), f, key);
  }

  // ---- damage ----

  /** A changed byte changes the number it belongs to. */
  lemma ChangedWord(s: bytes, t: bytes, i: nat)
    requires |s| == |t| == 4 && i < 4 && s[i] != t[i]
    ensures ReadBig32(s) != ReadBig32(t)
  {
    Big32Inverse(s);
    Big32Inverse(t);
  }

  lemma DamagedHeader(h: Header, i: nat, b: byte)
    requires h.length <= MAX_PAYLOAD && h.flags <= KNOWN_FLAGS
    requires i < HEADER_SIZE && b != PackHeader(h)[i]
    ensures var r := DecodeHeader(PackHeader(h)[i := b]);
            && (i < 4 ==> r == Err(ErrMagic))
            && (i == 4 ==> r == Err(ErrVersion))
            && (i == 5 && TypeOfCode(b).None? ==> r == Err(ErrType))
            && (i == 6 && b > KNOWN_FLAGS ==> r == Err(ErrFlags))
            && (11 <= i < 15 ==> r == Err(ErrLength) || (r.Ok? && r.value.length != h.length))
            && (15 <= i ==> r == Ok(h.(crc := r.value.crc)) && r.value.crc != h.crc)
  {
    var raw := PackHeader(h);
    var damaged := raw[i := b];
    PackedFields(h);
    if i < 4 {
      assert damaged[..4][i] != Magic()[i];
    } else {
      assert damaged[..4] == raw[..4];
    }
    if 11 <= i < 15 {
      ChangedWord(damaged[11..15], raw[11..15], i - 11);
    } else {
      assert damaged[11..15] == raw[11..15];
    }
    if 15 <= i {
      ChangedWord(damaged[15..19], raw[15..19], i - 15);
      assert damaged[7..11] == raw[7..11];
    }
  }

  /** One byte changed anywhere in a datagram, and the code the receiver gives it. A changed
      type or flag that is still known, a changed number, and a changed payload whose CRC
      collides are left to the MAC. */
  lemma DamagedDatagram(lib: Library, f: WireFrame, key: bytes, i: nat, b: byte)
    requires i < |Wire(lib, f, key)| && b != Wire(lib, f, key)[i]
    ensures var n := HEADER_SIZE + |f.payload|;
            var r := Decode(lib, Wire(lib, f, key)[i := b], Some(key));
            && (i < 4 ==> r == Err(ErrMagic))
            && (i == 4 ==> r == Err(ErrVersion))
            && (i == 5 && TypeOfCode(b).None? ==> r == Err(ErrType))
            && (i == 6 && b > KNOWN_FLAGS ==> r == Err(ErrFlags))
            && (11 <= i < 15 ==> r == Err(ErrLength))
            && (15 <= i < HEADER_SIZE ==> r == Err(ErrCrc))
            && (HEADER_SIZE <= i < n && lib.crc32(f.payload[i - HEADER_SIZE := b]) != lib.crc32(f.payload) ==> r == Err(ErrCrc))
            && (n <= i ==> r == Err(ErrAuth))
  {
    var raw := Wire(lib, f, key);
    var damaged, n := raw[i := b], HEADER_SIZE + |f.payload|;
    var h := PackHeader(HeaderOf(lib, f));
    WireParts(lib, f, key);
    HeaderRoundTrip(HeaderOf(lib, f));
    assert |raw| - MAC_SIZE == n;
    if i < HEADER_SIZE {
      assert damaged[..HEADER_SIZE] == h[i := b];
      assert damaged[HEADER_SIZE..n] == f.payload;
      DamagedHeader(HeaderOf(lib, f), i, b);
    } else {
      assert damaged[..HEADER_SIZE] == h;
      if i < n {
        assert damaged[HEADER_SIZE..n] == f.payload[i - HEADER_SIZE := b];
      } else {
        assert damaged[HEADER_SIZE..n] == f.payload;
        assert damaged[n..][i - n] != raw[n..][i - n];
      }
    }
  }
}
