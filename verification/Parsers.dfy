/** The other readers of the frame format, and their agreement with `FrameBuffer`:
    `read_frame` on a stream, `split_datagram` on a datagram, `try_parse_wireline` on a
    captured payload. */
module Parsers {
  import opened Bytes
  import opened Protocol
  import opened Codec
  import opened Framing

  // ---- a stream that stops ----

  /** Why a read ends without its bytes: the caller's timeout, the peer's close, a reset. */
  datatype Ending = TimedOut | Eof | Lost

  /** What reaches a reader, in order. A list that runs out is the end of the stream. */
  datatype Arrival = Chunk(data: bytes) | Stop(why: Ending)

  /** The bytes that arrive before the stream first stops, in whatever chunks. */
  function BytesOf(arrivals: seq<Arrival>): bytes
  {
    if arrivals == [] || arrivals[0].Stop? then [] else arrivals[0].data + BytesOf(arrivals[1..])
  }

  function EndingOf(arrivals: seq<Arrival>): Ending
  {
    if arrivals == [] then Eof
    else if arrivals[0].Stop? then arrivals[0].why
    else EndingOf(arrivals[1..])
  }

  datatype ReadResult = Got(data: bytes) | Short(why: Ending)

  class Reader {
    var buf: bytes
    var arrivals: seq<Arrival>

    constructor (arrivals: seq<Arrival>)
      ensures Pending() == BytesOf(arrivals) && End() == EndingOf(arrivals)
    {
      this.arrivals := arrivals;
      buf := [];
    }

    ghost function Pending(): bytes
      reads this
    {
      buf + BytesOf(arrivals)
    }

    ghost function End(): Ending
      reads this
    {
      EndingOf(arrivals)
    }

    /** Returns n bytes or fails: where the chunk boundaries lie cannot be seen from outside. */
    method ReadExactly(n: nat) returns (r: ReadResult)
      modifies this
      ensures n <= |old(Pending())| ==>
                r == Got(old(Pending())[..n]) && Pending() == old(Pending())[n..] && End() == old(End())
      ensures n > |old(Pending())| ==> r == Short(old(End()))
    {
      while |buf| < n
        invariant Pending() == old(Pending()) && End() == old(End())
        decreases |arrivals|
      {
        if arrivals == [] {
          return Short(Eof);
        }
        if arrivals[0].Stop? {
          return Short(arrivals[0].why);
        }
        buf, arrivals := buf + arrivals[0].data, arrivals[1..];
      }
      r := Got(buf[..n]);
      buf := buf[n..];
    }
  }

  // ---- read_frame ----

  datatype ReadOutcome = Read(frame: WireFrame) | Broken(code: ErrorCode) | Ended(why: Ending)

  /** What reading one frame from a stream gives, and what is left of the stream. */
  function ReadOf(lib: Library, stream: bytes, end: Ending, key: bytes): (ReadOutcome, bytes)
  {
    if |stream| < HEADER_SIZE then (Ended(end), [])
    else
      match DecodeHeader(stream[..HEADER_SIZE])
      case Err(c) => (Broken(c), stream[HEADER_SIZE..])
      case Ok(h) =>
        if |stream| < Total(h) then (Ended(end), [])
        else
          match DecodeFrame(lib, stream[..HEADER_SIZE], stream[HEADER_SIZE..HEADER_SIZE + h.length],
                            stream[HEADER_SIZE + h.length..Total(h)], Some(key))
          case Ok(f) => (Read(f), stream[Total(h)..])
          case Err(c) => (Broken(c), stream[Total(h)..])
  }

  method ReadFrame(reader: Reader, lib: Library, key: bytes) returns (r: ReadOutcome)
    modifies reader
    ensures var (outcome, rest) := ReadOf(lib, old(reader.Pending()), old(reader.End()), key);
            && r == outcome
            && (!r.Ended? ==> reader.Pending() == rest && reader.End() == old(reader.End()))
  {
    ghost var stream := reader.Pending();
    var rawHeader := reader.ReadExactly(HEADER_SIZE);
    if rawHeader.Short? {
      return Ended(rawHeader.why);
    }
    var header := DecodeHeader(rawHeader.data);
    if header.Err? {
      return Broken(header.code);
    }
    var length := header.value.length;
    var payload := Got([]);
    if length != 0 {
      payload := reader.ReadExactly(length);
      if payload.Short? {
        return Ended(payload.why);
      }
    }
    assert payload.data == stream[HEADER_SIZE..HEADER_SIZE + length];
    assert reader.Pending() == stream[HEADER_SIZE + length..];
    var mac := reader.ReadExactly(MAC_SIZE);
    if mac.Short? {
      return Ended(mac.why);
    }
    assert mac.data == stream[HEADER_SIZE + length..Total(header.value)];
    assert reader.Pending() == stream[Total(header.value)..];
    match DecodeFrame(lib, rawHeader.data, payload.data, mac.data, Some(key))
    case Ok(f) => r := Read(f);
    case Err(c) => r := Broken(c);
  }

  /** `read_frame` and `pop` agree on every stream: the same frame and the same remaining
      bytes, the same error, and "need more" exactly where the stream ends. The one difference
      is that a refused header is consumed from the stream and kept in the buffer. */
  lemma ReadFrameAgreesWithPop(lib: Library, stream: bytes, end: Ending, key: bytes)
    ensures ReadOf(lib, stream, end, key) ==
            match PopOf(lib, stream, Some(key))
            case NeedMore => (Ended(end), [])
            case Popped(f, rest) => (Read(f), rest)
            case Refused(c) => (Broken(c), stream[HEADER_SIZE..])
            case Spoiled(c, rest) => (Broken(c), rest)
  {
  }

  // ---- split_datagram ----

  function SplitOf(lib: Library, data: bytes, key: bytes): Result<seq<WireFrame>>
  {
    var p := Parse(lib, data, Some(key));
    if p.error.Some? then Err(p.error.value)
    else if p.rest != [] then Err(ErrLength)
    else Ok(p.frames)
  }

  method SplitDatagram(lib: Library, data: bytes, key: bytes) returns (r: Result<seq<WireFrame>>)
    ensures r == SplitOf(lib, data, key)
  {
    var buffer := new FrameBuffer(lib, Some(key));
    buffer.Feed(data);
    assert [] + data == data;
    var frames, error := buffer.Drain();
    if error.Some? {
      return Err(error.value);
    }
    if |buffer.buf| != 0 {
      return Err(ErrLength);
    }
    r := Ok(frames);
  }

  /** A datagram splits into a list of frames exactly when it is their encoding. */
  lemma SplitIffWireAll(lib: Library, data: bytes, frames: seq<WireFrame>, key: bytes)
    ensures SplitOf(lib, data, key) == Ok(frames) <==> data == WireAll(lib, frames, key)
  {
    var tail := ParseConserves(lib, data, key);
    assert tail == [] ==> WireAll(lib, Parse(lib, data, Some(key)).frames, key) + tail == WireAll(lib, Parse(lib, data, Some(key)).frames, key);
    if data == WireAll(lib, frames, key) {
      assert data + [] == data;
      ParseWireAll(lib, frames, [], key);
      assert Parse(lib, [], Some(key)) == Parsed([], [], None);
      assert frames + [] == frames;
    }
  }

  /** The server's `decode` and the client's `split_datagram` accept the same one-frame
      datagrams, with the same frame. */
  lemma DecodeIffSplit(lib: Library, data: bytes, f: WireFrame, key: bytes)
    ensures Decode(lib, data, Some(key)) == Ok(f) <==> SplitOf(lib, data, key) == Ok([f])
  {
    DecodeIffEncode(lib, data, f, key);
    SplitIffWireAll(lib, data, [f], key);
    WireAllOne(lib, f, key);
  }

  // ---- try_parse_wireline ----

  datatype Info = Info(msgType: MsgType, seqNo: uint32, length: nat, flags: byte)

  function InfoOf(f: WireFrame): Info
  {
    Info(f.msgType, f.seqNo, |f.payload|, f.flags)
  }

  function InfosOf(frames: seq<WireFrame>): (r: seq<Info>)
    ensures |r| == |frames|
  {
    seq(|frames|, i requires 0 <= i < |frames| => InfoOf(frames[i]))
  }

  /** The headers found one after the other, for as long as each body is complete. */
  function ScanOf(data: bytes): seq<Info>
    decreases |data|
  {
    if |data| < HEADER_SIZE then []
    else
      match DecodeHeader(data[..HEADER_SIZE])
      case Err(_) => []
      case Ok(h) =>
        if Total(h) > |data| then []
        else [Info(h.msgType, h.seqNo, h.length, h.flags)] + ScanOf(data[Total(h)..])
  }

  /** One turn of the scan, in offsets: the frame found there and where it ends, unless its header
      is refused or its body incomplete. */
  function FrameAt(data: bytes, offset: nat): (r: Option<(Info, nat)>)
    requires offset + HEADER_SIZE <= |data|
    ensures r.Some? ==> offset < r.value.1 <= |data|
  {
    match DecodeHeader(data[offset..offset + HEADER_SIZE])
    case Err(_) => None
    case Ok(h) =>
      if offset + Total(h) > |data| then None
      else Some((Info(h.msgType, h.seqNo, h.length, h.flags), offset + Total(h)))
  }

  lemma ScanAt(data: bytes, offset: nat, found: seq<Info>)
    requires offset + HEADER_SIZE <= |data|
    ensures found + ScanOf(data[offset..]) ==
            match FrameAt(data, offset)
            case None => found
            case Some((info, end)) => (found + [info]) + ScanOf(data[end..])
  {
    var rest := data[offset..];
    assert rest[..HEADER_SIZE] == data[offset..offset + HEADER_SIZE];
    var header := DecodeHeader(rest[..HEADER_SIZE]);
    if header.Ok? && offset + Total(header.value) <= |data| {
      assert rest[Total(header.value)..] == data[offset + Total(header.value)..];
    }
  }

  lemma ScanEnds(data: bytes, offset: nat, found: seq<Info>)
    requires offset <= |data| < offset + HEADER_SIZE
    ensures found + ScanOf(data[offset..]) == found
  {
  }

  method TryParseWireline(data: bytes) returns (found: seq<Info>)
    ensures found == ScanOf(data)
  {
    found := [];
    var offset := 0;
    while offset + HEADER_SIZE <= |data|
      invariant 0 <= offset <= |data|
      invariant ScanOf(data) == found + ScanOf(data[offset..])
      decreases |data| - offset
    {
      ScanAt(data, offset, found);
      var next := FrameAt(data, offset);
      if next.None? {
        return;
      }
      found, offset := found + [next.value.0], next.value.1;
    }
    ScanEnds(data, offset, found);
  }

  /** Without a key the only error a complete frame can raise is a CRC mismatch, and a header
      never raises that one. */
  lemma ObserverErrors(lib: Library, buf: bytes)
    ensures PopOf(lib, buf, None).Spoiled? ==> PopOf(lib, buf, None).code == ErrCrc
    ensures PopOf(lib, buf, None).Refused? ==> PopOf(lib, buf, None).code != ErrCrc
  {
  }

  lemma InfosOfCons(f: WireFrame, frames: seq<WireFrame>)
    ensures InfosOf([f] + frames) == [InfoOf(f)] + InfosOf(frames)
  {
  }

  lemma ConsPrefix(i: Info, a: seq<Info>, b: seq<Info>)
    requires a <= b
    ensures [i] + a <= [i] + b
    ensures [i] + a == [i] + b <==> a == b
  {
    assert ([i] + a)[1..] == a && ([i] + b)[1..] == b;
  }

  /** The payload scan reports at least the frames an observer's buffer emits, in the same
      order, and reports more exactly when a frame failed its CRC. */
  lemma {:induction false} ScanAgreesWithDrain(lib: Library, data: bytes)
    ensures var p := Parse(lib, data, None);
            && InfosOf(p.frames) <= ScanOf(data)
            && (InfosOf(p.frames) == ScanOf(data) <==> p.error != Some(ErrCrc))
    decreases |data|
  {
    ObserverErrors(lib, data);
    match PopOf(lib, data, None)
    case Popped(f, rest) =>
      ScanAgreesWithDrain(lib, rest);
      var p := Parse(lib, rest, None);
      InfosOfCons(f, p.frames);
      ConsPrefix(InfoOf(f), InfosOf(p.frames), ScanOf(rest));
    case _ =>
  }

  lemma ScanCons(lib: Library, f: WireFrame, rest: bytes, key: bytes)
    ensures ScanOf(Wire(lib, f, key) + rest) == [InfoOf(f)] + ScanOf(rest)
  {
    var data, h := Wire(lib, f, key) + rest, HeaderOf(lib, f);
    assert data[..HEADER_SIZE] == PackHeader(h);
    HeaderRoundTrip(h);
    assert data[Total(h)..] == rest;
  }

  lemma WireAllThen(lib: Library, frames: seq<WireFrame>, tail: bytes, key: bytes)
    requires frames != []
    ensures WireAll(lib, frames, key) + tail == Wire(lib, frames[0], key) + (WireAll(lib, frames[1..], key) + tail)
  {
  }

  lemma InfosThen(f: WireFrame, frames: seq<WireFrame>, later: seq<Info>)
    ensures InfosOf([f] + frames) + later == [InfoOf(f)] + (InfosOf(frames) + later)
  {
    InfosOfCons(f, frames);
  }

  /** The scan goes through encoded frames one by one and on into what follows them. */
  lemma {:induction false} ScanWireAll(lib: Library, frames: seq<WireFrame>, tail: bytes, key: bytes)
    ensures ScanOf(WireAll(lib, frames, key) + tail) == InfosOf(frames) + ScanOf(tail)
  {
    if frames == [] {
      assert [] + tail == tail;
    } else {
      var f, rest := frames[0], frames[1..];
      WireAllThen(lib, frames, tail, key);
      ScanCons(lib, f, WireAll(lib, rest, key) + tail, key);
      ScanWireAll(lib, rest, tail, key);
      InfosThen(f, rest, ScanOf(tail));
      assert frames == [f] + rest;
    }
  }

  /** Foreign bytes are not skipped: the scan reports the frames in front of them and nothing
      behind them, whatever that is. */
  lemma ScanStopsAtForeignBytes(lib: Library, frames: seq<WireFrame>, junk: bytes, later: bytes, key: bytes)
    requires |junk| >= HEADER_SIZE && DecodeHeader(junk[..HEADER_SIZE]).Err?
    ensures ScanOf(WireAll(lib, frames, key) + (junk + later)) == InfosOf(frames)
  {
    ScanWireAll(lib, frames, junk + later, key);
    assert (junk + later)[..HEADER_SIZE] == junk[..HEADER_SIZE];
    assert InfosOf(frames) + [] == InfosOf(frames);
  }

  /** Why a datagram is refused: behind its whole frames there is something else, and it is either
      too short to tell, which is ERR_LENGTH, or refused for what it is. */
  lemma SplitFails(lib: Library, frames: seq<WireFrame>, tail: bytes, key: bytes)
    requires tail != [] && !PopOf(lib, tail, Some(key)).Popped?
    ensures var r := PopOf(lib, tail, Some(key));
            SplitOf(lib, WireAll(lib, frames, key) + tail, key) == Err(if r.NeedMore? then ErrLength else r.code)
  {
    ParseWireAll(lib, frames, tail, key);
  }
}
