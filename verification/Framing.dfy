/** The incremental parser over a byte stream (`transport/framing.py`). */
module Framing {
  import opened Bytes
  import opened Protocol
  import opened Codec

  /** One `pop`. A header that is refused leaves the buffer as it was; a frame whose body or
      MAC is refused has already been cut from it. */
  datatype PopResult =
    | NeedMore
    | Popped(frame: WireFrame, rest: bytes)
    | Refused(code: ErrorCode)
    | Spoiled(code: ErrorCode, rest: bytes)

  function Total(h: Header): nat
  {
    HEADER_SIZE + h.length + MAC_SIZE
  }

  function PopOf(lib: Library, buf: bytes, key: Option<bytes>): (r: PopResult)
    ensures r.Popped? ==> |r.rest| + HEADER_SIZE + |r.frame.payload| + MAC_SIZE == |buf|
    ensures r.Spoiled? ==> |r.rest| < |buf|
  {
    if |buf| < HEADER_SIZE then NeedMore
    else
      match DecodeHeader(buf[..HEADER_SIZE])
      case Err(c) => Refused(c)
      case Ok(h) =>
        if |buf| < Total(h) then NeedMore
        else
          match DecodeFrame(lib, buf[..HEADER_SIZE], buf[HEADER_SIZE..HEADER_SIZE + h.length],
                            buf[HEADER_SIZE + h.length..Total(h)], key)
          case Ok(f) => Popped(f, buf[Total(h)..])
          case Err(c) => Spoiled(c, buf[Total(h)..])
  }

  /** What draining a buffer yields: the frames, the bytes kept, and the first error. */
  datatype Parsed = Parsed(frames: seq<WireFrame>, rest: bytes, error: Option<ErrorCode>)

  function Prepend(frames: seq<WireFrame>, p: Parsed): Parsed
  {
    p.(frames := frames + p.frames)
  }

  lemma PrependNone(p: Parsed)
    ensures Prepend([], p) == p && Prepend(p.frames, p.(frames := [])) == p
  {
    assert [] + p.frames == p.frames == p.frames + [];
  }

  lemma PrependTwice(a: seq<WireFrame>, b: seq<WireFrame>, p: Parsed)
    ensures Prepend(a, Prepend(b, p)) == Prepend(a + b, p)
  {
    assert a + (b + p.frames) == (a + b) + p.frames;
  }

  /** The one-shot parse of a whole stream. */
  function Parse(lib: Library, buf: bytes, key: Option<bytes>): Parsed
    decreases |buf|
  {
    match PopOf(lib, buf, key)
    case NeedMore => Parsed([], buf, None)
    case Popped(f, rest) => Prepend([f], Parse(lib, rest, key))
    case Refused(c) => Parsed([], buf, Some(c))
    case Spoiled(c, rest) => Parsed([], rest, Some(c))
  }

  class FrameBuffer {
    const lib: Library
    const key: Option<bytes>
    var buf: bytes

    constructor (lib: Library, key: Option<bytes>)
      ensures this.lib == lib && this.key == key && buf == []
    {
      this.lib, this.key := lib, key;
      buf := [];
    }

    method Feed(chunk: bytes)
      modifies this
      ensures buf == old(buf) + chunk
    {
      buf := buf + chunk;
    }

    /** None stands for "more bytes are needed". */
    method Pop() returns (r: Result<Option<WireFrame>>)
      modifies this
      ensures match PopOf(lib, old(buf), key)
              case NeedMore => r == Ok(None) && buf == old(buf)
              case Popped(f, rest) => r == Ok(Some(f)) && buf == rest
              case Refused(c) => r == Err(c) && buf == old(buf)
              case Spoiled(c, rest) => r == Err(c) && buf == rest
    {
      if |buf| < HEADER_SIZE {
        return Ok(None);
      }
      var rawHeader := buf[..HEADER_SIZE];
      var header := DecodeHeader(rawHeader);
      if header.Err? {
        return Err(header.code);
      }
      var length := header.value.length;
      var total := HEADER_SIZE + length + MAC_SIZE;
      if |buf| < total {
        return Ok(None);
      }
      var payload := buf[HEADER_SIZE..HEADER_SIZE + length];
      var mac := buf[HEADER_SIZE + length..total];
      buf := buf[total..];
      match DecodeFrame(lib, rawHeader, payload, mac, key)
      case Ok(f) => r := Ok(Some(f));
      case Err(c) => r := Err(c);
    }

    /** The generator run to its end: the frames it yields before it stops or raises. */
    method Drain() returns (frames: seq<WireFrame>, error: Option<ErrorCode>)
      modifies this
      ensures Parsed(frames, buf, error) == Parse(lib, old(buf), key)
    {
      frames, error := [], None;
      PrependNone(Parse(lib, buf, key));
      while true
        invariant Parse(lib, old(buf), key) == Prepend(frames, Parse(lib, buf, key))
        decreases |buf|
      {
        ghost var before := buf;
        var r := Pop();
        PrependNone(Parsed(frames, buf, None));
        if r.Err? {
          error := Some(r.code);
          return;
        }
        if r.value.None? {
          return;
        }
        assert Parse(lib, before, key) == Prepend([r.value.value], Parse(lib, buf, key));
        PrependTwice(frames, [r.value.value], Parse(lib, buf, key));
        frames := frames + [r.value.value];
      }
    }
  }

  // ---- chunking ----

  /** A pop that does not ask for more is not changed by bytes that arrive later. */
  lemma PopIsStable(lib: Library, buf: bytes, more: bytes, key: Option<bytes>)
    ensures match PopOf(lib, buf, key)
            case NeedMore => true
            case Popped(f, rest) => PopOf(lib, buf + more, key) == Popped(f, rest + more)
            case Refused(c) => PopOf(lib, buf + more, key) == Refused(c)
            case Spoiled(c, rest) => PopOf(lib, buf + more, key) == Spoiled(c, rest + more)
  {
    if |buf| >= HEADER_SIZE {
      assert (buf + more)[..HEADER_SIZE] == buf[..HEADER_SIZE];
      var header := DecodeHeader(buf[..HEADER_SIZE]);
      if header.Ok? && |buf| >= Total(header.value) {
        var h := header.value;
        var n := HEADER_SIZE + h.length;
        assert (buf + more)[HEADER_SIZE..n] == buf[HEADER_SIZE..n];
        assert (buf + more)[n..Total(h)] == buf[n..Total(h)];
        assert (buf + more)[Total(h)..] == buf[Total(h)..] + more;
      }
    }
  }

  /** A stream parsed in two parts: the second part starts from what the first one kept. */
  lemma {:induction false} ParseSplits(lib: Library, buf: bytes, more: bytes, key: Option<bytes>)
    ensures var p := Parse(lib, buf, key);
            Parse(lib, buf + more, key) ==
              if p.error.Some? then p.(rest := p.rest + more)
              else Prepend(p.frames, Parse(lib, p.rest + more, key))
    decreases |buf|
  {
    PopIsStable(lib, buf, more, key);
    match PopOf(lib, buf, key)
    case Popped(f, rest) =>
      ParseSplits(lib, rest, more, key);
      var p := Parse(lib, rest, key);
      assert Parse(lib, buf + more, key) == Prepend([f], Parse(lib, rest + more, key));
      if p.error.None? {
        PrependTwice([f], p.frames, Parse(lib, p.rest + more, key));
      }
    case NeedMore => PrependNone(Parse(lib, buf + more, key));
    case _ =>
  }

  /** Feed and drain chunk by chunk, stopping at the first error. The chunks not yet fed by
      then are returned. */
  function Stream(lib: Library, buf: bytes, chunks: seq<bytes>, key: Option<bytes>): (Parsed, seq<bytes>)
    decreases |chunks|
  {
    if chunks == [] then (Parsed([], buf, None), [])
    else
      var p := Parse(lib, buf + chunks[0], key);
      if p.error.Some? then (p, chunks[1..])
      else
        var (later, unread) := Stream(lib, p.rest, chunks[1..], key);
        (Prepend(p.frames, later), unread)
  }

  /** A buffer `drain` has already emptied of complete frames. */
  predicate Drained(lib: Library, buf: bytes, key: Option<bytes>)
  {
    PopOf(lib, buf, key).NeedMore?
  }

  /** However a stream is cut, the frames, the first error, and the bytes left over (kept in
      the buffer or not fed yet) are those of the one-shot parse. */
  lemma {:induction false} ChunkingIndependence(lib: Library, buf: bytes, chunks: seq<bytes>, key: Option<bytes>)
    requires Drained(lib, buf, key)
    ensures var (p, unread) := Stream(lib, buf, chunks, key);
            var whole := Parse(lib, buf + Concat(chunks), key);
            && p.frames == whole.frames
            && p.error == whole.error
            && p.rest + Concat(unread) == whole.rest
            && (p.error.None? ==> unread == [])
    decreases |chunks|
  {
    if chunks == [] {
      assert buf + [] == buf;
    } else {
      var first := Parse(lib, buf + chunks[0], key);
      assert buf + Concat(chunks) == (buf + chunks[0]) + Concat(chunks[1..]);
      ParseSplits(lib, buf + chunks[0], Concat(chunks[1..]), key);
      if first.error.None? {
        ParseKeepsPartial(lib, buf + chunks[0], key);
        ChunkingIndependence(lib, first.rest, chunks[1..], key);
      }
    }
  }

  // ---- what is kept in the buffer ----

  /** After a drain without error less than one maximal frame is kept, whatever was fed. */
  lemma {:induction false} ParseKeepsPartial(lib: Library, buf: bytes, key: Option<bytes>)
    requires Parse(lib, buf, key).error.None?
    ensures Drained(lib, Parse(lib, buf, key).rest, key)
    ensures |Parse(lib, buf, key).rest| < HEADER_SIZE + MAX_PAYLOAD + MAC_SIZE
    decreases |buf|
  {
    match PopOf(lib, buf, key)
    case Popped(f, rest) => ParseKeepsPartial(lib, rest, key);
    case _ =>
  }

  /** The bytes of a list of frames, back to back. */
  function WireAll(lib: Library, frames: seq<WireFrame>, key: bytes): bytes
  {
    if frames == [] then [] else Wire(lib, frames[0], key) + WireAll(lib, frames[1..], key)
  }

  lemma WireAllOne(lib: Library, f: WireFrame, key: bytes)
    ensures WireAll(lib, [f], key) == Wire(lib, f, key)
  {
    assert [f][1..] == [];
  }

  /** `Pop` emits a frame exactly when the buffer starts with its encoding. */
  lemma PopIffWire(lib: Library, buf: bytes, key: bytes, f: WireFrame, rest: bytes)
    ensures PopOf(lib, buf, Some(key)) == Popped(f, rest) <==> buf == Wire(lib, f, key) + rest
  {
    if buf == Wire(lib, f, key) + rest {
      assert buf[..HEADER_SIZE] == PackHeader(HeaderOf(lib, f));
      HeaderRoundTrip(HeaderOf(lib, f));
    }
    if |buf| >= HEADER_SIZE && DecodeHeader(buf[..HEADER_SIZE]).Ok? {
      var h := DecodeHeader(buf[..HEADER_SIZE]).value;
      if Total(h) <= |buf| {
        var n := HEADER_SIZE + h.length;
        var header, payload, mac, tail := buf[..HEADER_SIZE], buf[HEADER_SIZE..n], buf[n..Total(h)], buf[Total(h)..];
        assert buf == header + payload + mac + tail;
        PartsIff(lib, header, payload, mac, key, f);
        if buf == Wire(lib, f, key) + rest {
          assert buf[..Total(h)] == Wire(lib, f, key) == header + payload + mac;
          assert tail == rest;
        }
      }
    }
  }

  /** Nothing is lost and nothing is invented: with a key, what was fed is the encoding of
      what was emitted, followed by the bytes not emitted, which are kept unless one of them
      was refused. */
  lemma {:induction false} ParseConserves(lib: Library, buf: bytes, key: bytes) returns (tail: bytes)
    ensures buf == WireAll(lib, Parse(lib, buf, Some(key)).frames, key) + tail
    ensures Parse(lib, buf, Some(key)).error.None? ==> tail == Parse(lib, buf, Some(key)).rest
    decreases |buf|
  {
    match PopOf(lib, buf, Some(key))
    case Popped(f, rest) =>
      PopIffWire(lib, buf, key, f, rest);
      tail := ParseConserves(lib, rest, key);
      WireAllCons(lib, f, Parse(lib, rest, Some(key)).frames, tail, key);
    case _ => tail := buf;
  }

  lemma WireAllCons(lib: Library, f: WireFrame, frames: seq<WireFrame>, tail: bytes, key: bytes)
    ensures WireAll(lib, [f] + frames, key) + tail == Wire(lib, f, key) + (WireAll(lib, frames, key) + tail)
  {
    assert ([f] + frames)[1..] == frames;
  }

  // ---- round trip ----

  lemma ParseWire(lib: Library, f: WireFrame, rest: bytes, key: bytes)
    ensures Parse(lib, Wire(lib, f, key) + rest, Some(key)) == Prepend([f], Parse(lib, rest, Some(key)))
  {
    PopIffWire(lib, Wire(lib, f, key) + rest, key, f, rest);
  }

  /** Encoded frames followed by anything parse back to those frames, then go on with the rest. */
  lemma {:induction false} ParseWireAll(lib: Library, frames: seq<WireFrame>, tail: bytes, key: bytes)
    ensures Parse(lib, WireAll(lib, frames, key) + tail, Some(key))
         == Prepend(frames, Parse(lib, tail, Some(key)))
  {
    var p := Parse(lib, tail, Some(key));
    if frames == [] {
      assert [] + tail == tail;
      assert [] + p.frames == p.frames;
    } else {
      var rest := WireAll(lib, frames[1..], key) + tail;
      assert [frames[0]] + frames[1..] == frames;
      WireAllCons(lib, frames[0], frames[1..], tail, key);
      ParseWire(lib, frames[0], rest, key);
      ParseWireAll(lib, frames[1..], tail, key);
      PrependTwice([frames[0]], frames[1..], p);
    }
  }

  /** The same from an empty buffer. */
  lemma ChunkingFromEmpty(lib: Library, chunks: seq<bytes>, key: Option<bytes>)
    ensures var (p, unread) := Stream(lib, [], chunks, key);
            var whole := Parse(lib, Concat(chunks), key);
            && p.frames == whole.frames && p.error == whole.error && p.rest + Concat(unread) == whole.rest
            && (p.error.None? ==> unread == [])
  {
    ChunkingIndependence(lib, [], chunks, key);
    assert [] + Concat(chunks) == Concat(chunks);
  }

  /** Frames encoded, concatenated and cut anywhere drain back to the same frames, with
      nothing left over. */
  lemma StreamRoundTrip(lib: Library, frames: seq<WireFrame>, chunks: seq<bytes>, key: bytes)
    requires Concat(chunks) == WireAll(lib, frames, key)
    ensures Stream(lib, [], chunks, Some(key)) == (Parsed(frames, [], None), [])
  {
    ChunkingFromEmpty(lib, chunks, Some(key));
    assert Concat(chunks) == WireAll(lib, frames, key) + [];
    ParseWireAll(lib, frames, [], key);
    assert Parse(lib, [], Some(key)) == Parsed([], [], None);
    assert frames + [] == frames;
  }

  /** No encoding is a proper prefix of another. */
  lemma WireIsPrefixFree(lib: Library, f: WireFrame, g: WireFrame, key: bytes)
    requires Wire(lib, f, key) <= Wire(lib, g, key)
    ensures f == g
  {
    var rest := Wire(lib, g, key)[|Wire(lib, f, key)|..];
    PopIffWire(lib, Wire(lib, g, key), key, f, rest);
    assert Wire(lib, g, key) + [] == Wire(lib, g, key);
    PopIffWire(lib, Wire(lib, g, key), key, g, []);
  }

  /** So a byte stream is the encoding of at most one list of frames. */
  lemma WireAllInjective(lib: Library, a: seq<WireFrame>, b: seq<WireFrame>, key: bytes)
    requires WireAll(lib, a, key) == WireAll(lib, b, key)
    ensures a == b
  {
    assert WireAll(lib, a, key) + [] == WireAll(lib, a, key);
    assert WireAll(lib, b, key) + [] == WireAll(lib, b, key);
    ParseWireAll(lib, a, [], key);
    ParseWireAll(lib, b, [], key);
    assert a + [] == a && b + [] == b;
  }
}
