/** The TCP connection handler (`WirelineServer._handle`): the session driven by the frames
    read from a stream, until it closes or the stream stops. */
module TcpServer {
  import opened Bytes
  import opened Protocol
  import opened Codec
  import opened Framing
  import opened Parsers
  import opened Sessions

  /** The session after the handler loop and the frames written, for the bytes that arrive
      before the stream stops. */
  function ServeFrom(lib: Library, key: bytes, s: Session, stream: bytes, end: Ending): (Session, seq<WireFrame>)
    decreases |stream|
  {
    if s.state == Closing || s.state == Closed then (s, [])
    else
      var (outcome, rest) := ReadOf(lib, stream, end, key);
      match outcome
      case Ended(why) => if why == TimedOut then (IdleOf(s).0, []) else (s, [])
      case Broken(code) => var (s', r) := ErrorOf(lib, s, code); (s', r.frames)
      case Read(f) =>
        var (s', r) := OnFrameOf(lib, s, f);
        if r.close then (s', r.frames)
        else
          var (s'', later) := ServeFrom(lib, key, s', rest, end);
          (s'', r.frames + later)
  }

  /** Every state the session of a connection is in: at each turn of the loop, and behind it. */
  function Visited(lib: Library, key: bytes, s: Session, stream: bytes, end: Ending): (v: seq<Session>)
    ensures v != []
    decreases |stream|
  {
    if s.state == Closing || s.state == Closed then [s]
    else
      var (outcome, rest) := ReadOf(lib, stream, end, key);
      match outcome
      case Ended(why) => if why == TimedOut then [s, IdleOf(s).0] else [s]
      case Broken(code) => [s, ErrorOf(lib, s, code).0]
      case Read(f) =>
        var (s', r) := OnFrameOf(lib, s, f);
        [s] + if r.close then [s'] else Visited(lib, key, s', rest, end)
  }

  class WirelineServer {
    const lib: Library
    const key: bytes
    var connections: nat

    constructor (lib: Library, key: bytes)
      ensures this.lib == lib && this.key == key && connections == 0
    {
      this.lib, this.key := lib, key;
      connections := 0;
    }

    method Handle(reader: Reader, helloAck: Payload)
      returns (written: seq<WireFrame>, ghost final: Session, ghost visited: seq<Session>)
      modifies this, reader
      ensures connections == old(connections) + 1
      ensures (final, written)
           == ServeFrom(lib, key, NewSession(helloAck), old(reader.Pending()), old(reader.End()))
      ensures visited == Visited(lib, key, NewSession(helloAck), old(reader.Pending()), old(reader.End()))
    {
      var session := new ServerSession(lib, helloAck);
      connections := connections + 1;
      written, visited := [], [];
      NothingWritten(ServeFrom(lib, key, session.Model(), reader.Pending(), reader.End()));
      while session.state != Closing && session.state != Closed
        invariant session.lib == lib && fresh(session)
        invariant connections == old(connections) + 1
        invariant ServeFrom(lib, key, NewSession(helloAck), old(reader.Pending()), old(reader.End()))
               == AfterWriting(written, ServeFrom(lib, key, session.Model(), reader.Pending(), reader.End()))
        invariant Visited(lib, key, NewSession(helloAck), old(reader.Pending()), old(reader.End()))
               == visited + Visited(lib, key, session.Model(), reader.Pending(), reader.End())
        decreases |reader.Pending()|
      {
        var frames, more, passed := Turn(reader, session);
        if more {
          WrittenTwice(written, frames, ServeFrom(lib, key, session.Model(), reader.Pending(), reader.End()));
        }
        written, visited := written + frames, visited + passed;
        if !more {
          return written, session.Model(), visited;
        }
      }
      final, visited := session.Model(), visited + [session.Model()];
      NothingLeft(written, final);
    }

    /** The body of the loop: one frame, or the end of the connection. */
    method Turn(reader: Reader, session: ServerSession)
      returns (frames: seq<WireFrame>, more: bool, ghost passed: seq<Session>)
      requires session.lib == lib && session.state != Closing && session.state != Closed
      modifies reader, session
      ensures var before := ServeFrom(lib, key, old(session.Model()), old(reader.Pending()), old(reader.End()));
              before == if more then AfterWriting(frames, ServeFrom(lib, key, session.Model(), reader.Pending(), reader.End()))
                        else (session.Model(), frames)
      ensures var before := Visited(lib, key, old(session.Model()), old(reader.Pending()), old(reader.End()));
              before == if more then passed + Visited(lib, key, session.Model(), reader.Pending(), reader.End()) else passed
      ensures more ==> |reader.Pending()| < |old(reader.Pending())|
    {
      passed, more := [session.Model()], false;
      var outcome := ReadFrame(reader, lib, key);
      match outcome {
        case Ended(why) =>
          frames := [];
          if why == TimedOut {
            var idle := session.OnIdleTimeout();
            frames, passed := idle.frames, passed + [session.Model()];
          }
        case Broken(code) =>
          var broken := session.OnProtocolError(code);
          frames, passed := broken.frames, passed + [session.Model()];
        case Read(f) =>
          var reaction := session.OnFrame(f);
          frames, more := reaction.frames, !reaction.close;
          if reaction.close {
            passed := passed + [session.Model()];
          }
      }
    }
  }

  function AfterWriting(written: seq<WireFrame>, p: (Session, seq<WireFrame>)): (Session, seq<WireFrame>)
  {
    (p.0, written + p.1)
  }

  lemma NothingWritten(p: (Session, seq<WireFrame>))
    ensures AfterWriting([], p) == p
  {
    assert [] + p.1 == p.1;
  }

  lemma NothingLeft(written: seq<WireFrame>, s: Session)
    ensures AfterWriting(written, (s, [])) == (s, written)
  {
    assert written + [] == written;
  }

  lemma WrittenTwice(a: seq<WireFrame>, b: seq<WireFrame>, p: (Session, seq<WireFrame>))
    ensures AfterWriting(a, AfterWriting(b, p)) == AfterWriting(a + b, p)
  {
    assert a + (b + p.1) == (a + b) + p.1;
  }

  // ---- the transcript ----

  /** What a server may have written after the handshake: echoes, then at most one closing frame. */
  predicate Echoes(written: seq<WireFrame>)
  {
    && (forall i | 0 <= i < |written| - 1 :: written[i].msgType in {Pong, Data})
    && (written != [] ==> written[|written| - 1].msgType in {Pong, Data, Bye, Error})
  }

  /** A prefix of HELLO_ACK (PONG or DATA)* (BYE or ERROR), or a lone ERROR. */
  predicate Grammar(written: seq<WireFrame>)
  {
    || written == []
    || (|written| == 1 && written[0].msgType == Error)
    || (written[0].msgType == HelloAck && Echoes(written[1..]))
  }

  lemma EchoesCons(x: WireFrame, later: seq<WireFrame>)
    requires x.msgType in {Pong, Data} && Echoes(later)
    ensures Echoes([x] + later)
  {
  }

  /** One frame in an open session, for the transcript: at most one frame back, numbered
      next, and of a type that fits its place. */
  lemma StepTranscript(lib: Library, s: Session, f: WireFrame)
    requires Open(s)
    ensures var (s', r) := OnFrameOf(lib, s, f);
            && s'.state == (if r.close then Closed else Ready)
            && (r.frames == [] ==> s'.outSeq == s.outSeq && s.state == Ready)
            && (r.frames != [] ==>
                  && r.frames == [r.frames[0]]
                  && r.frames[0].seqNo == s.outSeq && r.frames[0].flags == 0 && s'.outSeq == NextSeq(s.outSeq)
                  && (s.state == Ready && !r.close ==> r.frames[0].msgType in {Pong, Data})
                  && (s.state == Ready && r.close ==> r.frames[0].msgType in {Bye, Error})
                  && (s.state == New ==> r.frames[0].msgType == if r.close then Error else HelloAck))
  {
  }

  /** From READY the loop writes echoes and stops after a closing frame, and the session is
      READY or CLOSED throughout. */
  lemma {:induction false} ReadyTranscript(lib: Library, key: bytes, s: Session, stream: bytes, end: Ending)
    requires s.state == Ready
    ensures var (s', written) := ServeFrom(lib, key, s, stream, end);
            && Echoes(written) && NumberedFrom(s.outSeq, written)
            && (s'.state == Ready || s'.state == Closed)
    decreases |stream|
  {
    var (outcome, rest) := ReadOf(lib, stream, end, key);
    if outcome.Read? {
      StepTranscript(lib, s, outcome.frame);
      var (s1, r) := OnFrameOf(lib, s, outcome.frame);
      if !r.close {
        ReadyTranscript(lib, key, s1, rest, end);
        Prefixed(s.outSeq, r.frames, s1.outSeq, ServeFrom(lib, key, s1, rest, end).1);
      }
    }
  }

  lemma Prefixed(outSeq: uint32, frames: seq<WireFrame>, next: uint32, later: seq<WireFrame>)
    requires frames == [] ==> next == outSeq
    requires frames != [] ==>
      && frames == [frames[0]] && next == NextSeq(outSeq)
      && frames[0].seqNo == outSeq && frames[0].flags == 0 && frames[0].msgType in {Pong, Data}
    requires Echoes(later) && NumberedFrom(next, later)
    ensures Echoes(frames + later) && NumberedFrom(outSeq, frames + later)
  {
    if frames == [] {
      assert frames + later == later;
    } else {
      EchoesCons(frames[0], later);
      NumberedCons(outSeq, frames[0], later);
    }
  }

  /** The states a server session is ever in. */
  predicate ServerState(s: Session)
  {
    s.state in {New, Ready, Closed}
  }

  lemma {:induction false} VisitedStates(lib: Library, key: bytes, s: Session, stream: bytes, end: Ending)
    requires ServerState(s)
    ensures var visited := Visited(lib, key, s, stream, end);
            && (forall x | x in visited :: ServerState(x))
            && visited[|visited| - 1] == ServeFrom(lib, key, s, stream, end).0
    decreases |stream|
  {
    var (outcome, rest) := ReadOf(lib, stream, end, key);
    if s.state != Closed && outcome.Read? {
      StepTranscript(lib, s, outcome.frame);
      var (s', r) := OnFrameOf(lib, s, outcome.frame);
      if !r.close {
        VisitedStates(lib, key, s', rest, end);
      }
    }
  }

  /** For every input, however it is cut and wherever it stops, the frames written form the
      protocol's grammar, numbered 0, 1, 2, ... modulo 2^32, and the session is never in
      HANDSHAKE or CLOSING, at no turn of the loop and not behind it. */
  lemma TranscriptGrammar(lib: Library, key: bytes, helloAck: Payload, stream: bytes, end: Ending)
    ensures var (s', written) := ServeFrom(lib, key, NewSession(helloAck), stream, end);
            && Grammar(written)
            && (forall i | 0 <= i < |written| :: written[i].seqNo == i % 0x1_0000_0000 && written[i].flags == 0)
            && (forall x | x in Visited(lib, key, NewSession(helloAck), stream, end) :: ServerState(x))
            && ServerState(s')
  {
    VisitedStates(lib, key, NewSession(helloAck), stream, end);
    NewTranscript(lib, key, NewSession(helloAck), stream, end);
    NumbersAreModular(ServeFrom(lib, key, NewSession(helloAck), stream, end).1);
  }

  lemma NumbersAreModular(written: seq<WireFrame>)
    requires NumberedFrom(0, written)
    ensures forall i | 0 <= i < |written| :: written[i].seqNo == i % 0x1_0000_0000 && written[i].flags == 0
  {
    forall i | 0 <= i < |written| ensures written[i].seqNo == i % 0x1_0000_0000 {
      AdvanceIsModular(0, i);
    }
  }

  lemma NewTranscript(lib: Library, key: bytes, s: Session, stream: bytes, end: Ending)
    requires s.state == New
    ensures var (s', written) := ServeFrom(lib, key, s, stream, end);
            Grammar(written) && NumberedFrom(s.outSeq, written) && s'.state in {New, Ready, Closed}
  {
    var (outcome, rest) := ReadOf(lib, stream, end, key);
    if outcome.Read? {
      StepTranscript(lib, s, outcome.frame);
      var (s1, r) := OnFrameOf(lib, s, outcome.frame);
      if !r.close {
        ReadyTranscript(lib, key, s1, rest, end);
        var later := ServeFrom(lib, key, s1, rest, end).1;
        NumberedCons(s.outSeq, r.frames[0], later);
        assert ([r.frames[0]] + later)[1..] == later;
      }
    }
  }

  // ---- the session sees the parsed frames, nothing else ----

  /** The session fed a list of frames, and the parse error behind them if there is one. */
  function Converse(lib: Library, s: Session, frames: seq<WireFrame>, error: Option<ErrorCode>, end: Ending): (Session, seq<WireFrame>)
    decreases |frames|
  {
    if s.state == Closing || s.state == Closed then (s, [])
    else if frames == [] then
      match error
      case Some(code) => var (s', r) := ErrorOf(lib, s, code); (s', r.frames)
      case None => if end == TimedOut then (IdleOf(s).0, []) else (s, [])
    else
      var (s', r) := OnFrameOf(lib, s, frames[0]);
      if r.close then (s', r.frames)
      else
        var (s'', later) := Converse(lib, s', frames[1..], error, end);
        (s'', r.frames + later)
  }

  /** The handler loop gives the session exactly the frames of the one-shot parse of the
      stream, and its first error. */
  lemma {:induction false} ServeIsConverse(lib: Library, key: bytes, s: Session, stream: bytes, end: Ending)
    ensures var p := Parse(lib, stream, Some(key));
            ServeFrom(lib, key, s, stream, end) == Converse(lib, s, p.frames, p.error, end)
    decreases |stream|
  {
    ReadFrameAgreesWithPop(lib, stream, end, key);
    match PopOf(lib, stream, Some(key))
    case Popped(f, rest) =>
      var p := Parse(lib, rest, Some(key));
      assert ([f] + p.frames)[1..] == p.frames;
      ServeIsConverse(lib, key, OnFrameOf(lib, s, f).0, rest, end);
    case _ =>
  }

  // ---- a server answers what it has, not what will come ----

  lemma PrefixThen(a: seq<WireFrame>, b: seq<WireFrame>, c: seq<WireFrame>)
    requires b <= c
    ensures a + b <= a + c
  {
  }

  /** What is written after some bytes of a stream does not depend on the bytes behind them: it
      is a prefix of what is written in the end. */
  lemma {:induction false} ServeIsCausal(lib: Library, key: bytes, s: Session, a: bytes, b: bytes, end: Ending)
    ensures ServeFrom(lib, key, s, a, Eof).1 <= ServeFrom(lib, key, s, a + b, end).1
    decreases |a|
  {
    PopIsStable(lib, a, b, Some(key));
    ReadFrameAgreesWithPop(lib, a, Eof, key);
    ReadFrameAgreesWithPop(lib, a + b, end, key);
    match PopOf(lib, a, Some(key))
    case Popped(f, rest) =>
      var (s', r) := OnFrameOf(lib, s, f);
      ServeIsCausal(lib, key, s', rest, b, end);
      PrefixThen(r.frames, ServeFrom(lib, key, s', rest, Eof).1, ServeFrom(lib, key, s', rest + b, end).1);
    case _ =>
  }

  lemma ServeWire(lib: Library, key: bytes, s: Session, f: WireFrame, rest: bytes, end: Ending)
    requires s.state != Closing && s.state != Closed
    ensures var (s', r) := OnFrameOf(lib, s, f);
            ServeFrom(lib, key, s, Wire(lib, f, key) + rest, end) ==
              if r.close then (s', r.frames) else AfterWriting(r.frames, ServeFrom(lib, key, s', rest, end))
  {
    PopIffWire(lib, Wire(lib, f, key) + rest, key, f, rest);
    ReadFrameAgreesWithPop(lib, Wire(lib, f, key) + rest, end, key);
  }

  /** Serving whole frames and then the rest of the stream is serving all of it: the session
      waits in between as the frames left it. */
  lemma {:induction false} ServeInParts(lib: Library, key: bytes, s: Session, frames: seq<WireFrame>, rest: bytes, end: Ending)
    ensures var (s1, first) := ServeFrom(lib, key, s, WireAll(lib, frames, key), Eof);
            ServeFrom(lib, key, s, WireAll(lib, frames, key) + rest, end) == AfterWriting(first, ServeFrom(lib, key, s1, rest, end))
    decreases |frames|
  {
    var all := WireAll(lib, frames, key);
    if s.state == Closing || s.state == Closed || frames == [] {
      assert frames == [] ==> all + rest == rest;
      NothingWritten(ServeFrom(lib, key, s, rest, end));
    } else {
      var (s', r) := OnFrameOf(lib, s, frames[0]);
      ServeWire(lib, key, s, frames[0], WireAll(lib, frames[1..], key), Eof);
      WireAllThen(lib, frames, rest, key);
      ServeWire(lib, key, s, frames[0], WireAll(lib, frames[1..], key) + rest, end);
      if r.close {
        ClosedIsSilent(lib, key, s, frames[0], rest, end);
      } else {
        ServeInParts(lib, key, s', frames[1..], rest, end);
        var (s1, first) := ServeFrom(lib, key, s', WireAll(lib, frames[1..], key), Eof);
        WrittenTwice(r.frames, first, ServeFrom(lib, key, s1, rest, end));
      }
    }
  }

  lemma ClosedIsSilent(lib: Library, key: bytes, s: Session, f: WireFrame, rest: bytes, end: Ending)
    requires OnFrameOf(lib, s, f).1.close
    ensures var (s', r) := OnFrameOf(lib, s, f);
            AfterWriting(r.frames, ServeFrom(lib, key, s', rest, end)) == (s', r.frames)
  {
    NothingLeft(OnFrameOf(lib, s, f).1.frames, OnFrameOf(lib, s, f).0);
  }

  // ---- how a connection ends ----

  /** A client that does not speak the protocol is told so with one ERROR, whatever else is wrong
      with its bytes and however its stream ends, and the session is closed. */
  lemma ForeignClient(lib: Library, key: bytes, helloAck: Payload, stream: bytes, end: Ending)
    requires |stream| >= 19 && stream[..4] != Ascii("WIRE")
    ensures var (s', written) := ServeFrom(lib, key, NewSession(helloAck), stream, end);
            written == [Frame(Error, 0, lib.encodeError(ErrMagic), 0)] && s'.state == Closed
  {
    assert stream[..19][..4] == stream[..4];
    HeaderPrecedence(stream[..19]);
  }

  /** More generally, bytes that break a connection behind whole frames the session accepts are
      answered with their own fault, under the session's next number, as the last frame. */
  lemma BrokenStream(lib: Library, key: bytes, s: Session, frames: seq<WireFrame>, tail: bytes, end: Ending)
    requires |tail| >= 19 && HeaderFault(tail[..19]).Some?
    ensures var (s1, first) := ServeFrom(lib, key, s, WireAll(lib, frames, key), Eof);
            var (s2, written) := ServeFrom(lib, key, s, WireAll(lib, frames, key) + tail, end);
            if s1.state == Closing || s1.state == Closed then (s2, written) == (s1, first)
            else
              && written == first + [Frame(Error, s1.outSeq, lib.encodeError(HeaderFault(tail[..19]).value), 0)]
              && s2.state == Closed
  {
    ServeInParts(lib, key, s, frames, tail, end);
    HeaderPrecedence(tail[..19]);
    var (s1, first) := ServeFrom(lib, key, s, WireAll(lib, frames, key), Eof);
    NothingLeft(first, s1);
  }

  /** A timeout closes the session without a frame: what is written is what is written when the
      stream just ends there. A stream that ends or is reset leaves the session as it is. */
  lemma {:induction false} TimeoutIsQuiet(lib: Library, key: bytes, s: Session, stream: bytes, why: Ending)
    ensures ServeFrom(lib, key, s, stream, why).1 == ServeFrom(lib, key, s, stream, Eof).1
    ensures ServeFrom(lib, key, s, stream, TimedOut).0.state in {Closing, Closed}
    ensures why != TimedOut ==> ServeFrom(lib, key, s, stream, why).0 == ServeFrom(lib, key, s, stream, Eof).0
    decreases |stream|
  {
    var (outcome, rest) := ReadOf(lib, stream, Eof, key);
    ReadFrameAgreesWithPop(lib, stream, Eof, key);
    ReadFrameAgreesWithPop(lib, stream, why, key);
    ReadFrameAgreesWithPop(lib, stream, TimedOut, key);
    if outcome.Read? {
      var (s', r) := OnFrameOf(lib, s, outcome.frame);
      if r.close {
        CloseMeansClosed(lib, s, outcome.frame);
      } else {
        TimeoutIsQuiet(lib, key, s', rest, why);
      }
    }
  }

  lemma CloseMeansClosed(lib: Library, s: Session, f: WireFrame)
    requires OnFrameOf(lib, s, f).1.close
    ensures OnFrameOf(lib, s, f).0.state in {Closing, Closed}
  {
  }
}
