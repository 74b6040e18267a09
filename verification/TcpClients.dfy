/** The TCP client (`client.py`) and its lockstep with the server's handler loop. */
module TcpClients {
  import opened Bytes
  import opened Protocol
  import opened Codec
  import opened Framing
  import opened Parsers
  import opened Sessions
  import opened TcpServer

  datatype Client = Client(outSeq: uint32, lastPeerSeq: int, state: State)

  /** A frame, a `ProtocolError`, or a stream that stopped first. */
  datatype Received = Accepted(frame: WireFrame) | Failed(code: ErrorCode) | NoFrame(why: Ending)

  function NewClient(): Client
  {
    Client(0, -1, New)
  }

  /** The number is taken before the frame is encoded. */
  function SendOf(lib: Library, key: bytes, c: Client, t: MsgType, payload: bytes, flags: int): (Client, Result<bytes>)
  {
    (c.(outSeq := NextSeq(c.outSeq)), Encode(lib, Frame(t, c.outSeq, payload, flags), key))
  }

  function AcceptOf(c: Client, outcome: ReadOutcome): (Client, Received)
  {
    match outcome
    case Ended(why) => (c, NoFrame(why))
    case Broken(code) => (c, Failed(code))
    case Read(f) =>
      if f.seqNo <= c.lastPeerSeq then (c, Failed(ErrSeq))
      else (c.(lastPeerSeq := f.seqNo), Accepted(f))
  }

  /** What one exchange leaves: the client, the bytes written, the result, and the part of the
      incoming stream not read yet. */
  datatype Exchanged = Exchanged(client: Client, written: bytes, result: Received, rest: bytes)

  function ExchangeOf(lib: Library, key: bytes, c: Client, t: MsgType, payload: bytes, flags: int, stream: bytes, end: Ending)
    : Exchanged
  {
    var (sent, raw) := SendOf(lib, key, c, t, payload, flags);
    if raw.Err? then Exchanged(sent, [], Failed(raw.code), stream)
    else
      var (outcome, rest) := ReadOf(lib, stream, end, key);
      var (after, result) := AcceptOf(sent, outcome);
      Exchanged(after, raw.value, result, rest)
  }

  function RequestOf(lib: Library, key: bytes, c: Client, t: MsgType, payload: bytes, flags: int, stream: bytes, end: Ending)
    : Exchanged
  {
    if c.state != Ready then Exchanged(c, [], Failed(ErrState), stream)
    else ExchangeOf(lib, key, c, t, payload, flags, stream, end)
  }

  function HandshakeOf(lib: Library, key: bytes, c: Client, hello: bytes, stream: bytes, end: Ending): Exchanged
  {
    var e := ExchangeOf(lib, key, c, Hello, hello, 0, stream, end);
    if e.written == [] then e
    else
      var waiting := e.(client := e.client.(state := Handshake));
      if !e.result.Accepted? then waiting
      else
        var f := e.result.frame;
        if f.msgType == Error then
          match lib.decodeError(f.payload)
          case Ok(code) => waiting.(result := Failed(code))
          case Err(code) => waiting.(result := Failed(code))
        else if f.msgType != HelloAck then waiting.(result := Failed(ErrState))
        else
          match lib.decodeHelloAck(f.payload)
          case Err(code) => waiting.(result := Failed(code))
          case Ok(_) => e.(client := e.client.(state := Ready))
  }

  class WirelineClient {
    const lib: Library
    const key: bytes
    var outSeq: uint32
    var lastPeerSeq: int
    var state: State
    var sessionId: Option<string>
    /** Everything written to the socket. */
    var written: bytes

    function Model(): Client
      reads this
    {
      Client(outSeq, lastPeerSeq, state)
    }

    constructor (lib: Library, key: bytes)
      ensures this.lib == lib && this.key == key && Model() == NewClient() && written == []
    {
      this.lib, this.key := lib, key;
      outSeq, lastPeerSeq, state, sessionId, written := 0, -1, New, None, [];
    }

    method Send(t: MsgType, payload: bytes, flags: int) returns (error: Option<ErrorCode>)
      modifies this
      ensures var (c, raw) := SendOf(lib, key, old(Model()), t, payload, flags);
              && Model() == c
              && error == (if raw.Ok? then None else Some(raw.code))
              && written == old(written) + (if raw.Ok? then raw.value else [])
      ensures sessionId == old(sessionId)
    {
      var seqNo := outSeq;
      outSeq := if outSeq == MAX_SEQ then 0 else outSeq + 1;
      var raw := Encode(lib, Frame(t, seqNo, payload, flags), key);
      if raw.Err? {
        assert written + [] == written;
        return Some(raw.code);
      }
      written := written + raw.value;
      error := None;
    }

    method Recv(reader: Reader) returns (r: Received)
      modifies this, reader
      ensures var (outcome, rest) := ReadOf(lib, old(reader.Pending()), old(reader.End()), key);
              && (Model(), r) == AcceptOf(old(Model()), outcome)
              && (!r.NoFrame? ==> reader.Pending() == rest && reader.End() == old(reader.End()))
      ensures written == old(written) && sessionId == old(sessionId)
    {
      var outcome := ReadFrame(reader, lib, key);
      match outcome {
        case Ended(why) => r := NoFrame(why);
        case Broken(code) => r := Failed(code);
        case Read(f) =>
          if f.seqNo <= lastPeerSeq {
            return Failed(ErrSeq);
          }
          lastPeerSeq := f.seqNo;
          r := Accepted(f);
      }
    }

    method Request(reader: Reader, t: MsgType, payload: bytes, flags: int) returns (r: Received)
      modifies this, reader
      ensures var e := RequestOf(lib, key, old(Model()), t, payload, flags, old(reader.Pending()), old(reader.End()));
              && Model() == e.client && r == e.result && written == old(written) + e.written
              && (!r.NoFrame? ==> reader.Pending() == e.rest && reader.End() == old(reader.End()))
      ensures sessionId == old(sessionId)
    {
      if state != Ready {
        assert written + [] == written;
        return Failed(ErrState);
      }
      var error := Send(t, payload, flags);
      if error.Some? {
        return Failed(error.value);
      }
      r := Recv(reader);
    }

    method HandshakeWith(reader: Reader, hello: bytes) returns (r: Received)
      modifies this, reader
      ensures var e := HandshakeOf(lib, key, old(Model()), hello, old(reader.Pending()), old(reader.End()));
              && Model() == e.client && r == e.result && written == old(written) + e.written
              && (!r.NoFrame? ==> reader.Pending() == e.rest && reader.End() == old(reader.End()))
      ensures if r.Accepted? then sessionId.Some? && lib.decodeHelloAck(r.frame.payload) == Ok(sessionId.value)
              else sessionId == old(sessionId)
    {
      var error := Send(Hello, hello, 0);
      if error.Some? {
        return Failed(error.value);
      }
      state := Handshake;
      r := Recv(reader);
      if !r.Accepted? {
        return;
      }
      var f := r.frame;
      if f.msgType == Error {
        var code := lib.decodeError(f.payload);
        return Failed(if code.Ok? then code.value else code.code);
      }
      if f.msgType != HelloAck {
        return Failed(ErrState);
      }
      var id := lib.decodeHelloAck(f.payload);
      if id.Err? {
        return Failed(id.code);
      }
      sessionId, state := Some(id.value), Ready;
    }
  }

  // ---- lockstep ----

  datatype Call = Call(msgType: MsgType, payload: Payload)

  predicate EchoCalls(calls: seq<Call>)
  {
    forall i | 0 <= i < |calls| :: calls[i].msgType in {Ping, Data}
  }

  function RequestsFrom(n: nat, calls: seq<Call>): seq<WireFrame>
    requires n + |calls| <= MAX_SEQ + 1
    decreases |calls|
  {
    if calls == [] then [] else [Frame(calls[0].msgType, n, calls[0].payload, 0)] + RequestsFrom(n + 1, calls[1..])
  }

  function EchoOf(n: uint32, c: Call): WireFrame
  {
    Frame(if c.msgType == Ping then Pong else Data, n, c.payload, 0)
  }

  function RepliesFrom(n: nat, calls: seq<Call>): seq<WireFrame>
    requires n + |calls| <= MAX_SEQ + 1
    decreases |calls|
  {
    if calls == [] then [] else [EchoOf(n, calls[0])] + RepliesFrom(n + 1, calls[1..])
  }

  /** A client making calls one after the other against an incoming stream. */
  function Talk(lib: Library, key: bytes, c: Client, calls: seq<Call>, stream: bytes, end: Ending): (bytes, seq<Received>)
    decreases |calls|
  {
    if calls == [] then ([], [])
    else
      var e := RequestOf(lib, key, c, calls[0].msgType, calls[0].payload, 0, stream, end);
      var (written, results) := Talk(lib, key, e.client, calls[1..], e.rest, end);
      (e.written + written, [e.result] + results)
  }

  function AllAccepted(frames: seq<WireFrame>): seq<Received>
  {
    seq(|frames|, i requires 0 <= i < |frames| => Accepted(frames[i]))
  }

  lemma AllAcceptedCons(f: WireFrame, frames: seq<WireFrame>)
    ensures AllAccepted([]) == []
    ensures AllAccepted([f] + frames) == [Accepted(f)] + AllAccepted(frames)
  {
  }

  lemma ReadWire(lib: Library, key: bytes, f: WireFrame, rest: bytes, end: Ending)
    ensures ReadOf(lib, Wire(lib, f, key) + rest, end, key) == (Read(f), rest)
  {
    PopIffWire(lib, Wire(lib, f, key) + rest, key, f, rest);
    ReadFrameAgreesWithPop(lib, Wire(lib, f, key) + rest, end, key);
  }

  lemma EchoStep(lib: Library, s: Session, n: uint32, c: Call)
    requires s.state == Ready && s.lastPeerSeq < n && s.outSeq == n && c.msgType in {Ping, Data}
    ensures OnFrameOf(lib, s, Frame(c.msgType, n, c.payload, 0))
         == (s.(lastPeerSeq := n, outSeq := NextSeq(n)), Reaction([EchoOf(n, c)], false))
  {
  }

  /** The frames of n calls, one call at a time. */
  lemma ScriptCons(lib: Library, key: bytes, n: nat, calls: seq<Call>)
    requires n + |calls| <= MAX_SEQ + 1 && calls != []
    ensures WireAll(lib, RequestsFrom(n, calls), key)
         == Wire(lib, Frame(calls[0].msgType, n, calls[0].payload, 0), key) + WireAll(lib, RequestsFrom(n + 1, calls[1..]), key)
    ensures WireAll(lib, RepliesFrom(n, calls), key)
         == Wire(lib, EchoOf(n, calls[0]), key) + WireAll(lib, RepliesFrom(n + 1, calls[1..]), key)
  {
    var requests, replies := RequestsFrom(n, calls), RepliesFrom(n, calls);
    assert requests[1..] == RequestsFrom(n + 1, calls[1..]) && replies[1..] == RepliesFrom(n + 1, calls[1..]);
  }

  lemma EchoAndServe(lib: Library, key: bytes, s: Session, n: uint32, call: Call, rest: bytes, end: Ending)
    requires s.state == Ready && s.lastPeerSeq < n && s.outSeq == n && call.msgType in {Ping, Data}
    ensures ServeFrom(lib, key, s, Wire(lib, Frame(call.msgType, n, call.payload, 0), key) + rest, end)
         == AfterWriting([EchoOf(n, call)], ServeFrom(lib, key, s.(lastPeerSeq := n, outSeq := NextSeq(n)), rest, end))
  {
    EchoStep(lib, s, n, call);
    ServeWire(lib, key, s, Frame(call.msgType, n, call.payload, 0), rest, end);
  }

  /** The server's half: calls numbered from n are answered with the same numbers. */
  lemma {:induction false} ServerEchoes(lib: Library, key: bytes, s: Session, n: nat, calls: seq<Call>, end: Ending)
    requires n + |calls| <= MAX_SEQ + 1 && EchoCalls(calls)
    requires s.state == Ready && s.lastPeerSeq < n && (n <= MAX_SEQ ==> s.outSeq == n)
    ensures ServeFrom(lib, key, s, WireAll(lib, RequestsFrom(n, calls), key), end).1 == RepliesFrom(n, calls)
    decreases |calls|
  {
    if calls != [] {
      var rest := WireAll(lib, RequestsFrom(n + 1, calls[1..]), key);
      ScriptCons(lib, key, n, calls);
      EchoAndServe(lib, key, s, n, calls[0], rest, end);
      ServerEchoes(lib, key, s.(lastPeerSeq := n, outSeq := NextSeq(n)), n + 1, calls[1..], end);
    }
  }

  lemma CallStep(lib: Library, key: bytes, c: Client, n: uint32, call: Call, rest: bytes, end: Ending)
    requires c == Client(n, n - 1, Ready)
    ensures RequestOf(lib, key, c, call.msgType, call.payload, 0, Wire(lib, EchoOf(n, call), key) + rest, end)
         == Exchanged(Client(NextSeq(n), n, Ready), Wire(lib, Frame(call.msgType, n, call.payload, 0), key),
                      Accepted(EchoOf(n, call)), rest)
  {
    ReadWire(lib, key, EchoOf(n, call), rest, end);
  }

  /** The client's half: against those answers it writes the calls and accepts every reply. */
  lemma {:induction false} ClientTalks(lib: Library, key: bytes, c: Client, n: nat, calls: seq<Call>, end: Ending)
    requires n + |calls| <= MAX_SEQ + 1
    requires c.state == Ready && c.lastPeerSeq == n - 1 && (n <= MAX_SEQ ==> c.outSeq == n)
    ensures Talk(lib, key, c, calls, WireAll(lib, RepliesFrom(n, calls), key), end)
         == (WireAll(lib, RequestsFrom(n, calls), key), AllAccepted(RepliesFrom(n, calls)))
    decreases |calls|
  {
    AllAcceptedCons(Frame(Hello, 0, [], 0), []);
    if calls != [] {
      var replies := RepliesFrom(n + 1, calls[1..]);
      ScriptCons(lib, key, n, calls);
      CallStep(lib, key, c, n, calls[0], WireAll(lib, replies, key), end);
      ClientTalks(lib, key, Client(NextSeq(n), n, Ready), n + 1, calls[1..], end);
      AllAcceptedCons(EchoOf(n, calls[0]), replies);
    }
  }

  lemma {:induction false} ReplyAt(n: nat, calls: seq<Call>, i: nat)
    requires n + |calls| <= MAX_SEQ + 1 && i < |calls|
    ensures |RepliesFrom(n, calls)| == |calls| && RepliesFrom(n, calls)[i] == EchoOf(n + i, calls[i])
    decreases |calls|
  {
    if |calls| > 1 {
      ReplyAt(n + 1, calls[1..], if i > 0 then i - 1 else 0);
    }
  }

  lemma {:induction false} ScriptPrefix(n: nat, calls: seq<Call>, j: nat)
    requires n + |calls| <= MAX_SEQ + 1 && j <= |calls|
    ensures RepliesFrom(n, calls[..j]) <= RepliesFrom(n, calls)
    ensures RequestsFrom(n, calls[..j]) <= RequestsFrom(n, calls)
    decreases j
  {
    if j > 0 {
      ScriptPrefix(n + 1, calls[1..], j - 1);
      assert calls[..j][1..] == calls[1..][..j - 1];
    }
  }

  lemma ServerAnswersHello(lib: Library, key: bytes, hello: Payload, helloAck: Payload, calls: seq<Call>, end: Ending)
    requires lib.decodeHello(hello).Ok? && EchoCalls(calls) && |calls| <= MAX_SEQ
    ensures ServeFrom(lib, key, NewSession(helloAck),
                      WireAll(lib, [Frame(Hello, 0, hello, 0)] + RequestsFrom(1, calls), key), end).1
         == [Frame(HelloAck, 0, helloAck, 0)] + RepliesFrom(1, calls)
  {
    var f := Frame(Hello, 0, hello, 0);
    var rest := RequestsFrom(1, calls);
    assert ([f] + rest)[1..] == rest;
    ReadWire(lib, key, f, WireAll(lib, rest, key), end);
    var s := NewSession(helloAck);
    var (s', r) := OnFrameOf(lib, s, f);
    assert r == Reaction([Frame(HelloAck, 0, helloAck, 0)], false);
    ServerEchoes(lib, key, s', 1, calls, end);
  }

  lemma ClientShakesHands(lib: Library, key: bytes, hello: Payload, helloAck: Payload, rest: bytes, end: Ending)
    requires lib.decodeHelloAck(helloAck).Ok?
    ensures HandshakeOf(lib, key, NewClient(), hello, Wire(lib, Frame(HelloAck, 0, helloAck, 0), key) + rest, end)
         == Exchanged(Client(1, 0, Ready), Wire(lib, Frame(Hello, 0, hello, 0), key),
                      Accepted(Frame(HelloAck, 0, helloAck, 0)), rest)
  {
    ReadWire(lib, key, Frame(HelloAck, 0, helloAck, 0), rest, end);
  }

  /** Asking part of the calls gets part of the replies: the server has answered the first j
      calls, and no others, before it sees the next one. */
  lemma RepliesAreCausal(lib: Library, key: bytes, s: Session, n: nat, calls: seq<Call>, j: nat, end: Ending)
    requires n + |calls| <= MAX_SEQ + 1 && EchoCalls(calls) && j <= |calls|
    requires s.state == Ready && s.lastPeerSeq < n && (n <= MAX_SEQ ==> s.outSeq == n)
    ensures RequestsFrom(n, calls[..j]) <= RequestsFrom(n, calls)
    ensures ServeFrom(lib, key, s, WireAll(lib, RequestsFrom(n, calls[..j]), key), Eof).1 == RepliesFrom(n, calls[..j])
    ensures RepliesFrom(n, calls[..j]) <= RepliesFrom(n, calls)
         == ServeFrom(lib, key, s, WireAll(lib, RequestsFrom(n, calls), key), end).1
  {
    ScriptPrefix(n, calls, j);
    ServerEchoes(lib, key, s, n, calls[..j], Eof);
    ServerEchoes(lib, key, s, n, calls, end);
  }

  /** Lockstep, for a whole connection of fewer than 2^32 requests: the server answers the bytes
      of the handshake and the calls with the replies numbered 0, 1, 2, ..., each the echo of
      the call with its number; and against the bytes of those replies the client writes
      exactly those requests and accepts every reply, so its replay check never fires. */
  lemma Lockstep(lib: Library, key: bytes, hello: Payload, helloAck: Payload, calls: seq<Call>, end: Ending)
    requires lib.decodeHello(hello).Ok? && lib.decodeHelloAck(helloAck).Ok?
    requires EchoCalls(calls) && |calls| <= MAX_SEQ
    ensures var requests := [Frame(Hello, 0, hello, 0)] + RequestsFrom(1, calls);
            var replies := [Frame(HelloAck, 0, helloAck, 0)] + RepliesFrom(1, calls);
            var h := HandshakeOf(lib, key, NewClient(), hello, WireAll(lib, replies, key), end);
            var (written, results) := Talk(lib, key, h.client, calls, h.rest, end);
            && ServeFrom(lib, key, NewSession(helloAck), WireAll(lib, requests, key), end).1 == replies
            && h.written + written == WireAll(lib, requests, key)
            && [h.result] + results == AllAccepted(replies)
  {
    var f, r := Frame(Hello, 0, hello, 0), Frame(HelloAck, 0, helloAck, 0);
    var requests, replies := RequestsFrom(1, calls), RepliesFrom(1, calls);
    assert ([f] + requests)[1..] == requests && ([r] + replies)[1..] == replies;
    ServerAnswersHello(lib, key, hello, helloAck, calls, end);
    ClientShakesHands(lib, key, hello, helloAck, WireAll(lib, replies, key), end);
    ClientTalks(lib, key, Client(1, 0, Ready), 1, calls, end);
    AllAcceptedCons(r, replies);
  }

  // ---- the closed loop ----

  /** What a call writes does not depend on what the client is about to read. */
  lemma WritesFirst(lib: Library, key: bytes, c: Client, t: MsgType, payload: bytes, flags: int, stream: bytes, end: Ending)
    ensures RequestOf(lib, key, c, t, payload, flags, stream, end).written
         == RequestOf(lib, key, c, t, payload, flags, [], Eof).written
  {
  }

  /** Client and server connected: each call is written to the server, which serves it with the
      session it has kept and waits for more; what it writes joins what the client has not read
      yet, and the call reads its reply from there. */
  function Connected(lib: Library, key: bytes, c: Client, s: Session, unread: bytes, calls: seq<Call>)
    : (Client, Session, bytes, seq<Received>)
    decreases |calls|
  {
    if calls == [] then (c, s, unread, [])
    else
      var request := RequestOf(lib, key, c, calls[0].msgType, calls[0].payload, 0, [], Eof).written;
      var (s', frames) := ServeFrom(lib, key, s, request, Eof);
      var e := RequestOf(lib, key, c, calls[0].msgType, calls[0].payload, 0, unread + WireAll(lib, frames, key), Eof);
      var (c', s'', unread', results) := Connected(lib, key, e.client, s', e.rest, calls[1..]);
      (c', s'', unread', [e.result] + results)
  }

  lemma ServeOne(lib: Library, key: bytes, s: Session, n: uint32, call: Call)
    requires s.state == Ready && s.lastPeerSeq < n && s.outSeq == n && call.msgType in {Ping, Data}
    ensures ServeFrom(lib, key, s, Wire(lib, Frame(call.msgType, n, call.payload, 0), key), Eof)
         == (s.(lastPeerSeq := n, outSeq := NextSeq(n)), [EchoOf(n, call)])
  {
    var raw := Wire(lib, Frame(call.msgType, n, call.payload, 0), key);
    assert raw + [] == raw;
    EchoStep(lib, s, n, call);
    ServeWire(lib, key, s, Frame(call.msgType, n, call.payload, 0), [], Eof);
    NothingLeft([EchoOf(n, call)], s.(lastPeerSeq := n, outSeq := NextSeq(n)));
  }

  lemma OneRound(lib: Library, key: bytes, c: Client, s: Session, n: uint32, call: Call)
    requires c == Client(n, n - 1, Ready)
    requires s.state == Ready && s.lastPeerSeq < n && s.outSeq == n && call.msgType in {Ping, Data}
    ensures var request := RequestOf(lib, key, c, call.msgType, call.payload, 0, [], Eof).written;
            var (s', frames) := ServeFrom(lib, key, s, request, Eof);
            var e := RequestOf(lib, key, c, call.msgType, call.payload, 0, [] + WireAll(lib, frames, key), Eof);
            && s' == s.(lastPeerSeq := n, outSeq := NextSeq(n))
            && e.client == Client(NextSeq(n), n, Ready) && e.result == Accepted(EchoOf(n, call)) && e.rest == []
  {
    var reply := Wire(lib, EchoOf(n, call), key);
    ServeOne(lib, key, s, n, call);
    WireAllOne(lib, EchoOf(n, call), key);
    assert [] + reply == reply == reply + [];
    CallStep(lib, key, c, n, call, [], Eof);
    WritesFirst(lib, key, c, call.msgType, call.payload, 0, reply + [], Eof);
  }

  lemma ConnectedCons(lib: Library, key: bytes, c: Client, s: Session, n: uint32, calls: seq<Call>)
    requires calls != [] && calls[0].msgType in {Ping, Data}
    requires c == Client(n, n - 1, Ready) && s.state == Ready && s.lastPeerSeq < n && s.outSeq == n
    ensures var later := Connected(lib, key, Client(NextSeq(n), n, Ready), s.(lastPeerSeq := n, outSeq := NextSeq(n)), [], calls[1..]);
            Connected(lib, key, c, s, [], calls) == (later.0, later.1, later.2, [Accepted(EchoOf(n, calls[0]))] + later.3)
  {
    OneRound(lib, key, c, s, n, calls[0]);
  }

  lemma AllAcceptedReplies(n: nat, calls: seq<Call>)
    requires n + |calls| <= MAX_SEQ + 1 && calls != []
    ensures AllAccepted(RepliesFrom(n, calls)) == [Accepted(EchoOf(n, calls[0]))] + AllAccepted(RepliesFrom(n + 1, calls[1..]))
  {
    AllAcceptedCons(EchoOf(n, calls[0]), RepliesFrom(n + 1, calls[1..]));
  }

  /** In the closed loop every call gets the reply to itself, at once, and nothing is left
      unread. */
  lemma {:induction false} ConnectedEchoes(lib: Library, key: bytes, c: Client, s: Session, n: nat, calls: seq<Call>)
    requires n + |calls| <= MAX_SEQ + 1 && EchoCalls(calls)
    requires c.state == Ready && c.lastPeerSeq == n - 1 && (n <= MAX_SEQ ==> c.outSeq == n)
    requires s.state == Ready && s.lastPeerSeq < n && (n <= MAX_SEQ ==> s.outSeq == n)
    ensures Connected(lib, key, c, s, [], calls).2 == []
    ensures Connected(lib, key, c, s, [], calls).3 == AllAccepted(RepliesFrom(n, calls))
    decreases |calls|
  {
    if calls == [] {
      AllAcceptedCons(Frame(Hello, 0, [], 0), []);
    } else {
      ConnectedCons(lib, key, c, s, n, calls);
      ConnectedEchoes(lib, key, Client(NextSeq(n), n, Ready), s.(lastPeerSeq := n, outSeq := NextSeq(n)), n + 1, calls[1..]);
      AllAcceptedReplies(n, calls);
    }
  }

  /** A connection from its first byte: the handshake in the closed loop, and then the calls. */
  function Connection(lib: Library, key: bytes, hello: bytes, helloAck: Payload, calls: seq<Call>): (Received, seq<Received>)
  {
    var request := HandshakeOf(lib, key, NewClient(), hello, [], Eof).written;
    var (s, frames) := ServeFrom(lib, key, NewSession(helloAck), request, Eof);
    var h := HandshakeOf(lib, key, NewClient(), hello, WireAll(lib, frames, key), Eof);
    (h.result, Connected(lib, key, h.client, s, h.rest, calls).3)
  }

  lemma HelloRound(lib: Library, key: bytes, hello: Payload, helloAck: Payload)
    requires lib.decodeHello(hello).Ok? && lib.decodeHelloAck(helloAck).Ok?
    ensures var request := HandshakeOf(lib, key, NewClient(), hello, [], Eof).written;
            var (s, frames) := ServeFrom(lib, key, NewSession(helloAck), request, Eof);
            var h := HandshakeOf(lib, key, NewClient(), hello, WireAll(lib, frames, key), Eof);
            && s.state == Ready && s.lastPeerSeq == 0 && s.outSeq == 1
            && h.client == Client(1, 0, Ready) && h.rest == []
            && h.result == Accepted(Frame(HelloAck, 0, helloAck, 0))
  {
    var f, r := Frame(Hello, 0, hello, 0), Frame(HelloAck, 0, helloAck, 0);
    assert Wire(lib, f, key) + [] == Wire(lib, f, key) && Wire(lib, r, key) + [] == Wire(lib, r, key);
    ReadWire(lib, key, f, [], Eof);
    assert OnFrameOf(lib, NewSession(helloAck), f).1 == Reaction([r], false);
    assert ServeFrom(lib, key, NewSession(helloAck), Wire(lib, f, key), Eof).1 == [r];
    WireAllOne(lib, r, key);
    ClientShakesHands(lib, key, hello, helloAck, [], Eof);
  }

  /** Lockstep in the closed loop: after a valid handshake, the n-th of fewer than 2^32 calls,
      each made only when the one before has returned, returns the echo numbered n. */
  lemma ConnectionLockstep(lib: Library, key: bytes, hello: Payload, helloAck: Payload, calls: seq<Call>)
    requires lib.decodeHello(hello).Ok? && lib.decodeHelloAck(helloAck).Ok?
    requires EchoCalls(calls) && |calls| <= MAX_SEQ
    ensures Connection(lib, key, hello, helloAck, calls)
         == (Accepted(Frame(HelloAck, 0, helloAck, 0)), AllAccepted(RepliesFrom(1, calls)))
  {
    HelloRound(lib, key, hello, helloAck);
    var request := HandshakeOf(lib, key, NewClient(), hello, [], Eof).written;
    ConnectedEchoes(lib, key, Client(1, 0, Ready), ServeFrom(lib, key, NewSession(helloAck), request, Eof).0, 1, calls);
  }

  /** The bound is exact: once number 2^32 - 1 was accepted the client's next number is 0, and
      the server refuses every frame from then on. */
  lemma NumbersRunOut(lib: Library, key: bytes, s: Session, c: Client, t: MsgType, payload: Payload)
    requires Open(s) && s.lastPeerSeq == MAX_SEQ && c.outSeq == NextSeq(MAX_SEQ)
    ensures SendOf(lib, key, c, t, payload, 0).1 == Ok(Wire(lib, Frame(t, 0, payload, 0), key))
    ensures OnFrameOf(lib, s, Frame(t, 0, payload, 0)) == ErrorOf(lib, s, ErrSeq)
  {
  }

  // ---- against any server ----

  /** Accepted results carry increasing numbers above a bound. */
  predicate IncreasingAbove(n: int, results: seq<Received>)
  {
    && (forall i | 0 <= i < |results| && results[i].Accepted? :: results[i].frame.seqNo > n)
    && forall i, j | 0 <= i < j < |results| && results[i].Accepted? && results[j].Accepted? ::
         results[i].frame.seqNo < results[j].frame.seqNo
  }

  lemma IncreasingCons(n: int, n': int, r: Received, later: seq<Received>)
    requires if r.Accepted? then r.frame.seqNo == n' > n else n' == n
    requires IncreasingAbove(n', later)
    ensures IncreasingAbove(n, [r] + later)
  {
  }

  /** Whatever the stream holds, the frames a client accepts have increasing numbers, above
      every number it accepted before: a replayed frame is never returned. */
  lemma {:induction false} AcceptedNumbersIncrease(lib: Library, key: bytes, c: Client, calls: seq<Call>, stream: bytes, end: Ending)
    ensures |Talk(lib, key, c, calls, stream, end).1| == |calls|
    ensures IncreasingAbove(c.lastPeerSeq, Talk(lib, key, c, calls, stream, end).1)
    decreases |calls|
  {
    if calls != [] {
      var e := RequestOf(lib, key, c, calls[0].msgType, calls[0].payload, 0, stream, end);
      AcceptedNumbersIncrease(lib, key, e.client, calls[1..], e.rest, end);
      IncreasingCons(c.lastPeerSeq, e.client.lastPeerSeq, e.result, Talk(lib, key, e.client, calls[1..], e.rest, end).1);
    }
  }

  function Refusals(calls: seq<Call>): seq<Received>
  {
    if calls == [] then [] else [Failed(ErrState)] + Refusals(calls[1..])
  }

  lemma {:induction false} NotReadyIsSilent(lib: Library, key: bytes, c: Client, calls: seq<Call>, stream: bytes, end: Ending)
    requires c.state != Ready
    ensures Talk(lib, key, c, calls, stream, end).0 == [] && Talk(lib, key, c, calls, stream, end).1 == Refusals(calls)
    decreases |calls|
  {
    if calls != [] {
      NotReadyIsSilent(lib, key, c, calls[1..], stream, end);
    }
  }

  lemma HandshakeState(lib: Library, key: bytes, hello: bytes, stream: bytes, end: Ending)
    ensures var h := HandshakeOf(lib, key, NewClient(), hello, stream, end);
            && (h.client.state == Ready <==> h.result.Accepted?)
            && (h.result.Accepted? ==> h.result.frame.msgType == HelloAck && lib.decodeHelloAck(h.result.frame.payload).Ok?)
  {
  }

  /** The handshake succeeds only on a readable HELLO_ACK; after anything else the client
      writes nothing more, whatever it is asked. */
  lemma HandshakeGates(lib: Library, key: bytes, hello: bytes, stream: bytes, end: Ending, calls: seq<Call>)
    ensures var h := HandshakeOf(lib, key, NewClient(), hello, stream, end);
            && (h.result.Accepted? ==>
                  && h.client.state == Ready && h.result.frame.msgType == HelloAck
                  && lib.decodeHelloAck(h.result.frame.payload).Ok?)
            && (!h.result.Accepted? ==>
                  Talk(lib, key, h.client, calls, h.rest, end) == ([], Refusals(calls)))
  {
    HandshakeState(lib, key, hello, stream, end);
    var h := HandshakeOf(lib, key, NewClient(), hello, stream, end);
    if h.client.state != Ready {
      NotReadyIsSilent(lib, key, h.client, calls, h.rest, end);
    }
  }

  // ---- one call, from both sides ----

  /** What a ready client writes for a call: the frame asked for, under the next number. The number
      is used up even when the frame cannot be encoded and nothing is written. */
  lemma RequestWrites(lib: Library, key: bytes, c: Client, t: MsgType, payload: bytes, flags: int, stream: bytes, end: Ending)
    requires c.state == Ready
    ensures var f, e := Frame(t, c.outSeq, payload, flags), RequestOf(lib, key, c, t, payload, flags, stream, end);
            && e.client.outSeq == NextSeq(c.outSeq) && e.client.state == Ready
            && (Encodable(f) ==> e.written == Wire(lib, f, key))
            && (!Encodable(f) ==> e.written == [] && e.rest == stream && e.client.lastPeerSeq == c.lastPeerSeq
                                  && e.result == Failed(if |payload| > 0x10_0000 then ErrLength else ErrFlags))
  {
  }

  /** What it makes of the frame that comes next: returned when its number is above every number
      accepted before, and otherwise consumed and refused with ERR_SEQ. */
  lemma RequestReads(lib: Library, key: bytes, c: Client, t: MsgType, payload: Payload, f: WireFrame, rest: bytes, end: Ending)
    requires c.state == Ready
    ensures var e := RequestOf(lib, key, c, t, payload, 0, Wire(lib, f, key) + rest, end);
            && e.rest == rest
            && e.result == (if f.seqNo > c.lastPeerSeq then Accepted(f) else Failed(ErrSeq))
            && e.client.lastPeerSeq == (if f.seqNo > c.lastPeerSeq then f.seqNo else c.lastPeerSeq)
  {
    ReadWire(lib, key, f, rest, end);
  }

  /** And of bytes that are no frame: their own fault. */
  lemma RequestBreaks(lib: Library, key: bytes, c: Client, t: MsgType, payload: Payload, stream: bytes, end: Ending)
    requires c.state == Ready && |stream| >= 19 && HeaderFault(stream[..19]).Some?
    ensures RequestOf(lib, key, c, t, payload, 0, stream, end).result == Failed(HeaderFault(stream[..19]).value)
  {
    HeaderPrecedence(stream[..19]);
  }

  /** The handshake, by the frame that answers it: a readable HELLO_ACK makes the client READY; an
      ERROR fails it with the code it carries; an unreadable HELLO_ACK with the reason it cannot
      be read; anything else with ERR_STATE. Until then the client is in HANDSHAKE. */
  lemma HandshakeMeaning(lib: Library, key: bytes, hello: Payload, f: WireFrame, rest: bytes, end: Ending)
    ensures var h := HandshakeOf(lib, key, NewClient(), hello, Wire(lib, f, key) + rest, end);
            && h.written == Wire(lib, Frame(Hello, 0, hello, 0), key) && h.rest == rest
            && h.client.outSeq == 1 && h.client.lastPeerSeq == f.seqNo
            && h.client.state == (if f.msgType == HelloAck && lib.decodeHelloAck(f.payload).Ok? then Ready else Handshake)
            && h.result ==
                 if f.msgType == Error then
                   Failed(if lib.decodeError(f.payload).Ok? then lib.decodeError(f.payload).value else lib.decodeError(f.payload).code)
                 else if f.msgType != HelloAck then Failed(ErrState)
                 else if lib.decodeHelloAck(f.payload).Err? then Failed(lib.decodeHelloAck(f.payload).code)
                 else Accepted(f)
  {
    ReadWire(lib, key, f, rest, end);
  }
}
