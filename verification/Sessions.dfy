/** The server's connection state machine (`session.py`). The identity a session is created
    with is represented by the HELLO_ACK payload it will send. */
module Sessions {
  import opened Bytes
  import opened Protocol
  import opened Messages

  datatype State = New | Handshake | Ready | Closing | Closed

  datatype Session = Session(
    helloAck: Payload,
    state: State,
    hello: Option<HelloInfo>,
    outSeq: uint32,
    lastPeerSeq: int)

  datatype Reaction = Reaction(frames: seq<WireFrame>, close: bool)

  function NewSession(helloAck: Payload): Session
  {
    Session(helloAck, New, None, 0, -1)
  }

  /** `(n + 1) & MAX_SEQ` */
  function NextSeq(n: uint32): uint32
  {
    if n == MAX_SEQ then 0 else n + 1
  }

  /** One outbound frame takes one number of the session's own sequence. */
  function Emit(s: Session, t: MsgType, payload: Payload): (Session, WireFrame)
  {
    (s.(outSeq := NextSeq(s.outSeq)), Frame(t, s.outSeq, payload, 0))
  }

  function AckOf(s: Session, peerSeq: uint32): (Session, WireFrame)
  {
    Emit(s, Ack, EncodeAck(peerSeq))
  }

  function ReplyOf(s: Session, t: MsgType, payload: Payload, close: bool): (Session, Reaction)
  {
    var (s', f) := Emit(s, t, payload);
    (s', Reaction([f], close))
  }

  function ErrorOf(lib: Library, s: Session, code: ErrorCode): (Session, Reaction)
  {
    ReplyOf(s.(state := Closed), Error, lib.encodeError(code), true)
  }

  function IdleOf(s: Session): (Session, Reaction)
  {
    (s.(state := Closed), Reaction([], true))
  }

  /** The handler behind the sequence check; Err is a raised `ProtocolError`. */
  function DispatchOf(lib: Library, s: Session, f: WireFrame): Result<(Session, Reaction)>
  {
    if s.state == New then
      if f.msgType != Hello then Err(ErrState)
      else
        var hello :- lib.decodeHello(f.payload);
        Ok(ReplyOf(s.(hello := Some(hello), state := Ready), HelloAck, s.helloAck, false))
    else
      match f.msgType
      case Hello => Err(ErrState)
      case HelloAck => Err(ErrState)
      case Ping => Ok(ReplyOf(s, Pong, f.payload, false))
      case Pong => Ok((s, Reaction([], false)))
      case Data => Ok(ReplyOf(s, Data, f.payload, false))
      case Ack => Ok((s, Reaction([], false)))
      case Bye => Ok(ReplyOf(s.(state := Closed), Bye, [], true))
      case Error =>
        var code :- lib.decodeError(f.payload);
        Ok((s.(state := Closed), Reaction([], true)))
  }

  function OnFrameOf(lib: Library, s: Session, f: WireFrame): (Session, Reaction)
  {
    if s.state == Closing || s.state == Closed then (s, Reaction([], true))
    else if f.seqNo <= s.lastPeerSeq then ErrorOf(lib, s, ErrSeq)
    else
      var accepted := s.(lastPeerSeq := f.seqNo);
      match DispatchOf(lib, accepted, f)
      case Ok(result) => result
      case Err(code) => ErrorOf(lib, accepted, code)
  }

  class ServerSession {
    const lib: Library
    const helloAck: Payload
    var state: State
    var hello: Option<HelloInfo>
    var outSeq: uint32
    var lastPeerSeq: int

    function Model(): Session
      reads this
    {
      Session(helloAck, state, hello, outSeq, lastPeerSeq)
    }

    constructor (lib: Library, helloAck: Payload)
      ensures this.lib == lib && Model() == NewSession(helloAck)
    {
      this.lib, this.helloAck := lib, helloAck;
      state, hello, outSeq, lastPeerSeq := New, None, 0, -1;
    }

    method MakeFrame(t: MsgType, payload: Payload) returns (f: WireFrame)
      modifies this
      ensures (Model(), f) == Emit(old(Model()), t, payload)
    {
      var seqNo := outSeq;
      outSeq := if outSeq == MAX_SEQ then 0 else outSeq + 1;
      f := Frame(t, seqNo, payload, 0);
    }

    method RaiseError(code: ErrorCode) returns (r: Reaction)
      modifies this
      ensures (Model(), r) == ErrorOf(lib, old(Model()), code)
    {
      state := Closed;
      var f := MakeFrame(Error, lib.encodeError(code));
      r := Reaction([f], true);
    }

    method MakeAck(peerSeq: uint32) returns (f: WireFrame)
      modifies this
      ensures (Model(), f) == AckOf(old(Model()), peerSeq)
    {
      f := MakeFrame(Ack, EncodeAck(peerSeq));
    }

    method OnHello(f: WireFrame) returns (r: Result<Reaction>)
      requires state == New && f.msgType == Hello
      modifies this
      ensures match DispatchOf(lib, old(Model()), f)
              case Ok(result) => r == Ok(result.1) && Model() == result.0
              case Err(code) => r == Err(code) && Model() == old(Model())
    {
      var decoded := lib.decodeHello(f.payload);
      if decoded.Err? {
        return Err(decoded.code);
      }
      hello := Some(decoded.value);
      state := Ready;
      var answer := MakeFrame(HelloAck, helloAck);
      r := Ok(Reaction([answer], false));
    }

    method Dispatch(f: WireFrame) returns (r: Result<Reaction>)
      modifies this
      ensures match DispatchOf(lib, old(Model()), f)
              case Ok(result) => r == Ok(result.1) && Model() == result.0
              case Err(code) => r == Err(code) && Model() == old(Model())
    {
      if state == New {
        if f.msgType != Hello {
          return Err(ErrState);
        }
        r := OnHello(f);
        return;
      }
      match f.msgType {
        case Hello =>
          r := Err(ErrState);
        case HelloAck =>
          r := Err(ErrState);
        case Ping =>
          var answer := MakeFrame(Pong, f.payload);
          r := Ok(Reaction([answer], false));
        case Pong =>
          r := Ok(Reaction([], false));
        case Data =>
          var answer := MakeFrame(Data, f.payload);
          r := Ok(Reaction([answer], false));
        case Ack =>
          r := Ok(Reaction([], false));
        case Bye =>
          state := Closed;
          var answer := MakeFrame(Bye, []);
          r := Ok(Reaction([answer], true));
        case Error =>
          var code := lib.decodeError(f.payload);
          if code.Err? {
            return Err(code.code);
          }
          state := Closed;
          r := Ok(Reaction([], true));
      }
    }

    method OnFrame(f: WireFrame) returns (r: Reaction)
      modifies this
      ensures (Model(), r) == OnFrameOf(lib, old(Model()), f)
    {
      if state == Closing || state == Closed {
        return Reaction([], true);
      }
      if f.seqNo <= lastPeerSeq {
        r := RaiseError(ErrSeq);
        return;
      }
      lastPeerSeq := f.seqNo;
      var result := Dispatch(f);
      match result {
        case Ok(reaction) => r := reaction;
        case Err(code) => r := RaiseError(code);
      }
    }

    method OnProtocolError(code: ErrorCode) returns (r: Reaction)
      modifies this
      ensures (Model(), r) == ErrorOf(lib, old(Model()), code)
    {
      r := RaiseError(code);
    }

    method OnIdleTimeout() returns (r: Reaction)
      modifies this
      ensures (Model(), r) == IdleOf(old(Model()))
    {
      state := Closed;
      r := Reaction([], true);
    }
  }

  // ---- what one frame does to an open session ----

  predicate Open(s: Session)
  {
    s.state == New || s.state == Ready
  }

  /** A frame the protocol allows here: the handshake first, then requests and echoes. */
  predicate Welcome(lib: Library, s: Session, f: WireFrame)
  {
    && f.seqNo > s.lastPeerSeq
    && (if s.state == New then f.msgType == Hello && lib.decodeHello(f.payload).Ok?
        else f.msgType in {Ping, Pong, Data, Ack})
  }

  /** What the service owes for a request: the type and payload of the reply, if any. */
  function Owed(helloAck: Payload, f: WireFrame): seq<(MsgType, Payload)>
  {
    match f.msgType
    case Hello => [(HelloAck, helloAck)]
    case Ping => [(Pong, f.payload)]
    case Data => [(Data, f.payload)]
    case Bye => [(Bye, [])]
    case _ => []
  }

  /** Why a frame is refused: the sequence rule first, then what its place in the session does
      not allow, or what its own payload fails to say. */
  function ReasonOf(lib: Library, s: Session, f: WireFrame): ErrorCode
  {
    if f.seqNo <= s.lastPeerSeq then ErrSeq
    else if s.state == New && f.msgType == Hello && lib.decodeHello(f.payload).Err? then lib.decodeHello(f.payload).code
    else if s.state == Ready && f.msgType == Error && lib.decodeError(f.payload).Err? then lib.decodeError(f.payload).code
    else ErrState
  }

  /** The frames that carry the given contents, numbered from a session's next number. */
  function Numbered(outSeq: uint32, contents: seq<(MsgType, Payload)>): seq<WireFrame>
    decreases |contents|
  {
    if contents == [] then []
    else [Frame(contents[0].0, outSeq, contents[0].1, 0)] + Numbered(NextSeq(outSeq), contents[1..])
  }

  function Advance(outSeq: uint32, n: nat): uint32
    decreases n
  {
    if n == 0 then outSeq else Advance(NextSeq(outSeq), n - 1)
  }

  /** An open session stays open exactly on a welcome frame, which it then answers with what
      it owes. Any other frame closes it: with BYE for a BYE, quietly for a readable ERROR, and
      otherwise with an ERROR that gives the reason. */
  lemma OnFrameMeaning(lib: Library, s: Session, f: WireFrame)
    requires Open(s)
    ensures var (s', r) := OnFrameOf(lib, s, f);
            && (!r.close <==> Welcome(lib, s, f))
            && s'.state == (if r.close then Closed else Ready)
            && s'.lastPeerSeq == (if f.seqNo > s.lastPeerSeq then f.seqNo else s.lastPeerSeq)
            && s'.helloAck == s.helloAck
            && s'.hello == (if s.state == New && !r.close then Some(lib.decodeHello(f.payload).value) else s.hello)
            && |r.frames| <= 1
            && s'.outSeq == Advance(s.outSeq, |r.frames|)
            && (!r.close ==> r.frames == Numbered(s.outSeq, Owed(s.helloAck, f)))
            && (r.close && r.frames == [] ==> s.state == Ready && f.msgType == Error)
            && (r.close && r.frames != [] && f.msgType == Bye && s.state == Ready && f.seqNo > s.lastPeerSeq ==>
                  r.frames == Numbered(s.outSeq, [(Bye, [])]))
            && (r.close && r.frames != [] && !(f.msgType == Bye && s.state == Ready && f.seqNo > s.lastPeerSeq) ==>
                  r.frames == Numbered(s.outSeq, [(Error, lib.encodeError(ReasonOf(lib, s, f)))]))
  {
    assert Numbered(NextSeq(s.outSeq), []) == [];
  }

  // ---- numbering ----

  predicate NumberedFrom(outSeq: uint32, frames: seq<WireFrame>)
  {
    forall i | 0 <= i < |frames| :: frames[i].seqNo == Advance(outSeq, i) && frames[i].flags == 0
  }

  lemma {:induction false} AdvanceIsModular(n: uint32, k: nat)
    ensures Advance(n, k) == (n + k) % 0x1_0000_0000
    decreases k
  {
    if k > 0 {
      AdvanceIsModular(NextSeq(n), k - 1);
    }
  }

  lemma NumberedCons(outSeq: uint32, x: WireFrame, later: seq<WireFrame>)
    requires x.seqNo == outSeq && x.flags == 0 && NumberedFrom(NextSeq(outSeq), later)
    ensures NumberedFrom(outSeq, [x] + later)
  {
  }

  lemma {:induction false} NumberedIsFrom(outSeq: uint32, contents: seq<(MsgType, Payload)>)
    ensures |Numbered(outSeq, contents)| == |contents| && NumberedFrom(outSeq, Numbered(outSeq, contents))
    decreases |contents|
  {
    if contents != [] {
      NumberedIsFrom(NextSeq(outSeq), contents[1..]);
      NumberedCons(outSeq, Frame(contents[0].0, outSeq, contents[0].1, 0), Numbered(NextSeq(outSeq), contents[1..]));
    }
  }

  lemma {:induction false} AdvanceTwice(outSeq: uint32, a: nat, b: nat)
    ensures Advance(Advance(outSeq, a), b) == Advance(outSeq, a + b)
    decreases a
  {
    if a > 0 {
      AdvanceTwice(NextSeq(outSeq), a - 1, b);
    }
  }

  /** Two stretches of frames, the second numbered where the first one ends. */
  lemma NumberedConcat(outSeq: uint32, a: seq<WireFrame>, b: seq<WireFrame>)
    requires NumberedFrom(outSeq, a) && NumberedFrom(Advance(outSeq, |a|), b)
    ensures NumberedFrom(outSeq, a + b)
  {
    forall i | |a| <= i < |a + b| ensures (a + b)[i].seqNo == Advance(outSeq, i) && (a + b)[i].flags == 0 {
      AdvanceTwice(outSeq, |a|, i - |a|);
      assert (a + b)[i] == b[i - |a|];
    }
  }

  /** What an open session sends for a frame: what it owes when the frame is welcome, BYE for a
      BYE, nothing for a readable ERROR, and otherwise an ERROR with the reason. */
  function ReplyTo(lib: Library, s: Session, f: WireFrame): seq<(MsgType, Payload)>
  {
    if Welcome(lib, s, f) then Owed(s.helloAck, f)
    else if s.state == Ready && f.seqNo > s.lastPeerSeq && f.msgType == Bye then [(Bye, [])]
    else if s.state == Ready && f.seqNo > s.lastPeerSeq && f.msgType == Error && lib.decodeError(f.payload).Ok? then []
    else [(Error, lib.encodeError(ReasonOf(lib, s, f)))]
  }

  lemma OnFrameReplies(lib: Library, s: Session, f: WireFrame)
    requires Open(s)
    ensures var (s', r) := OnFrameOf(lib, s, f);
            r.frames == Numbered(s.outSeq, ReplyTo(lib, s, f)) && s'.outSeq == Advance(s.outSeq, |r.frames|)
  {
    OnFrameMeaning(lib, s, f);
    assert Numbered(NextSeq(s.outSeq), []) == [];
  }

  // ---- when a frame reaches the handler, and when it is served ----

  /** A frame that gets past the state and sequence checks. */
  predicate Runs(s: Session, f: WireFrame)
  {
    s.state != Closing && s.state != Closed && f.seqNo > s.lastPeerSeq
  }

  /** A frame reaches `_dispatch` exactly when the session records its number. Then the reaction
      is the handler's, or the ERROR it raises; otherwise it is silence after a close or ERR_SEQ,
      whatever the handler would do. */
  lemma RunsMeaning(lib: Library, s: Session, f: WireFrame)
    ensures Runs(s, f) <==> OnFrameOf(lib, s, f).0.lastPeerSeq != s.lastPeerSeq
    ensures Runs(s, f) ==>
              OnFrameOf(lib, s, f) ==
              match DispatchOf(lib, s.(lastPeerSeq := f.seqNo), f)
              case Ok(result) => result
              case Err(code) => ErrorOf(lib, s.(lastPeerSeq := f.seqNo), code)
    ensures !Runs(s, f) ==>
              OnFrameOf(lib, s, f) == if Open(s) || s.state == Handshake then ErrorOf(lib, s, ErrSeq) else (s, Reaction([], true))
  {
  }

  /** `_dispatch` would serve the frame instead of raising. */
  predicate Accepts(lib: Library, s: Session, f: WireFrame)
  {
    DispatchOf(lib, s.(lastPeerSeq := f.seqNo), f).Ok?
  }

  /** A new session serves a readable HELLO only; a later one serves the requests, the echoes, a
      BYE and a readable ERROR. */
  lemma AcceptsMeaning(lib: Library, s: Session, f: WireFrame)
    requires Open(s)
    ensures Accepts(lib, s, f) <==>
              if s.state == New then f.msgType == Hello && lib.decodeHello(f.payload).Ok?
              else f.msgType in {Ping, Pong, Data, Ack, Bye} || (f.msgType == Error && lib.decodeError(f.payload).Ok?)
  {
  }

  /** A frame that reaches the handler and is served is never answered with ERROR, and every other
      frame of an open session is. */
  lemma ServedMeansNoError(lib: Library, s: Session, f: WireFrame)
    requires Open(s)
    ensures Runs(s, f) && Accepts(lib, s, f) <==> forall x | x in OnFrameOf(lib, s, f).1.frames :: x.msgType != Error
  {
    RunsMeaning(lib, s, f);
    var r := OnFrameOf(lib, s, f).1;
    assert r.frames != [] ==> r.frames[0] in r.frames;
  }
}
