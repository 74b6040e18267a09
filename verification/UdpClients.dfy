/** The stop-and-wait sender (`UdpClient.request` and `_await_reply`). Time enters as the
    datagrams that arrive before each retransmission timeout. */
module UdpClients {
  import opened Bytes
  import opened Protocol
  import opened Messages
  import opened Codec
  import opened Framing
  import opened Parsers
  import opened Sessions

  datatype Outcome = Returned(frame: WireFrame) | Raised(code: ErrorCode)

  /** The request in flight, and how many times it was sent again. */
  datatype Waiting = Waiting(msgType: MsgType, seqNo: uint32, payload: Payload, attempt: nat)

  datatype Client = Client(outSeq: uint32, waiting: Option<Waiting>, retransmits: nat)

  /** What one event does: the new state, the datagrams sent, and the end of the request. */
  datatype Stepped = Stepped(client: Client, sent: seq<bytes>, outcome: Option<Outcome>)

  function RequestFrame(w: Waiting): WireFrame
  {
    Frame(w.msgType, w.seqNo, w.payload, if w.attempt > 0 then 3 else 1)
  }

  /** The request takes a number even when its payload turns out too large to send. */
  function Start(lib: Library, key: bytes, c: Client, t: MsgType, payload: bytes): Stepped
  {
    var next := c.(outSeq := NextSeq(c.outSeq));
    if |payload| > MAX_PAYLOAD then Stepped(next, [], Some(Raised(ErrLength)))
    else
      var w := Waiting(t, c.outSeq, payload, 0);
      Stepped(next.(waiting := Some(w)), [Wire(lib, RequestFrame(w), key)], None)
  }

  function Timeout(lib: Library, key: bytes, maxRetries: nat, c: Client): Stepped
    requires c.waiting.Some?
  {
    var w := c.waiting.value;
    if w.attempt < maxRetries then
      var again := w.(attempt := w.attempt + 1);
      Stepped(c.(waiting := Some(again), retransmits := c.retransmits + 1), [Wire(lib, RequestFrame(again), key)], None)
    else
      Stepped(c.(waiting := None), [], Some(Raised(ErrTimeout)))
  }

  /** The number the first frame of an answer acknowledges. */
  function AckedBy(lib: Library, frames: seq<WireFrame>): Option<int>
  {
    if frames == [] || frames[0].msgType != Ack then None
    else
      match DecodeAck(lib, frames[0].payload)
      case Ok(n) => Some(n)
      case Err(_) => None
  }

  /** What a datagram means to the request with this number: nothing, or its end. */
  function VerdictOf(lib: Library, key: bytes, seqNo: uint32, data: bytes): Option<Outcome>
  {
    match SplitOf(lib, data, key)
    case Err(_) => None
    case Ok(frames) =>
      if AckedBy(lib, frames) != Some(seqNo) then None
      else
        var reply := frames[|frames| - 1];
        if reply.msgType != Error then Some(Returned(reply))
        else
          match lib.decodeError(reply.payload)
          case Ok(code) => Some(Raised(code))
          case Err(code) => Some(Raised(code))
  }

  function Receive(lib: Library, key: bytes, c: Client, data: bytes): Stepped
    requires c.waiting.Some?
  {
    match VerdictOf(lib, key, c.waiting.value.seqNo, data)
    case None => Stepped(c, [], None)
    case Some(o) => Stepped(c.(waiting := None), [], Some(o))
  }

  /** The first datagram that ends the request, if one does. */
  function Await(lib: Library, key: bytes, seqNo: uint32, datagrams: seq<bytes>): Option<Outcome>
  {
    if datagrams == [] then None
    else
      var o := VerdictOf(lib, key, seqNo, datagrams[0]);
      if o.Some? then o else Await(lib, key, seqNo, datagrams[1..])
  }

  /** Handing the datagrams to the request one by one, until one ends it. */
  function ReceiveAll(lib: Library, key: bytes, c: Client, datagrams: seq<bytes>): Stepped
    requires c.waiting.Some?
  {
    if datagrams == [] then Stepped(c, [], None)
    else
      var e := Receive(lib, key, c, datagrams[0]);
      if e.outcome.Some? then e else ReceiveAll(lib, key, c, datagrams[1..])
  }

  /** The waiting loop is a run of single receive events. */
  lemma {:induction false} AwaitIsReceiving(lib: Library, key: bytes, c: Client, datagrams: seq<bytes>)
    requires c.waiting.Some?
    ensures ReceiveAll(lib, key, c, datagrams) ==
            match Await(lib, key, c.waiting.value.seqNo, datagrams)
            case Some(o) => Stepped(c.(waiting := None), [], Some(o))
            case None => Stepped(c, [], None)
  {
    if datagrams != [] {
      AwaitIsReceiving(lib, key, c, datagrams[1..]);
    }
  }

  /** A request already sent, through the datagrams that arrive before each timeout. */
  function Attempts(lib: Library, key: bytes, maxRetries: nat, c: Client, script: seq<seq<bytes>>): Stepped
    requires c.waiting.Some?
    decreases |script|
  {
    if script == [] then Stepped(c, [], None)
    else
      match Await(lib, key, c.waiting.value.seqNo, script[0])
      case Some(o) => Stepped(c.(waiting := None), [], Some(o))
      case None =>
        var t := Timeout(lib, key, maxRetries, c);
        if t.outcome.Some? then t
        else After(t.sent, Attempts(lib, key, maxRetries, t.client, script[1..]))
  }

  function After(sent: seq<bytes>, later: Stepped): Stepped
  {
    later.(sent := sent + later.sent)
  }

  function Exchange(lib: Library, key: bytes, maxRetries: nat, c: Client, t: MsgType, payload: bytes, script: seq<seq<bytes>>)
    : Stepped
  {
    var start := Start(lib, key, c, t, payload);
    if start.outcome.Some? then start
    else After(start.sent, Attempts(lib, key, maxRetries, start.client, script))
  }

  lemma AttemptsFrom(lib: Library, key: bytes, maxRetries: nat, c: Client, script: seq<seq<bytes>>, i: nat)
    requires c.waiting.Some? && i < |script|
    ensures Attempts(lib, key, maxRetries, c, script[i..]) ==
            match Await(lib, key, c.waiting.value.seqNo, script[i])
            case Some(o) => Stepped(c.(waiting := None), [], Some(o))
            case None =>
              var t := Timeout(lib, key, maxRetries, c);
              if t.outcome.Some? then t
              else After(t.sent, Attempts(lib, key, maxRetries, t.client, script[i + 1..]))
  {
    assert script[i..][0] == script[i] && script[i..][1..] == script[i + 1..];
  }

  lemma AfterTwice(a: seq<bytes>, b: seq<bytes>, s: Stepped)
    ensures After(a, After(b, s)) == After(a + b, s)
  {
    assert a + (b + s.sent) == (a + b) + s.sent;
  }

  lemma AfterNothing(s: Stepped)
    ensures After([], s) == s && After(s.sent, s.(sent := [])) == s
  {
    assert [] + s.sent == s.sent == s.sent + [];
  }

  /** One turn of the retry loop, for what the whole request comes to. */
  lemma AttemptTurn(lib: Library, key: bytes, maxRetries: nat, c: Client, script: seq<seq<bytes>>, i: nat, out: seq<bytes>)
    requires c.waiting.Some? && i < |script|
    ensures var t := Timeout(lib, key, maxRetries, c);
            After(out, Attempts(lib, key, maxRetries, c, script[i..])) ==
              match Await(lib, key, c.waiting.value.seqNo, script[i])
              case Some(o) => Stepped(c.(waiting := None), out, Some(o))
              case None =>
                if t.outcome.Some? then Stepped(t.client, out, t.outcome)
                else After(out + t.sent, Attempts(lib, key, maxRetries, t.client, script[i + 1..]))
  {
    var t := Timeout(lib, key, maxRetries, c);
    AttemptsFrom(lib, key, maxRetries, c, script, i);
    AfterNothing(Stepped(c, out, None));
    if t.outcome.None? {
      AfterTwice(out, t.sent, Attempts(lib, key, maxRetries, t.client, script[i + 1..]));
    }
  }

  class UdpClient {
    const lib: Library
    const key: bytes
    const maxRetries: nat
    var outSeq: uint32
    var retransmits: nat
    /** Every datagram handed to the socket so far. */
    var sent: seq<bytes>

    constructor (lib: Library, key: bytes, maxRetries: nat)
      ensures this.lib == lib && this.key == key && this.maxRetries == maxRetries
      ensures outSeq == 0 && retransmits == 0 && sent == []
    {
      this.lib, this.key, this.maxRetries := lib, key, maxRetries;
      outSeq, retransmits, sent := 0, 0, [];
    }

    /** Reads the queue until an answer to `seqNo` comes up; None is the timeout. An empty
        datagram would make the source fail on the missing first frame. */
    method AwaitReply(seqNo: uint32, datagrams: seq<bytes>) returns (o: Option<Outcome>)
      requires [] !in datagrams
      ensures o == Await(lib, key, seqNo, datagrams)
    {
      var i := 0;
      while i < |datagrams|
        invariant 0 <= i <= |datagrams|
        invariant Await(lib, key, seqNo, datagrams) == Await(lib, key, seqNo, datagrams[i..])
      {
        var frames := SplitDatagram(lib, datagrams[i], key);
        var answers := false;
        if frames.Ok? {
          NonEmptySplit(lib, datagrams[i], key);
          if frames.value[0].msgType == Ack {
            var acked := DecodeAck(lib, frames.value[0].payload);
            answers := acked.Ok? && acked.value == seqNo;
          }
        }
        if answers {
          var reply := frames.value[|frames.value| - 1];
          if reply.msgType == Error {
            var code := lib.decodeError(reply.payload);
            return Some(Raised(if code.Ok? then code.value else code.code));
          }
          return Some(Returned(reply));
        }
        i := i + 1;
      }
      o := None;
    }

    method Request(t: MsgType, payload: bytes, script: seq<seq<bytes>>) returns (o: Outcome)
      requires |script| == maxRetries + 1 && forall d | d in script :: [] !in d
      modifies this
      ensures var e := Exchange(lib, key, maxRetries, Client(old(outSeq), None, old(retransmits)), t, payload, script);
              && e.outcome == Some(o)
              && sent == old(sent) + e.sent
              && e.client == Client(outSeq, None, retransmits)
    {
      ghost var start := Start(lib, key, Client(outSeq, None, retransmits), t, payload);
      ghost var c := start.client;
      var seqNo := outSeq;
      outSeq := NextSeq(outSeq);
      ghost var out := start.sent;
      var attempt := 0;
      while attempt <= maxRetries
        invariant 0 <= attempt <= maxRetries + 1
        invariant outSeq == NextSeq(seqNo)
        invariant attempt > 0 ==> |payload| <= MAX_PAYLOAD
        invariant attempt <= maxRetries && |payload| <= MAX_PAYLOAD ==>
          && c.waiting == Some(Waiting(t, seqNo, payload, attempt))
          && c.outSeq == outSeq
          && c.retransmits == retransmits + (if attempt > 0 then 1 else 0)
          && old(sent) + out == sent + [Wire(lib, RequestFrame(c.waiting.value), key)]
          && Exchange(lib, key, maxRetries, Client(old(outSeq), None, old(retransmits)), t, payload, script)
             == After(out, Attempts(lib, key, maxRetries, c, script[attempt..]))
        invariant attempt == 0 ==> sent == old(sent) && retransmits == old(retransmits)
        invariant attempt == maxRetries + 1 ==>
          Exchange(lib, key, maxRetries, Client(old(outSeq), None, old(retransmits)), t, payload, script)
          == Stepped(Client(outSeq, None, retransmits), out, Some(Raised(ErrTimeout)))
          && sent == old(sent) + out
      {
        var raw := Encode(lib, Frame(t, seqNo, payload, if attempt > 0 then 3 else 1), key);
        if raw.Err? {
          return Raised(raw.code);
        }
        sent := sent + [raw.value];
        if attempt > 0 {
          retransmits := retransmits + 1;
        }
        var verdict := AwaitReply(seqNo, script[attempt]);
        AttemptTurn(lib, key, maxRetries, c, script, attempt, out);
        if verdict.Some? {
          return verdict.value;
        }
        if attempt < maxRetries {
          ghost var timeout := Timeout(lib, key, maxRetries, c);
          out, c := out + timeout.sent, timeout.client;
        }
        attempt := attempt + 1;
      }
      o := Raised(ErrTimeout);
    }
  }

  lemma NonEmptySplit(lib: Library, data: bytes, key: bytes)
    requires data != [] && SplitOf(lib, data, key).Ok?
    ensures SplitOf(lib, data, key).value != []
  {
    SplitIffWireAll(lib, data, SplitOf(lib, data, key).value, key);
  }

  // ---- a whole request, told by what was sent and what came back ----

  /** Attempt i was answered, or it was the last one; no earlier attempt was answered. */
  predicate EndsAt(lib: Library, key: bytes, seqNo: uint32, script: seq<seq<bytes>>, i: nat, outcome: Option<Outcome>)
    requires i < |script|
  {
    && (forall j | 0 <= j < i :: Await(lib, key, seqNo, script[j]).None?)
    && match Await(lib, key, seqNo, script[i])
       case Some(o) => outcome == Some(o)
       case None => i == |script| - 1 && outcome == Some(Raised(ErrTimeout))
  }

  lemma EndsLater(lib: Library, key: bytes, seqNo: uint32, script: seq<seq<bytes>>, i: nat, outcome: Option<Outcome>)
    requires script != [] && Await(lib, key, seqNo, script[0]).None?
    requires i < |script| - 1 && EndsAt(lib, key, seqNo, script[1..], i, outcome)
    ensures EndsAt(lib, key, seqNo, script, i + 1, outcome)
  {
    forall j | 0 <= j < i + 1 ensures Await(lib, key, seqNo, script[j]).None? {
      if j > 0 { assert script[1..][j - 1] == script[j]; }
    }
    assert script[1..][i] == script[i + 1];
  }

  /** A waiting request, seen as what its remaining attempts sent and how it ended. */
  predicate Transmitted(lib: Library, key: bytes, c: Client, w: Waiting, script: seq<seq<bytes>>, e: Stepped)
  {
    && |e.sent| < |script|
    && e.client == Client(c.outSeq, None, c.retransmits + |e.sent|)
    && EndsAt(lib, key, w.seqNo, script, |e.sent|, e.outcome)
    && forall i | 0 <= i < |e.sent| :: e.sent[i] == Wire(lib, Frame(w.msgType, w.seqNo, w.payload, 3), key)
  }

  lemma TransmittedLater(lib: Library, key: bytes, c: Client, c': Client, w: Waiting, w': Waiting, script: seq<seq<bytes>>, later: Stepped)
    requires script != [] && Await(lib, key, w.seqNo, script[0]).None?
    requires w' == w.(attempt := w.attempt + 1) && c'.outSeq == c.outSeq && c'.retransmits == c.retransmits + 1
    requires Transmitted(lib, key, c', w', script[1..], later)
    ensures Transmitted(lib, key, c, w, script, After([Wire(lib, RequestFrame(w'), key)], later))
  {
    EndsLater(lib, key, w.seqNo, script, |later.sent|, later.outcome);
  }

  lemma {:induction false} AttemptsMeaning(lib: Library, key: bytes, maxRetries: nat, c: Client, script: seq<seq<bytes>>)
    requires c.waiting.Some? && |script| + c.waiting.value.attempt == maxRetries + 1 && script != []
    ensures Transmitted(lib, key, c, c.waiting.value, script, Attempts(lib, key, maxRetries, c, script))
    decreases |script|
  {
    var w := c.waiting.value;
    if Await(lib, key, w.seqNo, script[0]).None? {
      var t := Timeout(lib, key, maxRetries, c);
      if t.outcome.None? {
        AttemptsMeaning(lib, key, maxRetries, t.client, script[1..]);
        var later := Attempts(lib, key, maxRetries, t.client, script[1..]);
        TransmittedLater(lib, key, c, t.client, w, t.client.waiting.value, script, later);
      }
    }
  }

  /** A request sends the same message up to `maxRetries + 1` times, flagged as a
      retransmission from the second time on and always under the number it took; it stops at
      the first attempt that is answered, with that answer, and raises ERR_TIMEOUT when none is;
      and it counts its retransmissions. */
  lemma ExchangeMeaning(lib: Library, key: bytes, maxRetries: nat, c: Client, t: MsgType, payload: Payload, script: seq<seq<bytes>>)
    requires |script| == maxRetries + 1
    ensures var e := Exchange(lib, key, maxRetries, c, t, payload, script);
            && 1 <= |e.sent| <= maxRetries + 1
            && e.client == Client(NextSeq(c.outSeq), None, c.retransmits + |e.sent| - 1)
            && EndsAt(lib, key, c.outSeq, script, |e.sent| - 1, e.outcome)
            && forall i | 0 <= i < |e.sent| ::
                 e.sent[i] == Wire(lib, Frame(t, c.outSeq, payload, if i == 0 then 1 else 3), key)
  {
    var start := Start(lib, key, c, t, payload);
    AttemptsMeaning(lib, key, maxRetries, start.client, script);
  }

  // ---- what ends a request, told by the datagram ----

  /** The code an ERROR frame raises: the one it carries, or why it cannot be read. */
  function CodeIn(lib: Library, payload: bytes): ErrorCode
  {
    match lib.decodeError(payload)
    case Ok(code) => code
    case Err(code) => code
  }

  /** A datagram that starts with the ACK of a request ends it, with the code of its last frame
      if that is an ERROR and with the frame itself otherwise; any other list of frames does not. */
  lemma VerdictOnFrames(lib: Library, key: bytes, seqNo: uint32, frames: seq<WireFrame>)
    ensures VerdictOf(lib, key, seqNo, WireAll(lib, frames, key)) ==
              if frames != [] && frames[0].msgType == Ack && DecodeAck(lib, frames[0].payload) == Ok(seqNo) then
                var last := frames[|frames| - 1];
                Some(if last.msgType == Error then Raised(CodeIn(lib, last.payload)) else Returned(last))
              else None
  {
    SplitIffWireAll(lib, WireAll(lib, frames, key), frames, key);
  }

  /** And nothing ends a request but such a datagram. */
  lemma VerdictNeedsFrames(lib: Library, key: bytes, seqNo: uint32, data: bytes) returns (frames: seq<WireFrame>)
    requires VerdictOf(lib, key, seqNo, data).Some?
    ensures data == WireAll(lib, frames, key) && frames != []
    ensures frames[0].msgType == Ack && DecodeAck(lib, frames[0].payload) == Ok(seqNo)
  {
    frames := SplitOf(lib, data, key).value;
    SplitIffWireAll(lib, data, frames, key);
  }

  /** An answer that ends in an ERROR raises the code the ERROR carries, whatever stands between
      the ACK and it. */
  lemma ErrorAnswerRaises(lib: Library, key: bytes, seqNo: uint32, ackNo: uint32, ackFlags: int, middle: seq<WireFrame>, error: WireFrame)
    requires 0 <= ackFlags <= KNOWN_FLAGS && error.msgType == Error
    ensures VerdictOf(lib, key, seqNo, WireAll(lib, [Frame(Ack, ackNo, EncodeAck(seqNo), ackFlags)] + middle + [error], key))
         == Some(Raised(CodeIn(lib, error.payload)))
  {
    AckRoundTrip(lib, seqNo);
    VerdictOnFrames(lib, key, seqNo, [Frame(Ack, ackNo, EncodeAck(seqNo), ackFlags)] + middle + [error]);
  }

  /** Datagram i is the first one that ends the request, and with this outcome. */
  predicate FirstToEnd(lib: Library, key: bytes, seqNo: uint32, datagrams: seq<bytes>, i: nat, o: Outcome)
    requires i < |datagrams|
  {
    && VerdictOf(lib, key, seqNo, datagrams[i]) == Some(o)
    && forall j | 0 <= j < i :: VerdictOf(lib, key, seqNo, datagrams[j]).None?
  }

  /** The waiting loop ends with the first datagram that ends the request, */
  lemma {:induction false} AwaitFinds(lib: Library, key: bytes, seqNo: uint32, datagrams: seq<bytes>) returns (i: nat)
    requires Await(lib, key, seqNo, datagrams).Some?
    ensures i < |datagrams| && FirstToEnd(lib, key, seqNo, datagrams, i, Await(lib, key, seqNo, datagrams).value)
  {
    i := 0;
    if VerdictOf(lib, key, seqNo, datagrams[0]).None? {
      var k := AwaitFinds(lib, key, seqNo, datagrams[1..]);
      i := k + 1;
      assert forall j | 0 < j < i :: datagrams[j] == datagrams[1..][j - 1];
    }
  }

  /** whichever that is. */
  lemma {:induction false} AwaitEnds(lib: Library, key: bytes, seqNo: uint32, datagrams: seq<bytes>, i: nat, o: Outcome)
    requires i < |datagrams| && FirstToEnd(lib, key, seqNo, datagrams, i, o)
    ensures Await(lib, key, seqNo, datagrams) == Some(o)
  {
    if i > 0 {
      assert forall j | 0 <= j < i :: datagrams[1..][j] == datagrams[j + 1];
      AwaitEnds(lib, key, seqNo, datagrams[1..], i - 1, o);
    }
  }

  /** A payload over the limit is refused before anything is sent, and its number is used up. */
  lemma OversizedExchange(lib: Library, key: bytes, maxRetries: nat, c: Client, t: MsgType, payload: bytes, script: seq<seq<bytes>>)
    requires |payload| > 0x10_0000
    ensures Exchange(lib, key, maxRetries, c, t, payload, script)
         == Stepped(c.(outSeq := NextSeq(c.outSeq)), [], Some(Raised(ErrLength)))
  {
  }
}
