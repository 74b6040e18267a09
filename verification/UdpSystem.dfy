/** One client and the server's peer for its address, joined by a network that may lose,
    duplicate and reorder datagrams without bound: what was sent stays deliverable for ever.
    Third parties may inject any bytes that do not pass the MAC. */
module UdpSystem {
  import opened Bytes
  import opened Protocol
  import opened Messages
  import opened Codec
  import opened Framing
  import opened Parsers
  import opened Sessions
  import opened Dedup
  import opened UdpPeer
  import opened UdpClients

  datatype Request = Request(msgType: MsgType, payload: bytes)

  /** The secret and the sizes the two ends were started with. */
  datatype Config = Config(lib: Library, key: bytes, size: nat, maxRetries: nat)

  /** Beside the two ends and the network: every request issued so far (request n has number
      n), how each one ended, and every frame that reached `_dispatch` or was executed. */
  datatype System = System(
    client: Client,
    life: Life,
    toServer: set<bytes>,
    toClient: set<bytes>,
    issued: seq<Request>,
    outcomes: map<nat, Outcome>,
    dispatched: seq<WireFrame>,
    served: seq<WireFrame>)

  datatype Action =
    | Issue(req: Request)
    | TimeOut
    | ClientReceives(data: bytes)
    | ServerReceives(data: bytes, helloAck: Payload)

  function Init(): System
  {
    System(Client(0, None, 0), Life(None, []), {}, {}, [], map[], [], [])
  }

  /** One request at a time, and at most 2^32 of them. */
  ghost predicate Enabled(cfg: Config, s: System, a: Action)
  {
    match a
    case Issue(req) => s.client.waiting.None? && |s.issued| <= MAX_SEQ
    case TimeOut => s.client.waiting.Some?
    case ClientReceives(data) =>
      s.client.waiting.Some? && data != [] && (data in s.toClient || SplitOf(cfg.lib, data, cfg.key).Err?)
    case ServerReceives(data, _) => data in s.toServer || Decode(cfg.lib, data, Some(cfg.key)).Err?
  }

  function ClientMoved(s: System, e: Stepped, n: nat): System
  {
    s.(client := e.client,
       toServer := s.toServer + (set d | d in e.sent),
       outcomes := if e.outcome.Some? then s.outcomes[n := e.outcome.value] else s.outcomes)
  }

  function ServerMoved(cfg: Config, s: System, f: WireFrame, helloAck: Payload): System
  {
    var d := Delivery(f, helloAck);
    var answer := PeerStep(cfg.lib, cfg.key, cfg.size, s.life.peer, f, helloAck).1;
    s.(life := LifeStep(cfg.lib, cfg.key, cfg.size, s.life, d),
       toClient := if answer.reply == [] then s.toClient else s.toClient + {answer.reply},
       dispatched := if Dispatches(s.life.peer, f, helloAck) then s.dispatched + [f] else s.dispatched,
       served := if Serves(cfg.lib, s.life.peer, f, helloAck) then s.served + [f] else s.served)
  }

  function Apply(cfg: Config, s: System, a: Action): System
    requires Enabled(cfg, s, a)
  {
    match a
    case Issue(req) =>
      ClientMoved(s.(issued := s.issued + [req]),
                  Start(cfg.lib, cfg.key, s.client, req.msgType, req.payload), |s.issued|)
    case TimeOut =>
      ClientMoved(s, Timeout(cfg.lib, cfg.key, cfg.maxRetries, s.client), s.client.waiting.value.seqNo)
    case ClientReceives(data) =>
      ClientMoved(s, Receive(cfg.lib, cfg.key, s.client, data), s.client.waiting.value.seqNo)
    case ServerReceives(data, helloAck) =>
      match Decode(cfg.lib, data, Some(cfg.key))
      case Err(_) => s
      case Ok(f) => ServerMoved(cfg, s, f, helloAck)
  }

  // ---- what an answer may be ----

  /** A frame the client sent for one of its requests. */
  predicate Genuine(issued: seq<Request>, f: WireFrame)
  {
    && f.seqNo < |issued|
    && Request(f.msgType, f.payload) == issued[f.seqNo]
    && (f.flags == 1 || f.flags == 3)
  }

  /** The reply the protocol gives a request that succeeded. */
  predicate Matches(lib: Library, req: Request, n: nat, reply: WireFrame)
  {
    match req.msgType
    case Hello => reply.msgType == HelloAck
    case Data => reply.msgType == Data && reply.payload == req.payload
    case Ping => reply.msgType == Pong && reply.payload == req.payload
    case Bye => reply.msgType == Bye && reply.payload == []
    case HelloAck => false
    case _ => reply.msgType == Ack && DecodeAck(lib, reply.payload) == Ok(n)
  }

  /** One datagram that acknowledges request n first and ends with its reply or an ERROR. */
  ghost predicate Answers(cfg: Config, issued: seq<Request>, n: int, data: bytes)
  {
    && 0 <= n < |issued|
    && SplitOf(cfg.lib, data, cfg.key).Ok?
    && var frames := SplitOf(cfg.lib, data, cfg.key).value;
       && AckedBy(cfg.lib, frames) == Some(n)
       && (frames[|frames| - 1].msgType == Error || Matches(cfg.lib, issued[n], n, frames[|frames| - 1]))
  }

  // ---- the handler's answer to a genuine frame ----

  lemma HandleAnswers(cfg: Config, issued: seq<Request>, s: Session, f: WireFrame)
    requires Open(s) && Genuine(issued, f)
    ensures Answers(cfg, issued, f.seqNo, WireAll(cfg.lib, HandleOf(cfg.lib, s, f).1, cfg.key))
  {
    var (s', frames, close) := HandleOf(cfg.lib, s, f);
    var (s1, ack) := AckOf(s, f.seqNo);
    AckRoundTrip(cfg.lib, f.seqNo);
    OnFrameMeaning(cfg.lib, s1, f);
    assert frames[0] == ack;
    SplitIffWireAll(cfg.lib, WireAll(cfg.lib, frames, cfg.key), frames, cfg.key);
    var r := OnFrameOf(cfg.lib, s1, f).1;
    assert frames == [ack] + r.frames;
    LastIsReply(cfg.lib, s1, f, r.frames, ack, issued);
  }

  lemma LastIsReply(lib: Library, s1: Session, f: WireFrame, replies: seq<WireFrame>, ack: WireFrame, issued: seq<Request>)
    requires Open(s1) && Genuine(issued, f)
    requires replies == OnFrameOf(lib, s1, f).1.frames
    requires ack.msgType == Ack && DecodeAck(lib, ack.payload) == Ok(f.seqNo)
    ensures var last := ([ack] + replies)[|replies|];
            last.msgType == Error || Matches(lib, issued[f.seqNo], f.seqNo, last)
  {
  }

  // ---- what holds in every run ----

  ghost predicate AnswersOne(cfg: Config, issued: seq<Request>, data: bytes)
  {
    exists n :: Answers(cfg, issued, n, data)
  }

  ghost predicate GenuineBytes(cfg: Config, issued: seq<Request>, data: bytes)
  {
    Decode(cfg.lib, data, Some(cfg.key)).Ok? && Genuine(issued, Decode(cfg.lib, data, Some(cfg.key)).value)
  }

  predicate ClientInvariant(c: Client, issued: seq<Request>)
  {
    && |issued| <= MAX_SEQ + 1
    && (|issued| <= MAX_SEQ ==> c.outSeq == |issued|)
    && (c.waiting.Some? ==>
          var w := c.waiting.value;
          w.seqNo == |issued| - 1 && Request(w.msgType, w.payload) == issued[w.seqNo])
  }

  ghost predicate OutcomeInvariant(cfg: Config, issued: seq<Request>, outcomes: map<nat, Outcome>)
  {
    forall n | n in outcomes :: n < |issued| &&
      (outcomes[n].Returned? ==> Matches(cfg.lib, issued[n], n, outcomes[n].frame))
  }

  ghost predicate ServerInvariant(cfg: Config, issued: seq<Request>, life: Life, toClient: set<bytes>)
  {
    && LifeInvariant(life, cfg.size)
    && (forall d | d in toClient :: AnswersOne(cfg, issued, d))
    && (forall e | e in life.accepted :: Answers(cfg, issued, e.seqNo, e.reply))
  }

  ghost predicate Invariant(cfg: Config, s: System)
  {
    && ClientInvariant(s.client, s.issued)
    && OutcomeInvariant(cfg, s.issued, s.outcomes)
    && (forall d | d in s.toServer :: GenuineBytes(cfg, s.issued, d))
    && ServerInvariant(cfg, s.issued, s.life, s.toClient)
  }

  lemma RequestIsGenuine(cfg: Config, issued: seq<Request>, w: Waiting)
    requires w.seqNo < |issued| && Request(w.msgType, w.payload) == issued[w.seqNo]
    ensures GenuineBytes(cfg, issued, Wire(cfg.lib, RequestFrame(w), cfg.key))
  {
    DecodeIffEncode(cfg.lib, Wire(cfg.lib, RequestFrame(w), cfg.key), RequestFrame(w), cfg.key);
  }

  lemma VerdictIsMatch(cfg: Config, issued: seq<Request>, seqNo: uint32, data: bytes)
    requires AnswersOne(cfg, issued, data) || SplitOf(cfg.lib, data, cfg.key).Err?
    requires VerdictOf(cfg.lib, cfg.key, seqNo, data).Some?
    ensures Answers(cfg, issued, seqNo, data)
    ensures var o := VerdictOf(cfg.lib, cfg.key, seqNo, data).value;
            o.Returned? ==> Matches(cfg.lib, issued[seqNo], seqNo, o.frame)
  {
    var n :| Answers(cfg, issued, n, data);
  }

  lemma MoreIssued(cfg: Config, s: System, req: Request)
    requires Invariant(cfg, s)
    ensures var issued := s.issued + [req];
            && OutcomeInvariant(cfg, issued, s.outcomes)
            && (forall d | d in s.toServer :: GenuineBytes(cfg, issued, d))
            && ServerInvariant(cfg, issued, s.life, s.toClient)
  {
    var issued := s.issued + [req];
    forall d | d in s.toClient ensures AnswersOne(cfg, issued, d) {
      var n :| Answers(cfg, s.issued, n, d);
      assert Answers(cfg, issued, n, d);
    }
  }

  lemma IssueKeeps(cfg: Config, s: System, req: Request)
    requires Invariant(cfg, s) && Enabled(cfg, s, Issue(req))
    ensures Invariant(cfg, Apply(cfg, s, Issue(req)))
  {
    var issued := s.issued + [req];
    MoreIssued(cfg, s, req);
    var e := Start(cfg.lib, cfg.key, s.client, req.msgType, req.payload);
    if e.client.waiting.Some? {
      RequestIsGenuine(cfg, issued, e.client.waiting.value);
    }
  }

  lemma TimeOutKeeps(cfg: Config, s: System)
    requires Invariant(cfg, s) && Enabled(cfg, s, TimeOut)
    ensures Invariant(cfg, Apply(cfg, s, TimeOut))
  {
    var e := Timeout(cfg.lib, cfg.key, cfg.maxRetries, s.client);
    if e.client.waiting.Some? {
      RequestIsGenuine(cfg, s.issued, e.client.waiting.value);
    }
  }

  lemma ClientReceivesKeeps(cfg: Config, s: System, data: bytes)
    requires Invariant(cfg, s) && Enabled(cfg, s, ClientReceives(data))
    ensures Invariant(cfg, Apply(cfg, s, ClientReceives(data)))
  {
    var w := s.client.waiting.value;
    if VerdictOf(cfg.lib, cfg.key, w.seqNo, data).Some? {
      VerdictIsMatch(cfg, s.issued, w.seqNo, data);
    }
    assert s.toServer + (set d | d in []) == s.toServer;
  }

  lemma PeerStepAnswers(cfg: Config, issued: seq<Request>, life: Life, d: Delivery)
    requires LifeInvariant(life, cfg.size) && Genuine(issued, d.frame)
    requires forall e | e in life.accepted :: Answers(cfg, issued, e.seqNo, e.reply)
    ensures Answers(cfg, issued, d.frame.seqNo, PeerStep(cfg.lib, cfg.key, cfg.size, life.peer, d.frame, d.helloAck).1.reply)
  {
    var p := PeerOf(life.peer, d.helloAck);
    if Lookup(p.window, d.frame.seqNo).Some? {
      if life.peer.Some? {
        ReplayedWasAccepted(cfg, life, d);
      }
    } else {
      HandleAnswers(cfg, issued, p.session, d.frame);
    }
  }

  lemma ReplayedWasAccepted(cfg: Config, life: Life, d: Delivery)
    requires LifeInvariant(life, cfg.size) && life.peer.Some?
    requires Lookup(life.peer.value.window, d.frame.seqNo).Some?
    ensures Entry(d.frame.seqNo, Lookup(life.peer.value.window, d.frame.seqNo).value) in life.accepted
  {
    var w := LastN(life.accepted, cfg.size);
    if d.frame.seqNo !in Keys(w) {
      AbsentKey(w, d.frame.seqNo);
      assert false;
    }
    var gone := LastNCuts(life.accepted, cfg.size);
    var i := KeyPosition(w, d.frame.seqNo);
    LookupAtFirst(w, i);
    assert life.accepted[|gone| + i] == w[i];
  }

  lemma AcceptedAfter(cfg: Config, life: Life, d: Delivery, e: Entry)
    requires e in LifeStep(cfg.lib, cfg.key, cfg.size, life, d).accepted
    ensures e in life.accepted
         || e == Entry(d.frame.seqNo, PeerStep(cfg.lib, cfg.key, cfg.size, life.peer, d.frame, d.helloAck).1.reply)
  {
  }

  lemma AnswersGrow(cfg: Config, issued: seq<Request>, life: Life, life': Life, toClient: set<bytes>, e: Entry)
    requires ServerInvariant(cfg, issued, life, toClient) && LifeInvariant(life', cfg.size)
    requires Answers(cfg, issued, e.seqNo, e.reply)
    requires forall x | x in life'.accepted :: x in life.accepted || x == e
    ensures ServerInvariant(cfg, issued, life', if e.reply == [] then toClient else toClient + {e.reply})
  {
    assert AnswersOne(cfg, issued, e.reply);
  }

  lemma ServerInvariantStep(cfg: Config, issued: seq<Request>, life: Life, toClient: set<bytes>, d: Delivery)
    requires ServerInvariant(cfg, issued, life, toClient) && Genuine(issued, d.frame)
    ensures var reply := PeerStep(cfg.lib, cfg.key, cfg.size, life.peer, d.frame, d.helloAck).1.reply;
            ServerInvariant(cfg, issued, LifeStep(cfg.lib, cfg.key, cfg.size, life, d),
                            if reply == [] then toClient else toClient + {reply})
  {
    var reply := PeerStep(cfg.lib, cfg.key, cfg.size, life.peer, d.frame, d.helloAck).1.reply;
    var life' := LifeStep(cfg.lib, cfg.key, cfg.size, life, d);
    LifeInvariantStep(cfg.lib, cfg.key, cfg.size, life, d);
    PeerStepAnswers(cfg, issued, life, d);
    forall x | x in life'.accepted ensures x in life.accepted || x == Entry(d.frame.seqNo, reply) {
      AcceptedAfter(cfg, life, d, x);
    }
    AnswersGrow(cfg, issued, life, life', toClient, Entry(d.frame.seqNo, reply));
  }

  lemma ServerReceivesKeeps(cfg: Config, s: System, data: bytes, helloAck: Payload)
    requires Invariant(cfg, s) && Enabled(cfg, s, ServerReceives(data, helloAck))
    ensures Invariant(cfg, Apply(cfg, s, ServerReceives(data, helloAck)))
  {
    var decoded := Decode(cfg.lib, data, Some(cfg.key));
    if decoded.Ok? {
      assert GenuineBytes(cfg, s.issued, data);
      ServerInvariantStep(cfg, s.issued, s.life, s.toClient, Delivery(decoded.value, helloAck));
    }
  }

  lemma InvariantStep(cfg: Config, s: System, a: Action)
    requires Invariant(cfg, s) && Enabled(cfg, s, a)
    ensures Invariant(cfg, Apply(cfg, s, a))
  {
    match a
    case Issue(req) => IssueKeeps(cfg, s, req);
    case TimeOut => TimeOutKeeps(cfg, s);
    case ClientReceives(data) => ClientReceivesKeeps(cfg, s, data);
    case ServerReceives(data, helloAck) => ServerReceivesKeeps(cfg, s, data, helloAck);
  }

  // ---- runs ----

  /** The state after a run, None when some action was not possible. */
  ghost function StateAfter(cfg: Config, actions: seq<Action>): Option<System>
  {
    if actions == [] then Some(Init())
    else
      var before := StateAfter(cfg, actions[..|actions| - 1]);
      var a := actions[|actions| - 1];
      if before.Some? && Enabled(cfg, before.value, a) then Some(Apply(cfg, before.value, a)) else None
  }

  lemma {:induction false} InvariantHolds(cfg: Config, actions: seq<Action>)
    requires StateAfter(cfg, actions).Some?
    ensures Invariant(cfg, StateAfter(cfg, actions).value)
  {
    if actions != [] {
      InvariantHolds(cfg, actions[..|actions| - 1]);
      InvariantStep(cfg, StateAfter(cfg, actions[..|actions| - 1]).value, actions[|actions| - 1]);
    }
  }

  /** A request that returns, returns its own reply: for DATA exactly the payload sent.
      No run breaks this, whatever is lost, repeated, late, evicted from the window or
      answered by a session that replaced another one. */
  lemma ReplyCorrelation(cfg: Config, actions: seq<Action>, n: nat)
    requires StateAfter(cfg, actions).Some? && n in StateAfter(cfg, actions).value.outcomes
    ensures var s := StateAfter(cfg, actions).value;
            && n < |s.issued|
            && (s.outcomes[n].Returned? ==> Matches(cfg.lib, s.issued[n], n, s.outcomes[n].frame))
  {
    InvariantHolds(cfg, actions);
  }

  // ---- at most once, for the whole system ----

  /** The authenticated frame an action hands to the server, if it does. */
  function DeliveredBy(cfg: Config, a: Action): seq<Delivery>
  {
    match a
    case ServerReceives(data, helloAck) =>
      var f := Decode(cfg.lib, data, Some(cfg.key));
      if f.Ok? then [Delivery(f.value, helloAck)] else []
    case _ => []
  }

  function Deliveries(cfg: Config, actions: seq<Action>): seq<Delivery>
  {
    if actions == [] then []
    else Deliveries(cfg, actions[..|actions| - 1]) + DeliveredBy(cfg, actions[|actions| - 1])
  }

  function NumbersOf(frames: seq<WireFrame>): seq<int>
  {
    if frames == [] then [] else NumbersOf(frames[..|frames| - 1]) + [frames[|frames| - 1].seqNo]
  }

  /** The system's server is the peer whose history the deliveries make. */
  ghost predicate Mirrors(cfg: Config, s: System, h: History)
  {
    && s.life == h.life
    && NumbersOf(s.dispatched) == Numbers(Dispatched, h.log)
    && NumbersOf(s.served) == Numbers(Served, h.log)
    && (forall f | f in s.served :: f in s.dispatched)
    && forall f | f in s.dispatched :: Genuine(s.issued, f)
  }

  lemma NumbersOfAppend(frames: seq<WireFrame>, f: WireFrame)
    ensures NumbersOf(frames + [f]) == NumbersOf(frames) + [f.seqNo]
  {
    assert (frames + [f])[..|frames|] == frames;
  }

  lemma NumbersAppend(m: Mark, log: seq<Record>, r: Record)
    ensures Numbers(m, log + [r]) == Numbers(m, log) + if (if m == Served then r.served else r.dispatched) then [r.seqNo] else []
  {
    assert (log + [r])[..|log|] == log;
  }

  lemma MirrorDelivery(cfg: Config, s: System, h: History, f: WireFrame, helloAck: Payload)
    requires Mirrors(cfg, s, h) && Genuine(s.issued, f)
    ensures Mirrors(cfg, ServerMoved(cfg, s, f, helloAck), HistoryStep(cfg.lib, cfg.key, cfg.size, h, Delivery(f, helloAck)))
  {
    var h' := HistoryStep(cfg.lib, cfg.key, cfg.size, h, Delivery(f, helloAck));
    HistoryGrows(cfg.lib, cfg.key, cfg.size, h, Delivery(f, helloAck));
    NumbersAppend(Dispatched, h.log, h'.log[|h.log|]);
    NumbersAppend(Served, h.log, h'.log[|h.log|]);
    NumbersOfAppend(s.dispatched, f);
    NumbersOfAppend(s.served, f);
    EmptyTail(Numbers(Dispatched, h.log));
    EmptyTail(Numbers(Served, h.log));
  }

  lemma EmptyTail(numbers: seq<int>)
    ensures numbers + [] == numbers
  {
  }

  lemma MirrorStep(cfg: Config, s: System, h: History, a: Action)
    requires Invariant(cfg, s) && Enabled(cfg, s, a) && Mirrors(cfg, s, h)
    ensures var ds := DeliveredBy(cfg, a);
            Mirrors(cfg, Apply(cfg, s, a), if ds == [] then h else HistoryStep(cfg.lib, cfg.key, cfg.size, h, ds[0]))
  {
    if a.ServerReceives? && Decode(cfg.lib, a.data, Some(cfg.key)).Ok? {
      assert GenuineBytes(cfg, s.issued, a.data);
      MirrorDelivery(cfg, s, h, Decode(cfg.lib, a.data, Some(cfg.key)).value, a.helloAck);
    }
  }

  /** In every run, whatever the network does: only requests the client issued reach `_dispatch`,
      and are executed, each under its own number; within one session in increasing order, so
      never twice; and a number answered again gets the same bytes, unless its late copy ends the session. */
  lemma {:induction false} AtMostOnceInEveryRun(cfg: Config, actions: seq<Action>)
    requires StateAfter(cfg, actions).Some?
    ensures var h := HistoryAfter(cfg.lib, cfg.key, cfg.size, Deliveries(cfg, actions));
            Mirrors(cfg, StateAfter(cfg, actions).value, h) && HistoryInvariant(h, cfg.size)
  {
    AtMostOnceSameBytes(cfg.lib, cfg.key, cfg.size, Deliveries(cfg, actions));
    if actions != [] {
      var before, a := actions[..|actions| - 1], actions[|actions| - 1];
      AtMostOnceInEveryRun(cfg, before);
      InvariantHolds(cfg, before);
      MirrorStep(cfg, StateAfter(cfg, before).value,
                 HistoryAfter(cfg.lib, cfg.key, cfg.size, Deliveries(cfg, before)), a);
      var ds := DeliveredBy(cfg, a);
      if ds == [] {
        assert Deliveries(cfg, before) + ds == Deliveries(cfg, before);
      } else {
        assert (Deliveries(cfg, before) + ds)[..|Deliveries(cfg, before)|] == Deliveries(cfg, before);
      }
    }
  }

  // ---- a reply comes from an execution ----

  ghost predicate WasServed(served: seq<WireFrame>, n: int)
  {
    exists f :: f in served && f.seqNo == n
  }

  /** A datagram that does not end in ERROR acknowledges a request that was executed. */
  ghost predicate Backed(cfg: Config, served: seq<WireFrame>, data: bytes)
  {
    && SplitOf(cfg.lib, data, cfg.key).Ok?
    && var frames := SplitOf(cfg.lib, data, cfg.key).value;
       && AckedBy(cfg.lib, frames).Some?
       && (frames[|frames| - 1].msgType != Error ==> WasServed(served, AckedBy(cfg.lib, frames).value))
  }

  ghost predicate ServerBacked(cfg: Config, served: seq<WireFrame>, accepted: seq<Entry>, toClient: set<bytes>)
  {
    && (forall d | d in toClient :: Backed(cfg, served, d))
    && (forall e | e in accepted :: Backed(cfg, served, e.reply))
  }

  ghost predicate ReturnsServed(served: seq<WireFrame>, outcomes: map<nat, Outcome>)
  {
    forall n | n in outcomes && outcomes[n].Returned? :: WasServed(served, n)
  }

  lemma StillServed(served: seq<WireFrame>, f: WireFrame, n: int)
    requires WasServed(served, n)
    ensures WasServed(served + [f], n)
  {
    var g :| g in served && g.seqNo == n;
    assert g in served + [f];
  }

  lemma StillBacked(cfg: Config, served: seq<WireFrame>, f: WireFrame, data: bytes)
    requires Backed(cfg, served, data)
    ensures Backed(cfg, served + [f], data)
  {
    var n := AckedBy(cfg.lib, SplitOf(cfg.lib, data, cfg.key).value).value;
    if WasServed(served, n) {
      StillServed(served, f, n);
    }
  }

  lemma AllStillBacked(cfg: Config, served: seq<WireFrame>, f: WireFrame, accepted: seq<Entry>, toClient: set<bytes>)
    requires ServerBacked(cfg, served, accepted, toClient)
    ensures ServerBacked(cfg, served + [f], accepted, toClient)
  {
    forall d | d in toClient ensures Backed(cfg, served + [f], d) {
      StillBacked(cfg, served, f, d);
    }
    forall e | e in accepted ensures Backed(cfg, served + [f], e.reply) {
      StillBacked(cfg, served, f, e.reply);
    }
  }

  /** What is handled is answered with an ERROR, or was executed. */
  lemma HandleIsBacked(cfg: Config, served: seq<WireFrame>, s: Session, f: WireFrame)
    requires Open(s) && RequiresAck(f)
    requires Runs(s, f) && Accepts(cfg.lib, s, f) ==> f in served
    ensures Backed(cfg, served, WireAll(cfg.lib, HandleOf(cfg.lib, s, f).1, cfg.key))
  {
    var frames := HandleOf(cfg.lib, s, f).1;
    var (s1, ack) := AckOf(s, f.seqNo);
    AckRoundTrip(cfg.lib, f.seqNo);
    AcceptsMeaning(cfg.lib, s, f);
    AcceptsMeaning(cfg.lib, s1, f);
    RunsMeaning(cfg.lib, s1, f);
    var r := OnFrameOf(cfg.lib, s1, f).1;
    assert frames == [ack] + r.frames;
    SplitIffWireAll(cfg.lib, WireAll(cfg.lib, frames, cfg.key), frames, cfg.key);
    if !(Runs(s, f) && Accepts(cfg.lib, s, f)) {
      assert frames[|frames| - 1] == r.frames[0];
    }
  }

  lemma PeerStepIsBacked(cfg: Config, served: seq<WireFrame>, life: Life, toClient: set<bytes>, d: Delivery)
    requires LifeInvariant(life, cfg.size) && RequiresAck(d.frame)
    requires ServerBacked(cfg, served, life.accepted, toClient)
    requires Serves(cfg.lib, life.peer, d.frame, d.helloAck) ==> d.frame in served
    ensures Backed(cfg, served, PeerStep(cfg.lib, cfg.key, cfg.size, life.peer, d.frame, d.helloAck).1.reply)
  {
    var p := PeerOf(life.peer, d.helloAck);
    if Lookup(p.window, d.frame.seqNo).None? {
      HandleIsBacked(cfg, served, p.session, d.frame);
    } else if life.peer.Some? {
      ReplayedWasAccepted(cfg, life, d);
    }
  }

  lemma ServerBackedStep(cfg: Config, served: seq<WireFrame>, life: Life, toClient: set<bytes>, d: Delivery)
    requires LifeInvariant(life, cfg.size) && RequiresAck(d.frame)
    requires ServerBacked(cfg, served, life.accepted, toClient)
    requires Serves(cfg.lib, life.peer, d.frame, d.helloAck) ==> d.frame in served
    ensures var reply := PeerStep(cfg.lib, cfg.key, cfg.size, life.peer, d.frame, d.helloAck).1.reply;
            ServerBacked(cfg, served, LifeStep(cfg.lib, cfg.key, cfg.size, life, d).accepted,
                         if reply == [] then toClient else toClient + {reply})
  {
    PeerStepIsBacked(cfg, served, life, toClient, d);
    forall e | e in LifeStep(cfg.lib, cfg.key, cfg.size, life, d).accepted ensures Backed(cfg, served, e.reply) {
      AcceptedAfter(cfg, life, d, e);
    }
  }

  lemma ServerMovedIsBacked(cfg: Config, s: System, f: WireFrame, helloAck: Payload)
    requires LifeInvariant(s.life, cfg.size) && Genuine(s.issued, f)
    requires ServerBacked(cfg, s.served, s.life.accepted, s.toClient) && ReturnsServed(s.served, s.outcomes)
    ensures var s' := ServerMoved(cfg, s, f, helloAck);
            ServerBacked(cfg, s'.served, s'.life.accepted, s'.toClient) && ReturnsServed(s'.served, s'.outcomes)
  {
    if Serves(cfg.lib, s.life.peer, f, helloAck) {
      AllStillBacked(cfg, s.served, f, s.life.accepted, s.toClient);
      forall n | n in s.outcomes && s.outcomes[n].Returned? ensures WasServed(s.served + [f], n) {
        StillServed(s.served, f, n);
      }
      ServerBackedStep(cfg, s.served + [f], s.life, s.toClient, Delivery(f, helloAck));
    } else {
      ServerBackedStep(cfg, s.served, s.life, s.toClient, Delivery(f, helloAck));
    }
  }

  lemma ReceivedIsServed(cfg: Config, s: System, data: bytes)
    requires Enabled(cfg, s, ClientReceives(data)) && (forall d | d in s.toClient :: Backed(cfg, s.served, d))
    requires ReturnsServed(s.served, s.outcomes)
    ensures ReturnsServed(s.served, Apply(cfg, s, ClientReceives(data)).outcomes)
  {
  }

  lemma BackedStep(cfg: Config, s: System, a: Action)
    requires Invariant(cfg, s) && Enabled(cfg, s, a)
    requires ServerBacked(cfg, s.served, s.life.accepted, s.toClient) && ReturnsServed(s.served, s.outcomes)
    ensures var s' := Apply(cfg, s, a);
            ServerBacked(cfg, s'.served, s'.life.accepted, s'.toClient) && ReturnsServed(s'.served, s'.outcomes)
  {
    match a
    case ServerReceives(data, helloAck) =>
      if Decode(cfg.lib, data, Some(cfg.key)).Ok? {
        assert GenuineBytes(cfg, s.issued, data);
        ServerMovedIsBacked(cfg, s, Decode(cfg.lib, data, Some(cfg.key)).value, helloAck);
      }
    case ClientReceives(data) => ReceivedIsServed(cfg, s, data);
    case _ =>
  }

  lemma {:induction false} BackedHolds(cfg: Config, actions: seq<Action>)
    requires StateAfter(cfg, actions).Some?
    ensures var s := StateAfter(cfg, actions).value;
            ServerBacked(cfg, s.served, s.life.accepted, s.toClient) && ReturnsServed(s.served, s.outcomes)
  {
    if actions != [] {
      var before := actions[..|actions| - 1];
      BackedHolds(cfg, before);
      InvariantHolds(cfg, before);
      BackedStep(cfg, StateAfter(cfg, before).value, actions[|actions| - 1]);
    }
  }

  /** No success without execution: in every run, a request that returned reached the handler and
      was served by it, as the client issued it. */
  lemma ReturnedMeansServed(cfg: Config, actions: seq<Action>, n: nat) returns (f: WireFrame)
    requires StateAfter(cfg, actions).Some?
    requires n in StateAfter(cfg, actions).value.outcomes && StateAfter(cfg, actions).value.outcomes[n].Returned?
    ensures var s := StateAfter(cfg, actions).value;
            && f in s.served && f in s.dispatched && f.seqNo == n
            && n < |s.issued| && Request(f.msgType, f.payload) == s.issued[n]
  {
    BackedHolds(cfg, actions);
    AtMostOnceInEveryRun(cfg, actions);
    var s := StateAfter(cfg, actions).value;
    assert WasServed(s.served, n);
    f :| f in s.served && f.seqNo == n;
    assert Genuine(s.issued, f);
  }

  // ---- how requests end ----

  function InFlightCount(s: System): nat
  {
    if s.client.waiting.Some? then 1 else 0
  }

  /** Exactly the requests before the one in flight have ended. */
  ghost predicate Settled(s: System)
  {
    forall n: nat :: n in s.outcomes <==> n < |s.issued| - InFlightCount(s)
  }

  lemma SettledStep(cfg: Config, s: System, a: Action)
    requires ClientInvariant(s.client, s.issued) && Settled(s) && Enabled(cfg, s, a)
    ensures Settled(Apply(cfg, s, a))
    ensures forall n | n in s.outcomes :: n in Apply(cfg, s, a).outcomes && Apply(cfg, s, a).outcomes[n] == s.outcomes[n]
  {
  }

  /** In every run each request before the one in flight has exactly one end, which never
      changes. */
  lemma {:induction false} EveryRequestEndsOnce(cfg: Config, actions: seq<Action>)
    requires StateAfter(cfg, actions).Some?
    ensures Settled(StateAfter(cfg, actions).value)
    ensures actions != [] ==>
              var before, after := StateAfter(cfg, actions[..|actions| - 1]).value, StateAfter(cfg, actions).value;
              forall n | n in before.outcomes :: n in after.outcomes && after.outcomes[n] == before.outcomes[n]
  {
    if actions != [] {
      var before := actions[..|actions| - 1];
      EveryRequestEndsOnce(cfg, before);
      InvariantHolds(cfg, before);
      SettledStep(cfg, StateAfter(cfg, before).value, actions[|actions| - 1]);
    }
  }

  /** An answer to request n that ends in an ERROR with this code. */
  predicate IsErrorFor(cfg: Config, data: bytes, n: nat, c: ErrorCode)
  {
    && SplitOf(cfg.lib, data, cfg.key).Ok?
    && var frames := SplitOf(cfg.lib, data, cfg.key).value;
       && frames != [] && frames[0].msgType == Ack && DecodeAck(cfg.lib, frames[0].payload) == Ok(n)
       && frames[|frames| - 1].msgType == Error && CodeIn(cfg.lib, frames[|frames| - 1].payload) == c
  }

  ghost predicate ErrorSent(cfg: Config, toClient: set<bytes>, n: nat, c: ErrorCode)
  {
    exists d :: d in toClient && IsErrorFor(cfg, d, n, c)
  }

  /** The client gave up on request n: a timeout behind its last retransmission. */
  ghost predicate GaveUp(cfg: Config, actions: seq<Action>, n: nat)
  {
    actions != [] &&
    var before := actions[..|actions| - 1];
    || GaveUp(cfg, before, n)
    || (&& actions[|actions| - 1].TimeOut? && StateAfter(cfg, before).Some?
        && var waiting := StateAfter(cfg, before).value.client.waiting;
           waiting.Some? && waiting.value.seqNo == n && waiting.value.attempt >= cfg.maxRetries)
  }

  ghost predicate Oversized(s: System, n: nat)
  {
    n < |s.issued| && |s.issued[n].payload| > 0x10_0000
  }

  /** What the last action did to the outcomes, when it raised something new. */
  lemma NewlyRaised(cfg: Config, s: System, a: Action, n: nat, c: ErrorCode)
    requires ClientInvariant(s.client, s.issued) && Enabled(cfg, s, a)
    requires n in Apply(cfg, s, a).outcomes && Apply(cfg, s, a).outcomes[n] == Raised(c)
    requires !(n in s.outcomes && s.outcomes[n] == Raised(c))
    ensures match a
            case Issue(_) => c == ErrLength && Oversized(Apply(cfg, s, a), n)
            case TimeOut => c == ErrTimeout && s.client.waiting.value.seqNo == n && s.client.waiting.value.attempt >= cfg.maxRetries
            case ClientReceives(data) => data in s.toClient && IsErrorFor(cfg, data, n, c)
            case ServerReceives(_, _) => false
  {
    if a.ClientReceives? {
      var seqNo := s.client.waiting.value.seqNo;
      var frames := VerdictNeedsFrames(cfg.lib, cfg.key, seqNo, a.data);
      SplitIffWireAll(cfg.lib, a.data, frames, cfg.key);
      VerdictOnFrames(cfg.lib, cfg.key, seqNo, frames);
    }
  }

  lemma ReasonsStay(cfg: Config, s: System, a: Action, n: nat, c: ErrorCode)
    requires Enabled(cfg, s, a)
    ensures Oversized(s, n) ==> Oversized(Apply(cfg, s, a), n)
    ensures ErrorSent(cfg, s.toClient, n, c) ==> ErrorSent(cfg, Apply(cfg, s, a).toClient, n, c)
  {
    if d :| d in s.toClient && IsErrorFor(cfg, d, n, c) {
      assert d in Apply(cfg, s, a).toClient;
    }
  }

  /** In every run a request that raised has a reason for its code: a payload over the limit
      raises ERR_LENGTH, giving up raises ERR_TIMEOUT, and any other code, or one of these, was
      carried by an ERROR the server sent in answer to this very request. */
  lemma {:induction false} RaisedHasReason(cfg: Config, actions: seq<Action>, n: nat, c: ErrorCode)
    requires StateAfter(cfg, actions).Some?
    requires n in StateAfter(cfg, actions).value.outcomes && StateAfter(cfg, actions).value.outcomes[n] == Raised(c)
    ensures var s := StateAfter(cfg, actions).value;
            || (c == ErrLength && Oversized(s, n))
            || (c == ErrTimeout && GaveUp(cfg, actions, n))
            || ErrorSent(cfg, s.toClient, n, c)
  {
    var before, a := actions[..|actions| - 1], actions[|actions| - 1];
    var s := StateAfter(cfg, before).value;
    ReasonsStay(cfg, s, a, n, c);
    if n in s.outcomes && s.outcomes[n] == Raised(c) {
      RaisedHasReason(cfg, before, n, c);
    } else {
      InvariantHolds(cfg, before);
      NewlyRaised(cfg, s, a, n, c);
      if a.ClientReceives? {
        assert a.data in Apply(cfg, s, a).toClient;
      }
    }
  }

  /** And the first two reasons always have their effect. */
  lemma {:induction false} ReasonsRaise(cfg: Config, actions: seq<Action>, n: nat)
    requires StateAfter(cfg, actions).Some?
    ensures var s := StateAfter(cfg, actions).value;
            && (Oversized(s, n) ==> n in s.outcomes && s.outcomes[n] == Raised(ErrLength))
            && (GaveUp(cfg, actions, n) ==> n in s.outcomes && s.outcomes[n] == Raised(ErrTimeout))
  {
    if actions != [] {
      var before, a := actions[..|actions| - 1], actions[|actions| - 1];
      var s := StateAfter(cfg, before).value;
      ReasonsRaise(cfg, before, n);
      EveryRequestEndsOnce(cfg, actions);
      if a.Issue? && n == |s.issued| {
        assert Apply(cfg, s, a).issued[n] == a.req;
      }
    }
  }

  lemma ErrorIsVerdict(cfg: Config, seqNo: uint32, data: bytes, c: ErrorCode)
    requires IsErrorFor(cfg, data, seqNo, c)
    ensures VerdictOf(cfg.lib, cfg.key, seqNo, data) == Some(Raised(c))
  {
    var frames := SplitOf(cfg.lib, data, cfg.key).value;
    SplitIffWireAll(cfg.lib, data, frames, cfg.key);
    VerdictOnFrames(cfg.lib, cfg.key, seqNo, frames);
  }

  /** And so does the third, once it arrives: an ERROR in answer to the request in flight ends it
      with the code it carries. */
  lemma ErrorEndsRequest(cfg: Config, s: System, data: bytes, c: ErrorCode)
    requires Enabled(cfg, s, ClientReceives(data)) && IsErrorFor(cfg, data, s.client.waiting.value.seqNo, c)
    ensures var n, s' := s.client.waiting.value.seqNo, Apply(cfg, s, ClientReceives(data));
            s'.client.waiting.None? && n in s'.outcomes && s'.outcomes[n] == Raised(c)
  {
    ErrorIsVerdict(cfg, s.client.waiting.value.seqNo, data, c);
  }
}
