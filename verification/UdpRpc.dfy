/** Stop-and-wait with deduplication is an atomic, in-order remote call, on the runs where the
    client does not give up and no delivered copy is older than the window. */
module UdpRpc {
  import opened Bytes
  import opened Protocol
  import opened Messages
  import opened Codec
  import opened Framing
  import opened Parsers
  import opened Sessions
  import opened Dedup
  import opened UdpPeer
  import opened UdpClients
  import opened UdpSystem

  // ---- the regime ----

  /** A session's worth of requests: the handshake, then requests the session survives. */
  predicate Scripted(lib: Library, n: nat, req: Request)
  {
    && |req.payload| <= MAX_PAYLOAD
    && (if n == 0 then req.msgType == Hello && lib.decodeHello(req.payload).Ok?
        else req.msgType in {Ping, Pong, Data, Ack})
  }

  /** Scripted requests, and no give-up. */
  ghost predicate Patient(cfg: Config, s: System, a: Action)
    requires Enabled(cfg, s, a)
  {
    match a
    case Issue(req) => Scripted(cfg.lib, |s.issued|, req)
    case TimeOut => s.client.waiting.value.attempt < cfg.maxRetries
    case _ => true
  }

  /** No delivered number as old as `size` below the last one accepted. */
  predicate Recent(cfg: Config, s: System, a: Action)
  {
    match a
    case ServerReceives(data, _) =>
      var f := Decode(cfg.lib, data, Some(cfg.key));
      f.Ok? && s.life.peer.Some? ==> f.value.seqNo + cfg.size > s.life.peer.value.session.lastPeerSeq
    case _ => true
  }

  ghost predicate Calm(cfg: Config, s: System, a: Action)
    requires Enabled(cfg, s, a)
  {
    Patient(cfg, s, a) && Recent(cfg, s, a)
  }

  // ---- the specification ----

  /** An atomic call service: what was asked, what was computed, what was returned. */
  datatype Rpc = Rpc(issued: seq<Request>, replies: seq<WireFrame>, returned: seq<WireFrame>)

  /** Ask when nothing is outstanding; execute the oldest request not executed; return the
      oldest reply not returned. */
  ghost predicate RpcNext(lib: Library, r: Rpc, r': Rpc)
  {
    || r' == r
    || (|r.returned| == |r.issued| && exists req :: r' == r.(issued := r.issued + [req]))
    || (|r.replies| < |r.issued| && exists c ::
          r' == r.(replies := r.replies + [c]) && Matches(lib, r.issued[|r.replies|], |r.replies|, c))
    || (|r.returned| < |r.replies| && r' == r.(returned := r.returned + [r.replies[|r.returned|]]))
  }

  // ---- the refinement mapping ----

  function LastFrame(cfg: Config, data: bytes): WireFrame
  {
    match SplitOf(cfg.lib, data, cfg.key)
    case Ok(frames) => if frames == [] then Frame(Hello, 0, [], 0) else frames[|frames| - 1]
    case Err(_) => Frame(Hello, 0, [], 0)
  }

  /** The requests that have ended: all but the one in flight. */
  function Ended(s: System): nat
  {
    if s.client.waiting.None? then |s.issued| else if s.issued == [] then 0 else |s.issued| - 1
  }

  /** What request n returned to the caller; an exception counts as no frame of the service. */
  function FrameOf(outcomes: map<nat, Outcome>, n: nat): WireFrame
  {
    if n in outcomes && outcomes[n].Returned? then outcomes[n].frame else Frame(Error, 0, [], 0)
  }

  function ReturnsOf(outcomes: map<nat, Outcome>, n: nat): (r: seq<WireFrame>)
    ensures |r| == n
  {
    seq(n, i requires i >= 0 => FrameOf(outcomes, i))
  }

  function Replies(cfg: Config, accepted: seq<Entry>): (r: seq<WireFrame>)
    ensures |r| == |accepted|
  {
    seq(|accepted|, i requires 0 <= i < |accepted| => LastFrame(cfg, accepted[i].reply))
  }

  function AbsOf(cfg: Config, s: System): Rpc
  {
    Rpc(s.issued, Replies(cfg, s.life.accepted), ReturnsOf(s.outcomes, Ended(s)))
  }

  // ---- the invariant of calm runs ----

  ghost predicate Served(cfg: Config, issued: seq<Request>, n: nat, reply: bytes)
  {
    Answers(cfg, issued, n, reply) && Matches(cfg.lib, issued[n], n, LastFrame(cfg, reply))
  }

  ghost predicate AnswerOf(accepted: seq<Entry>, data: bytes)
  {
    exists i :: 0 <= i < |accepted| && accepted[i].reply == data
  }

  ghost predicate InOrder(cfg: Config, issued: seq<Request>, accepted: seq<Entry>)
  {
    forall i | 0 <= i < |accepted| :: accepted[i].seqNo == i && Served(cfg, issued, i, accepted[i].reply)
  }

  ghost predicate Dispatched(issued: seq<Request>, dispatched: seq<WireFrame>, k: nat)
  {
    && |dispatched| == k <= |issued|
    && forall i | 0 <= i < k :: dispatched[i].seqNo == i && Request(dispatched[i].msgType, dispatched[i].payload) == issued[i]
  }

  ghost predicate AllScripted(lib: Library, issued: seq<Request>)
  {
    forall i | 0 <= i < |issued| :: Scripted(lib, i, issued[i])
  }

  /** At most the last request has not run, and every finished one returned its own answer. */
  ghost predicate Caught(cfg: Config, issued: seq<Request>, accepted: seq<Entry>, waiting: bool, outcomes: map<nat, Outcome>)
  {
    var done := |issued| - if waiting then 1 else 0;
    && done <= |accepted|
    && (forall n: nat :: n in outcomes <==> n < done)
    && (forall n | n in outcomes :: n < |accepted| && outcomes[n] == Returned(LastFrame(cfg, accepted[n].reply)))
  }

  /** The session accepted 0, 1, ..., each served, and the network carries only its answers. */
  ghost predicate Orderly(cfg: Config, s: System)
  {
    && InOrder(cfg, s.issued, s.life.accepted)
    && (forall d | d in s.toClient :: AnswerOf(s.life.accepted, d))
    && Dispatched(s.issued, s.dispatched, |s.life.accepted|) && s.served == s.dispatched
    && AllScripted(cfg.lib, s.issued)
    && Caught(cfg, s.issued, s.life.accepted, s.client.waiting.Some?, s.outcomes)
  }

  ghost predicate CalmInvariant(cfg: Config, s: System)
  {
    Invariant(cfg, s) && Orderly(cfg, s)
  }

  // ---- the server's step ----

  lemma InWindow(accepted: seq<Entry>, size: nat, n: nat)
    requires forall i | 0 <= i < |accepted| :: accepted[i].seqNo == i
    ensures n in Keys(LastN(accepted, size)) <==> n < |accepted| <= n + size
  {
    var w := LastN(accepted, size);
    var gone := LastNCuts(accepted, size);
    if n < |accepted| <= n + size {
      assert w[n - |gone|] == accepted[n];
      KeyAt(w, n - |gone|);
    }
    if n in Keys(w) {
      var i := KeyPosition(w, n);
      assert accepted[|gone| + i] == w[i];
    }
  }

  /** In a calm state a frame of the client is replayed, run, or fatal, and which of the three
      is decided by its distance from the last accepted number alone. */
  lemma WindowDecides(cfg: Config, s: System, f: WireFrame, helloAck: Payload)
    requires CalmInvariant(cfg, s) && s.life.peer.Some? && Genuine(s.issued, f)
    ensures var last := s.life.peer.value.session.lastPeerSeq;
            var (peer, answer) := PeerStep(cfg.lib, cfg.key, cfg.size, s.life.peer, f, helloAck);
            && last == |s.life.accepted| - 1
            && (answer.Replayed? <==> last - cfg.size < f.seqNo <= last)
            && (peer == None <==> f.seqNo <= last - cfg.size)
            && (answer.Replayed? ==> peer == s.life.peer && answer.reply == s.life.accepted[f.seqNo].reply)
  {
    var d := Delivery(f, helloAck);
    InWindow(s.life.accepted, cfg.size, f.seqNo);
    if f.seqNo < |s.life.accepted| {
      DuplicateIsReplayedOrFatal(cfg.lib, cfg.key, cfg.size, s.life, d);
    } else {
      AbsentKey(s.life.peer.value.window, f.seqNo);
      HandleMeaning(cfg.lib, s.life.peer.value.session, f);
      assert Scripted(cfg.lib, f.seqNo, s.issued[f.seqNo]);
    }
  }

  /** A welcome frame's answer ends in the acknowledgement itself or in what is owed. */
  lemma WelcomeEndsWell(lib: Library, issued: seq<Request>, s: Session, f: WireFrame)
    requires Open(s) && Genuine(issued, f) && Welcome(lib, s, f)
    ensures var frames := HandleOf(lib, s, f).1;
            frames != [] && Matches(lib, issued[f.seqNo], f.seqNo, frames[|frames| - 1])
  {
    var (s1, ack) := AckOf(s, f.seqNo);
    AckRoundTrip(lib, f.seqNo);
    var r := OnFrameOf(lib, s1, f).1;
    assert HandleOf(lib, s, f).1 == [ack] + r.frames;
    assert r.frames != [] ==> ([ack] + r.frames)[|r.frames|] == r.frames[0];
  }

  lemma HandleServes(cfg: Config, issued: seq<Request>, s: Session, f: WireFrame)
    requires Open(s) && Genuine(issued, f) && Welcome(cfg.lib, s, f)
    ensures Served(cfg, issued, f.seqNo, WireAll(cfg.lib, HandleOf(cfg.lib, s, f).1, cfg.key))
  {
    var frames := HandleOf(cfg.lib, s, f).1;
    HandleAnswers(cfg, issued, s, f);
    WelcomeEndsWell(cfg.lib, issued, s, f);
    SplitIffWireAll(cfg.lib, WireAll(cfg.lib, frames, cfg.key), frames, cfg.key);
  }

  lemma NextIsWelcome(cfg: Config, s: System, f: WireFrame, helloAck: Payload)
    requires CalmInvariant(cfg, s) && Genuine(s.issued, f) && f.seqNo == |s.life.accepted|
    ensures var p := PeerOf(s.life.peer, helloAck);
            Open(p.session) && Welcome(cfg.lib, p.session, f) && Lookup(p.window, f.seqNo).None?
  {
    assert Scripted(cfg.lib, f.seqNo, s.issued[f.seqNo]);
    if s.life.peer.Some? {
      InWindow(s.life.accepted, cfg.size, f.seqNo);
      AbsentKey(s.life.peer.value.window, f.seqNo);
    }
  }

  /** The step of a peer on a welcome frame, told without its code. */
  ghost predicate Answered(cfg: Config, issued: seq<Request>, peer: Option<Peer>, f: WireFrame, helloAck: Payload)
  {
    var (peer', answer) := PeerStep(cfg.lib, cfg.key, cfg.size, peer, f, helloAck);
    && answer.Handled? && peer'.Some?
    && f.seqNo > PeerOf(peer, helloAck).session.lastPeerSeq
    && Serves(cfg.lib, peer, f, helloAck)
    && Served(cfg, issued, f.seqNo, answer.reply)
  }

  lemma WelcomeIsAnswered(cfg: Config, issued: seq<Request>, peer: Option<Peer>, f: WireFrame, helloAck: Payload)
    requires var p := PeerOf(peer, helloAck);
             Open(p.session) && Welcome(cfg.lib, p.session, f) && Lookup(p.window, f.seqNo).None?
    requires Genuine(issued, f)
    ensures Answered(cfg, issued, peer, f, helloAck)
  {
    var p := PeerOf(peer, helloAck);
    HandleMeaning(cfg.lib, p.session, f);
    AcceptsMeaning(cfg.lib, p.session, f);
    HandleServes(cfg, issued, p.session, f);
  }

  /** The next request in order is executed and answered. */
  lemma NextIsServed(cfg: Config, s: System, f: WireFrame, helloAck: Payload)
    requires CalmInvariant(cfg, s) && Genuine(s.issued, f) && f.seqNo == |s.life.accepted|
    ensures Answered(cfg, s.issued, s.life.peer, f, helloAck)
  {
    NextIsWelcome(cfg, s, f, helloAck);
    WelcomeIsAnswered(cfg, s.issued, s.life.peer, f, helloAck);
  }

  // ---- each step ----

  lemma OrderWhenIssued(cfg: Config, issued: seq<Request>, req: Request, accepted: seq<Entry>)
    requires InOrder(cfg, issued, accepted)
    ensures InOrder(cfg, issued + [req], accepted)
  {
    forall i | 0 <= i < |accepted| ensures Served(cfg, issued + [req], i, accepted[i].reply) {
      assert Served(cfg, issued, i, accepted[i].reply);
    }
  }

  lemma IssueEffect(cfg: Config, s: System, req: Request)
    requires Enabled(cfg, s, Issue(req)) && Calm(cfg, s, Issue(req))
    ensures var s' := Apply(cfg, s, Issue(req));
            && s' == s.(client := s'.client, toServer := s'.toServer, issued := s.issued + [req])
            && s'.client.waiting.Some?
  {
  }

  lemma IssueIsAsk(cfg: Config, s: System, s': System, req: Request)
    requires Orderly(cfg, s) && s.client.waiting.None? && s'.client.waiting.Some?
    requires s' == s.(client := s'.client, toServer := s'.toServer, issued := s.issued + [req])
    requires Scripted(cfg.lib, |s.issued|, req)
    ensures Orderly(cfg, s')
    ensures RpcNext(cfg.lib, AbsOf(cfg, s), AbsOf(cfg, s'))
  {
    OrderWhenIssued(cfg, s.issued, req, s.life.accepted);
    assert AbsOf(cfg, s') == AbsOf(cfg, s).(issued := AbsOf(cfg, s).issued + [req]);
  }

  lemma CalmIssue(cfg: Config, s: System, req: Request)
    requires CalmInvariant(cfg, s) && Enabled(cfg, s, Issue(req)) && Calm(cfg, s, Issue(req))
    ensures CalmInvariant(cfg, Apply(cfg, s, Issue(req)))
    ensures RpcNext(cfg.lib, AbsOf(cfg, s), AbsOf(cfg, Apply(cfg, s, Issue(req))))
  {
    IssueKeeps(cfg, s, req);
    IssueEffect(cfg, s, req);
    IssueIsAsk(cfg, s, Apply(cfg, s, Issue(req)), req);
  }

  lemma CalmTimeOut(cfg: Config, s: System)
    requires CalmInvariant(cfg, s) && Enabled(cfg, s, TimeOut) && Calm(cfg, s, TimeOut)
    ensures CalmInvariant(cfg, Apply(cfg, s, TimeOut))
    ensures RpcNext(cfg.lib, AbsOf(cfg, s), AbsOf(cfg, Apply(cfg, s, TimeOut)))
  {
    TimeOutKeeps(cfg, s);
  }

  lemma AnswerIsServed(cfg: Config, issued: seq<Request>, accepted: seq<Entry>, d: bytes) returns (i: nat)
    requires InOrder(cfg, issued, accepted) && AnswerOf(accepted, d)
    ensures i < |accepted| && accepted[i].reply == d && Served(cfg, issued, i, d)
    ensures LastFrame(cfg, d).msgType != Error
  {
    i :| 0 <= i < |accepted| && accepted[i].reply == d;
    assert Served(cfg, issued, i, accepted[i].reply);
  }

  lemma ServedVerdict(cfg: Config, issued: seq<Request>, n: nat, seqNo: uint32, data: bytes)
    requires Served(cfg, issued, n, data) && VerdictOf(cfg.lib, cfg.key, seqNo, data).Some?
    requires LastFrame(cfg, data).msgType != Error
    ensures n == seqNo && VerdictOf(cfg.lib, cfg.key, seqNo, data) == Some(Returned(LastFrame(cfg, data)))
  {
  }

  lemma AnswerAccepted(cfg: Config, issued: seq<Request>, accepted: seq<Entry>, seqNo: uint32, data: bytes)
    requires InOrder(cfg, issued, accepted) && AnswerOf(accepted, data)
    requires VerdictOf(cfg.lib, cfg.key, seqNo, data).Some?
    ensures seqNo < |accepted|
    ensures VerdictOf(cfg.lib, cfg.key, seqNo, data) == Some(Returned(LastFrame(cfg, accepted[seqNo].reply)))
  {
    var i := AnswerIsServed(cfg, issued, accepted, data);
    ServedVerdict(cfg, issued, i, seqNo, data);
  }

  /** An answer the client accepts is the one the server remembers for that request. */
  lemma AcceptedAnswer(cfg: Config, s: System, data: bytes)
    requires CalmInvariant(cfg, s) && Enabled(cfg, s, ClientReceives(data))
    requires VerdictOf(cfg.lib, cfg.key, s.client.waiting.value.seqNo, data).Some?
    ensures var n := |s.issued| - 1;
            && |s.life.accepted| == |s.issued|
            && VerdictOf(cfg.lib, cfg.key, s.client.waiting.value.seqNo, data)
               == Some(Returned(LastFrame(cfg, s.life.accepted[n].reply)))
  {
    assert Orderly(cfg, s) && AnswerOf(s.life.accepted, data);
    AnswerAccepted(cfg, s.issued, s.life.accepted, s.client.waiting.value.seqNo, data);
  }

  lemma ReceiveEffect(cfg: Config, s: System, data: bytes)
    requires Enabled(cfg, s, ClientReceives(data))
    ensures var w := s.client.waiting.value;
            var o := VerdictOf(cfg.lib, cfg.key, w.seqNo, data);
            Apply(cfg, s, ClientReceives(data)) ==
              if o.None? then s
              else s.(client := s.client.(waiting := None), outcomes := s.outcomes[w.seqNo := o.value])
  {
    assert s.toServer + (set d | d in []) == s.toServer;
  }

  lemma CaughtUp(cfg: Config, issued: seq<Request>, accepted: seq<Entry>, outcomes: map<nat, Outcome>, n: nat)
    requires Caught(cfg, issued, accepted, true, outcomes) && |accepted| == |issued| == n + 1
    ensures Caught(cfg, issued, accepted, false, outcomes[n := Returned(LastFrame(cfg, accepted[n].reply))])
  {
  }

  /** The outstanding request returns the answer the server remembers for it. */
  lemma CalmReturn(cfg: Config, s: System)
    requires Orderly(cfg, s) && s.client.waiting.Some? && |s.life.accepted| == |s.issued| > 0
    ensures var n := |s.issued| - 1;
            var o := Returned(LastFrame(cfg, s.life.accepted[n].reply));
            Orderly(cfg, s.(client := s.client.(waiting := None), outcomes := s.outcomes[n := o]))
  {
    CaughtUp(cfg, s.issued, s.life.accepted, s.outcomes, |s.issued| - 1);
  }

  lemma ReturnsGrow(outcomes: map<nat, Outcome>, n: nat, o: Outcome)
    requires o.Returned?
    ensures ReturnsOf(outcomes[n := o], n + 1) == ReturnsOf(outcomes, n) + [o.frame]
  {
  }

  lemma ReturnOldest(lib: Library, r: Rpc, r': Rpc)
    requires |r.returned| < |r.replies| && r' == r.(returned := r.returned + [r.replies[|r.returned|]])
    ensures RpcNext(lib, r, r')
  {
  }

  lemma ReturnIsStep(cfg: Config, s: System)
    requires s.client.waiting.Some? && |s.life.accepted| == |s.issued| > 0
    ensures var n := |s.issued| - 1;
            var o := Returned(LastFrame(cfg, s.life.accepted[n].reply));
            RpcNext(cfg.lib, AbsOf(cfg, s), AbsOf(cfg, s.(client := s.client.(waiting := None), outcomes := s.outcomes[n := o])))
  {
    var n := |s.issued| - 1;
    var o := Returned(LastFrame(cfg, s.life.accepted[n].reply));
    ReturnsGrow(s.outcomes, n, o);
    var r, r' := AbsOf(cfg, s), AbsOf(cfg, s.(client := s.client.(waiting := None), outcomes := s.outcomes[n := o]));
    ReturnOldest(cfg.lib, r, r');
  }

  lemma CalmClientReceives(cfg: Config, s: System, data: bytes)
    requires CalmInvariant(cfg, s) && Enabled(cfg, s, ClientReceives(data))
    ensures CalmInvariant(cfg, Apply(cfg, s, ClientReceives(data)))
    ensures RpcNext(cfg.lib, AbsOf(cfg, s), AbsOf(cfg, Apply(cfg, s, ClientReceives(data))))
  {
    ClientReceivesKeeps(cfg, s, data);
    ReceiveEffect(cfg, s, data);
    if VerdictOf(cfg.lib, cfg.key, s.client.waiting.value.seqNo, data).Some? {
      AcceptedAnswer(cfg, s, data);
      CalmReturn(cfg, s);
      ReturnIsStep(cfg, s);
    }
  }

  lemma AnswerNotEmpty(cfg: Config, issued: seq<Request>, n: int, data: bytes)
    requires Answers(cfg, issued, n, data)
    ensures data != []
  {
    if data == [] {
      SplitIffWireAll(cfg.lib, data, SplitOf(cfg.lib, data, cfg.key).value, cfg.key);
      SplitIffWireAll(cfg.lib, [], [], cfg.key);
      assert false;
    }
  }

  /** A copy of a request that already ran: the network gains a copy of its answer. */
  lemma ReplayEffect(cfg: Config, s: System, f: WireFrame, helloAck: Payload)
    requires CalmInvariant(cfg, s) && Genuine(s.issued, f) && f.seqNo < |s.life.accepted|
    requires f.seqNo + cfg.size > s.life.peer.value.session.lastPeerSeq
    ensures ServerMoved(cfg, s, f, helloAck) == s.(toClient := s.toClient + {s.life.accepted[f.seqNo].reply})
  {
    WindowDecides(cfg, s, f, helloAck);
    var reply := s.life.accepted[f.seqNo].reply;
    assert Served(cfg, s.issued, f.seqNo, reply);
    AnswerNotEmpty(cfg, s.issued, f.seqNo, reply);
  }

  lemma CalmReplay(cfg: Config, s: System, n: nat)
    requires Orderly(cfg, s) && n < |s.life.accepted|
    ensures var s' := s.(toClient := s.toClient + {s.life.accepted[n].reply});
            Orderly(cfg, s') && AbsOf(cfg, s') == AbsOf(cfg, s)
  {
    assert AnswerOf(s.life.accepted, s.life.accepted[n].reply);
  }

  /** The state after the next request ran, told without the server's code. */
  ghost predicate Grown(cfg: Config, s: System, s': System, f: WireFrame, reply: bytes)
  {
    && Served(cfg, s.issued, f.seqNo, reply)
    && s' == s.(life := s'.life, toClient := s.toClient + {reply}, dispatched := s.dispatched + [f], served := s.served + [f])
    && s'.life.accepted == s.life.accepted + [Entry(f.seqNo, reply)]
  }

  /** The next request in order: one more is accepted, dispatched and answered. */
  lemma ExecuteEffect(cfg: Config, s: System, f: WireFrame, helloAck: Payload) returns (reply: bytes)
    requires CalmInvariant(cfg, s) && Genuine(s.issued, f) && f.seqNo == |s.life.accepted|
    ensures Grown(cfg, s, ServerMoved(cfg, s, f, helloAck), f, reply)
  {
    NextIsServed(cfg, s, f, helloAck);
    reply := PeerStep(cfg.lib, cfg.key, cfg.size, s.life.peer, f, helloAck).1.reply;
    AnswerNotEmpty(cfg, s.issued, f.seqNo, reply);
  }

  lemma OrderGrows(cfg: Config, issued: seq<Request>, accepted: seq<Entry>, e: Entry, toClient: set<bytes>)
    requires InOrder(cfg, issued, accepted) && e.seqNo == |accepted| && Served(cfg, issued, e.seqNo, e.reply)
    requires forall d | d in toClient :: AnswerOf(accepted, d)
    ensures InOrder(cfg, issued, accepted + [e])
    ensures forall d | d in toClient + {e.reply} :: AnswerOf(accepted + [e], d)
  {
    forall d | d in toClient + {e.reply} ensures AnswerOf(accepted + [e], d) {
      if d in toClient {
        var i :| 0 <= i < |accepted| && accepted[i].reply == d;
        assert (accepted + [e])[i].reply == d;
      } else {
        assert (accepted + [e])[|accepted|].reply == d;
      }
    }
  }

  lemma CalmExecute(cfg: Config, s: System, s': System, f: WireFrame, reply: bytes)
    requires Orderly(cfg, s) && Genuine(s.issued, f) && f.seqNo == |s.life.accepted|
    requires Grown(cfg, s, s', f, reply)
    ensures Orderly(cfg, s')
  {
    OrderGrows(cfg, s.issued, s.life.accepted, Entry(f.seqNo, reply), s.toClient);
  }

  lemma RepliesGrow(cfg: Config, accepted: seq<Entry>, e: Entry)
    ensures Replies(cfg, accepted + [e]) == Replies(cfg, accepted) + [LastFrame(cfg, e.reply)]
  {
  }

  lemma GrowthIsExecution(cfg: Config, s: System, s': System, f: WireFrame, reply: bytes)
    requires Genuine(s.issued, f) && f.seqNo == |s.life.accepted| && Grown(cfg, s, s', f, reply)
    ensures RpcNext(cfg.lib, AbsOf(cfg, s), AbsOf(cfg, s'))
  {
    RepliesGrow(cfg, s.life.accepted, Entry(f.seqNo, reply));
    var r, c := AbsOf(cfg, s), LastFrame(cfg, reply);
    assert AbsOf(cfg, s') == r.(replies := r.replies + [c]);
    assert Matches(cfg.lib, r.issued[|r.replies|], |r.replies|, c);
  }

  lemma CalmServerReceives(cfg: Config, s: System, data: bytes, helloAck: Payload)
    requires CalmInvariant(cfg, s) && Enabled(cfg, s, ServerReceives(data, helloAck))
    requires Calm(cfg, s, ServerReceives(data, helloAck))
    ensures Orderly(cfg, Apply(cfg, s, ServerReceives(data, helloAck)))
    ensures RpcNext(cfg.lib, AbsOf(cfg, s), AbsOf(cfg, Apply(cfg, s, ServerReceives(data, helloAck))))
  {
    var decoded := Decode(cfg.lib, data, Some(cfg.key));
    if decoded.Ok? {
      var f := decoded.value;
      assert GenuineBytes(cfg, s.issued, data);
      if f.seqNo < |s.life.accepted| {
        ReplayEffect(cfg, s, f, helloAck);
        CalmReplay(cfg, s, f.seqNo);
      } else {
        var reply := ExecuteEffect(cfg, s, f, helloAck);
        var s' := ServerMoved(cfg, s, f, helloAck);
        CalmExecute(cfg, s, s', f, reply);
        GrowthIsExecution(cfg, s, s', f, reply);
      }
    }
  }

  lemma CalmStep(cfg: Config, s: System, a: Action)
    requires CalmInvariant(cfg, s) && Enabled(cfg, s, a) && Calm(cfg, s, a)
    ensures CalmInvariant(cfg, Apply(cfg, s, a))
    ensures RpcNext(cfg.lib, AbsOf(cfg, s), AbsOf(cfg, Apply(cfg, s, a)))
  {
    match a
    case Issue(req) => CalmIssue(cfg, s, req);
    case TimeOut => CalmTimeOut(cfg, s);
    case ClientReceives(data) => CalmClientReceives(cfg, s, data);
    case ServerReceives(data, helloAck) =>
      ServerReceivesKeeps(cfg, s, data, helloAck);
      CalmServerReceives(cfg, s, data, helloAck);
  }

  lemma CalmKeeps(cfg: Config, s: System, a: Action)
    requires CalmInvariant(cfg, s) && Enabled(cfg, s, a) && Calm(cfg, s, a)
    ensures CalmInvariant(cfg, Apply(cfg, s, a))
  {
    CalmStep(cfg, s, a);
  }

  // ---- whole runs ----

  ghost predicate CalmRun(cfg: Config, actions: seq<Action>)
    requires StateAfter(cfg, actions).Some?
  {
    actions == [] ||
    var before := actions[..|actions| - 1];
    CalmRun(cfg, before) && Calm(cfg, StateAfter(cfg, before).value, actions[|actions| - 1])
  }

  lemma {:induction false} CalmInvariantHolds(cfg: Config, actions: seq<Action>)
    requires StateAfter(cfg, actions).Some? && CalmRun(cfg, actions)
    ensures CalmInvariant(cfg, StateAfter(cfg, actions).value)
  {
    if actions != [] {
      CalmInvariantHolds(cfg, actions[..|actions| - 1]);
      CalmKeeps(cfg, StateAfter(cfg, actions[..|actions| - 1]).value, actions[|actions| - 1]);
    }
  }

  /** Every calm run is a run of the atomic service: it starts empty, and each action is one
      step of it or changes nothing it can see. */
  lemma Refinement(cfg: Config, actions: seq<Action>)
    requires StateAfter(cfg, actions).Some? && CalmRun(cfg, actions)
    ensures AbsOf(cfg, Init()) == Rpc([], [], [])
    ensures actions != [] ==>
              var before := actions[..|actions| - 1];
              && StateAfter(cfg, before).Some? && CalmRun(cfg, before)
              && RpcNext(cfg.lib, AbsOf(cfg, StateAfter(cfg, before).value), AbsOf(cfg, StateAfter(cfg, actions).value))
  {
    if actions != [] {
      CalmInvariantHolds(cfg, actions[..|actions| - 1]);
      CalmStep(cfg, StateAfter(cfg, actions[..|actions| - 1]).value, actions[|actions| - 1]);
    }
  }

  /** What a calm run guarantees: the handler served the issued requests in order, each once, and
      computed their replies; exactly the requests before the one in flight have ended, and
      each returned its own reply to the caller. */
  lemma InOrderExactlyOnce(cfg: Config, actions: seq<Action>)
    requires StateAfter(cfg, actions).Some? && CalmRun(cfg, actions)
    ensures var s := StateAfter(cfg, actions).value;
            var r := AbsOf(cfg, s);
            && Dispatched(s.issued, s.dispatched, |s.dispatched|)
            && s.served == s.dispatched && |s.dispatched| == |r.replies|
            && |r.returned| == |s.issued| - (if s.client.waiting.Some? then 1 else 0)
            && |r.returned| <= |r.replies| <= |s.issued|
            && (forall n: nat :: n in s.outcomes <==> n < |r.returned|)
            && (forall n | n in s.outcomes :: s.outcomes[n] == Returned(r.replies[n]) && r.returned[n] == r.replies[n])
  {
    CalmInvariantHolds(cfg, actions);
    var s := StateAfter(cfg, actions).value;
    assert Orderly(cfg, s);
    ReturnedReplies(cfg, s.issued, s.life.accepted, s.client.waiting.Some?, s.outcomes);
  }

  lemma ReturnedReplies(cfg: Config, issued: seq<Request>, accepted: seq<Entry>, waiting: bool, outcomes: map<nat, Outcome>)
    requires Caught(cfg, issued, accepted, waiting, outcomes) && (waiting ==> issued != [])
    ensures var returned := ReturnsOf(outcomes, |issued| - if waiting then 1 else 0);
            var replies := Replies(cfg, accepted);
            && |returned| <= |replies|
            && (forall n: nat :: n in outcomes <==> n < |returned|)
            && (forall n | n in outcomes :: outcomes[n] == Returned(replies[n]) && returned[n] == replies[n])
  {
  }

  /** In a calm run the server never sends an ERROR, so it never answers ERR_SEQ. */
  lemma NeverAnError(cfg: Config, actions: seq<Action>, d: bytes)
    requires StateAfter(cfg, actions).Some? && CalmRun(cfg, actions)
    requires d in StateAfter(cfg, actions).value.toClient
    ensures LastFrame(cfg, d).msgType != Error
  {
    CalmInvariantHolds(cfg, actions);
    var s := StateAfter(cfg, actions).value;
    assert Orderly(cfg, s) && AnswerOf(s.life.accepted, d);
    var i := AnswerIsServed(cfg, s.issued, s.life.accepted, d);
  }

  // ---- the window is the only source of errors ----

  ghost predicate PatientRun(cfg: Config, actions: seq<Action>)
    requires StateAfter(cfg, actions).Some?
  {
    actions == [] ||
    var before := actions[..|actions| - 1];
    PatientRun(cfg, before) && Patient(cfg, StateAfter(cfg, before).value, actions[|actions| - 1])
  }

  ghost predicate RecentRun(cfg: Config, actions: seq<Action>)
    requires StateAfter(cfg, actions).Some?
  {
    actions == [] ||
    var before := actions[..|actions| - 1];
    RecentRun(cfg, before) && Recent(cfg, StateAfter(cfg, before).value, actions[|actions| - 1])
  }

  lemma {:induction false} CalmIsPatientAndRecent(cfg: Config, actions: seq<Action>)
    requires StateAfter(cfg, actions).Some?
    ensures CalmRun(cfg, actions) <==> PatientRun(cfg, actions) && RecentRun(cfg, actions)
  {
    if actions != [] {
      CalmIsPatientAndRecent(cfg, actions[..|actions| - 1]);
    }
  }

  ghost predicate AnErrorWasSent(cfg: Config, s: System)
  {
    exists d :: d in s.toClient && LastFrame(cfg, d).msgType == Error
  }

  /** A frame the session refuses for its number is answered with an ACK and an ERROR. */
  lemma RefusedEndsInError(cfg: Config, s: Session, f: WireFrame)
    requires Open(s) && RequiresAck(f) && f.seqNo <= s.lastPeerSeq
    ensures var reply := WireAll(cfg.lib, HandleOf(cfg.lib, s, f).1, cfg.key);
            reply != [] && LastFrame(cfg, reply).msgType == Error
  {
    var frames := HandleOf(cfg.lib, s, f).1;
    var (s1, ack) := AckOf(s, f.seqNo);
    var r := OnFrameOf(cfg.lib, s1, f).1;
    assert frames == [ack] + r.frames && frames[|frames| - 1] == r.frames[0];
    SplitIffWireAll(cfg.lib, WireAll(cfg.lib, frames, cfg.key), frames, cfg.key);
    SplitIffWireAll(cfg.lib, [], [], cfg.key);
  }

  lemma RefusedAnswer(cfg: Config, peer: Option<Peer>, f: WireFrame, helloAck: Payload)
    requires peer.Some? && Open(peer.value.session) && RequiresAck(f) && f.seqNo <= peer.value.session.lastPeerSeq
    requires PeerStep(cfg.lib, cfg.key, cfg.size, peer, f, helloAck).1.Handled?
    ensures var reply := PeerStep(cfg.lib, cfg.key, cfg.size, peer, f, helloAck).1.reply;
            reply != [] && LastFrame(cfg, reply).msgType == Error
  {
    RefusedEndsInError(cfg, peer.value.session, f);
  }

  lemma GenuineAsksForAck(issued: seq<Request>, f: WireFrame)
    requires Genuine(issued, f)
    ensures RequiresAck(f)
  {
    assert f.flags == 1 || f.flags == 3;
  }

  lemma StaleIsRefused(cfg: Config, s: System, f: WireFrame, helloAck: Payload)
    requires CalmInvariant(cfg, s) && s.life.peer.Some? && Genuine(s.issued, f)
    requires f.seqNo + cfg.size <= s.life.peer.value.session.lastPeerSeq
    ensures AnErrorWasSent(cfg, ServerMoved(cfg, s, f, helloAck))
  {
    WindowDecides(cfg, s, f, helloAck);
    GenuineAsksForAck(s.issued, f);
    RefusedAnswer(cfg, s.life.peer, f, helloAck);
    SentErrors(cfg, s, f, helloAck);
  }

  lemma SentErrors(cfg: Config, s: System, f: WireFrame, helloAck: Payload)
    requires var reply := PeerStep(cfg.lib, cfg.key, cfg.size, s.life.peer, f, helloAck).1.reply;
             reply != [] && LastFrame(cfg, reply).msgType == Error
    ensures AnErrorWasSent(cfg, ServerMoved(cfg, s, f, helloAck))
  {
    assert PeerStep(cfg.lib, cfg.key, cfg.size, s.life.peer, f, helloAck).1.reply in ServerMoved(cfg, s, f, helloAck).toClient;
  }

  lemma StaleCopyIsAnError(cfg: Config, s: System, a: Action)
    requires CalmInvariant(cfg, s) && Enabled(cfg, s, a) && !Recent(cfg, s, a)
    ensures AnErrorWasSent(cfg, Apply(cfg, s, a))
  {
    assert GenuineBytes(cfg, s.issued, a.data);
    StaleIsRefused(cfg, s, Decode(cfg.lib, a.data, Some(cfg.key)).value, a.helloAck);
  }

  lemma ErrorsStay(cfg: Config, s: System, a: Action)
    requires Enabled(cfg, s, a) && AnErrorWasSent(cfg, s)
    ensures AnErrorWasSent(cfg, Apply(cfg, s, a))
  {
    var d :| d in s.toClient && LastFrame(cfg, d).msgType == Error;
    assert d in Apply(cfg, s, a).toClient;
  }

  lemma {:induction false} StaleRunHasAnError(cfg: Config, actions: seq<Action>)
    requires StateAfter(cfg, actions).Some? && PatientRun(cfg, actions) && !RecentRun(cfg, actions)
    ensures AnErrorWasSent(cfg, StateAfter(cfg, actions).value)
  {
    var before, a := actions[..|actions| - 1], actions[|actions| - 1];
    var s := StateAfter(cfg, before).value;
    if RecentRun(cfg, before) {
      CalmIsPatientAndRecent(cfg, before);
      CalmInvariantHolds(cfg, before);
      StaleCopyIsAnError(cfg, s, a);
    } else {
      StaleRunHasAnError(cfg, before);
      ErrorsStay(cfg, s, a);
    }
  }

  /** As long as the client is patient, the server sends no ERROR if and only if no copy
      delivered to it was older than the window. */
  lemma ErrorFreeIffRecent(cfg: Config, actions: seq<Action>)
    requires StateAfter(cfg, actions).Some? && PatientRun(cfg, actions)
    ensures AnErrorWasSent(cfg, StateAfter(cfg, actions).value) <==> !RecentRun(cfg, actions)
  {
    if RecentRun(cfg, actions) {
      CalmIsPatientAndRecent(cfg, actions);
      forall d | d in StateAfter(cfg, actions).value.toClient ensures LastFrame(cfg, d).msgType != Error {
        NeverAnError(cfg, actions, d);
      }
    } else {
      StaleRunHasAnError(cfg, actions);
    }
  }

  /** In a calm run the window is a contiguous interval that ends at the newest number. */
  lemma WindowIsContiguous(cfg: Config, actions: seq<Action>, i: nat)
    requires StateAfter(cfg, actions).Some? && CalmRun(cfg, actions)
    requires StateAfter(cfg, actions).value.life.peer.Some?
    requires i < |StateAfter(cfg, actions).value.life.peer.value.window|
    ensures var p := StateAfter(cfg, actions).value.life.peer.value;
            p.window[i].seqNo == p.session.lastPeerSeq - (|p.window| - 1 - i)
  {
    CalmInvariantHolds(cfg, actions);
    var s := StateAfter(cfg, actions).value;
    var gone := LastNCuts(s.life.accepted, cfg.size);
    assert s.life.accepted[|gone| + i] == s.life.peer.value.window[i];
  }

  // ---- nothing gets stuck ----

  /** The request in flight has been sent in its current form. */
  ghost predicate InFlight(cfg: Config, s: System)
  {
    s.client.waiting.Some? ==> Wire(cfg.lib, RequestFrame(s.client.waiting.value), cfg.key) in s.toServer
  }

  lemma InFlightStep(cfg: Config, s: System, a: Action)
    requires InFlight(cfg, s) && Enabled(cfg, s, a)
    ensures InFlight(cfg, Apply(cfg, s, a))
  {
  }

  lemma {:induction false} InFlightHolds(cfg: Config, actions: seq<Action>)
    requires StateAfter(cfg, actions).Some?
    ensures InFlight(cfg, StateAfter(cfg, actions).value)
  {
    if actions != [] {
      InFlightHolds(cfg, actions[..|actions| - 1]);
      InFlightStep(cfg, StateAfter(cfg, actions[..|actions| - 1]).value, actions[|actions| - 1]);
    }
  }

  lemma InFlightIsCalm(cfg: Config, s: System, data: bytes, helloAck: Payload)
    requires CalmInvariant(cfg, s) && s.client.waiting.Some? && cfg.size >= 1
    requires data == Wire(cfg.lib, RequestFrame(s.client.waiting.value), cfg.key) && data in s.toServer
    ensures var a, f := ServerReceives(data, helloAck), RequestFrame(s.client.waiting.value);
            && Enabled(cfg, s, a) && Calm(cfg, s, a)
            && Genuine(s.issued, f) && f.seqNo == |s.issued| - 1
            && Apply(cfg, s, a) == ServerMoved(cfg, s, f, helloAck)
  {
    var f := RequestFrame(s.client.waiting.value);
    DecodeIffEncode(cfg.lib, data, f, cfg.key);
    if s.life.peer.Some? {
      assert s.life.accepted[|s.life.accepted| - 1].seqNo == |s.life.accepted| - 1;
    }
  }

  /** Delivering the request in flight, whether it ran before or not, leaves its answer on the
      way back. */
  lemma RequestGetsAnswered(cfg: Config, s: System, f: WireFrame, helloAck: Payload)
    requires CalmInvariant(cfg, s) && Genuine(s.issued, f) && f.seqNo == |s.issued| - 1
    requires s.life.peer.Some? ==> f.seqNo + cfg.size > s.life.peer.value.session.lastPeerSeq
    ensures var s' := ServerMoved(cfg, s, f, helloAck);
            && s'.client == s.client && s'.issued == s.issued
            && |s'.life.accepted| == |s.issued|
            && s'.life.accepted[f.seqNo].reply in s'.toClient
  {
    if f.seqNo < |s.life.accepted| {
      ReplayEffect(cfg, s, f, helloAck);
    } else {
      var reply := ExecuteEffect(cfg, s, f, helloAck);
    }
  }

  /** The outstanding request has run and its answer is on the way back. */
  ghost predicate Answerable(cfg: Config, s: System, answer: bytes)
  {
    && CalmInvariant(cfg, s) && s.client.waiting.Some?
    && |s.life.accepted| == |s.issued| && s.life.accepted[|s.issued| - 1].reply == answer && answer in s.toClient
  }

  lemma FirstDelivery(cfg: Config, s: System, data: bytes, helloAck: Payload) returns (answer: bytes)
    requires CalmInvariant(cfg, s) && s.client.waiting.Some? && cfg.size >= 1
    requires data == Wire(cfg.lib, RequestFrame(s.client.waiting.value), cfg.key) && data in s.toServer
    ensures var a := ServerReceives(data, helloAck);
            Enabled(cfg, s, a) && Calm(cfg, s, a) && Answerable(cfg, Apply(cfg, s, a), answer)
  {
    InFlightIsCalm(cfg, s, data, helloAck);
    if s.life.peer.Some? {
      InFlightIsRecent(cfg, s);
    }
    RequestGetsAnswered(cfg, s, RequestFrame(s.client.waiting.value), helloAck);
    var a := ServerReceives(data, helloAck);
    CalmKeeps(cfg, s, a);
    answer := Apply(cfg, s, a).life.accepted[|s.issued| - 1].reply;
  }

  lemma InFlightIsRecent(cfg: Config, s: System)
    requires CalmInvariant(cfg, s) && s.client.waiting.Some? && cfg.size >= 1 && s.life.peer.Some?
    ensures |s.issued| - 1 + cfg.size > s.life.peer.value.session.lastPeerSeq
  {
    assert s.life.accepted[|s.life.accepted| - 1].seqNo == |s.life.accepted| - 1;
  }

  lemma SecondDelivery(cfg: Config, s: System, answer: bytes)
    requires Answerable(cfg, s, answer)
    ensures Enabled(cfg, s, ClientReceives(answer))
    ensures var s' := Apply(cfg, s, ClientReceives(answer));
            s'.client.waiting == None && s'.issued == s.issued
  {
    var n := |s.issued| - 1;
    assert Served(cfg, s.issued, n, answer);
    AnswerNotEmpty(cfg, s.issued, n, answer);
  }

  lemma RunExtends(cfg: Config, actions: seq<Action>, a: Action)
    requires StateAfter(cfg, actions).Some? && Enabled(cfg, StateAfter(cfg, actions).value, a)
    ensures StateAfter(cfg, actions + [a]) == Some(Apply(cfg, StateAfter(cfg, actions).value, a))
    ensures CalmRun(cfg, actions) && Calm(cfg, StateAfter(cfg, actions).value, a) ==> CalmRun(cfg, actions + [a])
  {
    assert (actions + [a])[..|actions|] == actions;
  }

  lemma CalmRunExtends(cfg: Config, actions: seq<Action>, a: Action, b: Action)
    requires StateAfter(cfg, actions).Some? && CalmRun(cfg, actions)
    requires var s := StateAfter(cfg, actions).value;
             && Enabled(cfg, s, a) && Calm(cfg, s, a)
             && Enabled(cfg, Apply(cfg, s, a), b) && Calm(cfg, Apply(cfg, s, a), b)
    ensures var run := actions + [a] + [b];
            && StateAfter(cfg, run) == Some(Apply(cfg, Apply(cfg, StateAfter(cfg, actions).value, a), b))
            && CalmRun(cfg, run)
  {
    RunExtends(cfg, actions, a);
    RunExtends(cfg, actions + [a], b);
  }

  /** From every state of a calm run, with any window that can hold one number, two deliveries
      finish the outstanding request, and the run stays calm: its last datagram to the server,
      and an answer back. */
  lemma TwoDeliveriesFinish(cfg: Config, actions: seq<Action>, helloAck: Payload) returns (data: bytes, answer: bytes)
    requires StateAfter(cfg, actions).Some? && CalmRun(cfg, actions) && cfg.size >= 1
    requires StateAfter(cfg, actions).value.client.waiting.Some?
    ensures var run := actions + [ServerReceives(data, helloAck)] + [ClientReceives(answer)];
            && StateAfter(cfg, run).Some? && CalmRun(cfg, run)
            && StateAfter(cfg, run).value.client.waiting == None
            && StateAfter(cfg, run).value.issued == StateAfter(cfg, actions).value.issued
  {
    var s := StateAfter(cfg, actions).value;
    CalmInvariantHolds(cfg, actions);
    InFlightHolds(cfg, actions);
    data := Wire(cfg.lib, RequestFrame(s.client.waiting.value), cfg.key);
    answer := FirstDelivery(cfg, s, data, helloAck);
    var s1 := Apply(cfg, s, ServerReceives(data, helloAck));
    SecondDelivery(cfg, s1, answer);
    CalmRunExtends(cfg, actions, ServerReceives(data, helloAck), ClientReceives(answer));
    assert s1.issued == s.issued;
  }
}
