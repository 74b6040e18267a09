/** The UDP server: one peer per source address (`UdpServer._on_datagram`). */
module UdpServers {
  import opened Bytes
  import opened Protocol
  import opened Codec
  import opened Framing
  import opened Sessions
  import opened Dedup
  import opened UdpPeer

  datatype Addr = Addr(host: uint32, port: uint16)

  datatype Server = Server(peers: map<Addr, Peer>, handled: nat, duplicates: nat)

  /** A datagram, where it claims to come from, and the HELLO_ACK payload a session created
      for it would send. */
  datatype Event = Event(data: bytes, addr: Addr, helloAck: Payload)

  function PeerAt(s: Server, a: Addr): Option<Peer>
  {
    if a in s.peers then Some(s.peers[a]) else None
  }

  function WithPeer(s: Server, a: Addr, peer: Option<Peer>): Server
  {
    s.(peers := if peer.Some? then s.peers[a := peer.value] else s.peers - {a})
  }

  /** An address that is not known yet gets a new session and an empty window. */
  function Admitted(s: Server, a: Addr, helloAck: Payload): Server
  {
    WithPeer(s, a, Some(PeerOf(PeerAt(s, a), helloAck)))
  }

  function NonEmpty(reply: bytes): Option<bytes>
  {
    if reply == [] then None else Some(reply)
  }

  /** A frame from a known address: replayed from the window, or run. */
  function ServeOf(lib: Library, key: bytes, size: nat, s: Server, a: Addr, f: WireFrame): (Server, Option<bytes>)
    requires a in s.peers
  {
    match Lookup(s.peers[a].window, f.seqNo)
    case Some(reply) => (s.(duplicates := s.duplicates + 1), NonEmpty(reply))
    case None => ExecuteOf(lib, key, size, s, a, f)
  }

  /** The answer, and the state in which it is remembered. */
  function HandledOf(lib: Library, key: bytes, size: nat, s: Server, a: Addr, f: WireFrame): (Server, bytes, bool)
    requires a in s.peers
  {
    var p := s.peers[a];
    var (session, frames, close) := HandleOf(lib, p.session, f);
    var reply := WireAll(lib, frames, key);
    (WithPeer(s, a, Some(Peer(session, PutOf(p.window, f.seqNo, reply, size)))).(handled := s.handled + 1), reply, close)
  }

  /** A session that ends is forgotten together with its window. */
  function ExecuteOf(lib: Library, key: bytes, size: nat, s: Server, a: Addr, f: WireFrame): (Server, Option<bytes>)
    requires a in s.peers
  {
    var (stored, reply, close) := HandledOf(lib, key, size, s, a, f);
    (if close then WithPeer(stored, a, None) else stored, NonEmpty(reply))
  }

  /** One datagram: the new state, and the datagram sent back to its address, if any. */
  function ServerStep(lib: Library, key: bytes, size: nat, s: Server, e: Event): (Server, Option<bytes>)
  {
    match Decode(lib, e.data, Some(key))
    case Err(_) => (s, None)
    case Ok(f) => ServeOf(lib, key, size, Admitted(s, e.addr, e.helloAck), e.addr, f)
  }

  /** What a frame makes of a peer's session and window, and the answer to it. */
  predicate Answered(lib: Library, key: bytes, size: nat, p: Peer, f: WireFrame, s: Session, entries: seq<Entry>, reply: bytes, close: bool)
  {
    var (s', frames, ended) := HandleOf(lib, p.session, f);
    s == s' && reply == WireAll(lib, frames, key) && close == ended && entries == PutOf(p.window, f.seqNo, reply, size)
  }

  lemma HandledIs(lib: Library, key: bytes, size: nat, m: Server, a: Addr, f: WireFrame, s: Session, entries: seq<Entry>, reply: bytes, close: bool)
    requires a in m.peers && Answered(lib, key, size, m.peers[a], f, s, entries, reply, close)
    ensures HandledOf(lib, key, size, m, a, f) == (WithPeer(m, a, Some(Peer(s, entries))).(handled := m.handled + 1), reply, close)
  {
  }

  datatype PeerObjects = PeerObjects(session: ServerSession, dedup: DedupWindow)

  class UdpServer {
    const lib: Library
    const key: bytes
    const size: nat
    var peers: map<Addr, PeerObjects>
    var handled: nat
    var duplicates: nat
    ghost var model: Server
    ghost var Repr: set<object>
    ghost var owner: map<object, Addr>

    /** The objects stored for an address belong to it alone. */
    ghost predicate Owns(a: Addr)
      requires a in peers
      reads this, Repr
    {
      var o := peers[a];
      && o.session in Repr && o.dedup in Repr
      && o.session in owner && owner[o.session] == a
      && o.dedup in owner && owner[o.dedup] == a
      && o.session.lib == lib && o.dedup.size == size
    }

    /** And they hold what the model says. */
    ghost predicate Holds(a: Addr)
      requires a in peers
      reads this, Repr
    {
      Owns(a) && a in model.peers && model.peers[a] == Peer(peers[a].session.Model(), peers[a].dedup.entries)
    }

    /** Valid, but for what the objects of one address hold. */
    ghost predicate ValidBut(b: Addr)
      reads this, Repr
    {
      && this !in Repr
      && model.peers.Keys == peers.Keys && model.handled == handled && model.duplicates == duplicates
      && owner.Keys <= Repr
      && (b in peers ==> Owns(b))
      && forall a | a in peers && a != b :: Holds(a)
    }

    ghost predicate Valid()
      reads this, Repr
    {
      && this !in Repr
      && model.peers.Keys == peers.Keys && model.handled == handled && model.duplicates == duplicates
      && owner.Keys <= Repr
      && forall a | a in peers :: Holds(a)
    }

    /** Addresses whose entries and objects are untouched still hold what the model says. */
    twostate lemma OthersHold(addr: Addr)
      requires old(Valid()) && old(Repr) <= Repr
      requires forall a | a in peers && a != addr ::
                 && a in old(peers) && peers[a] == old(peers[a])
                 && a in model.peers && model.peers[a] == old(model.peers[a])
                 && unchanged(peers[a].session) && unchanged(peers[a].dedup)
      requires forall o | o in old(owner) && old(owner)[o] != addr :: o in owner && owner[o] == old(owner)[o]
      ensures forall a | a in peers && a != addr :: Holds(a)
    {
      forall a | a in peers && a != addr ensures Holds(a) {
        assert old(Holds(a));
      }
    }

    constructor (lib: Library, key: bytes, size: nat)
      ensures this.lib == lib && this.key == key && this.size == size
      ensures Valid() && model == Server(map[], 0, 0) && Repr == {}
    {
      this.lib, this.key, this.size := lib, key, size;
      peers, handled, duplicates := map[], 0, 0;
      model, Repr, owner := Server(map[], 0, 0), {}, map[];
    }

    method OnDatagram(data: bytes, addr: Addr, helloAck: Payload) returns (sent: Option<bytes>)
      requires Valid()
      modifies this, Repr
      ensures Valid() && fresh(Repr - old(Repr))
      ensures (model, sent) == ServerStep(lib, key, size, old(model), Event(data, addr, helloAck))
    {
      sent := None;
      var decoded := Decode(lib, data, Some(key));
      if decoded.Ok? {
        Admit(addr, helloAck);
        sent := Serve(addr, decoded.value);
      }
    }

    method Serve(addr: Addr, f: WireFrame) returns (sent: Option<bytes>)
      requires Valid() && addr in peers
      modifies this`peers, this`handled, this`duplicates, this`model, peers[addr].session, peers[addr].dedup
      ensures Valid()
      ensures (model, sent) == ServeOf(lib, key, size, old(model), addr, f)
    {
      assert Holds(addr);
      var cached := peers[addr].dedup.Get(f.seqNo);
      if cached.None? {
        sent := Execute(addr, f);
      } else {
        CountDuplicate();
        sent := if cached.value == [] then None else cached;
      }
    }

    method CountDuplicate()
      requires Valid()
      modifies this`duplicates, this`model
      ensures Valid() && model == old(model).(duplicates := old(model).duplicates + 1)
    {
      duplicates := duplicates + 1;
      model := model.(duplicates := duplicates);
      assert forall a | a in peers :: old(Holds(a));
    }

    /** A frame that is not a duplicate runs, and a session that ends is forgotten. */
    method Execute(addr: Addr, f: WireFrame) returns (sent: Option<bytes>)
      requires Valid() && addr in peers
      modifies this`peers, this`handled, this`model, peers[addr].session, peers[addr].dedup
      ensures Valid()
      ensures (model, sent) == ExecuteOf(lib, key, size, old(model), addr, f)
    {
      var reply, close := Handle(addr, f);
      sent := if reply == [] then None else Some(reply);
      if close {
        Forget(addr);
      }
    }

    method Forget(addr: Addr)
      requires Valid() && addr in peers
      modifies this`peers, this`model
      ensures Valid() && model == WithPeer(old(model), addr, None)
    {
      peers := peers - {addr};
      model := model.(peers := model.peers - {addr});
      OthersHold(addr);
    }

    /** The address has a peer from here on. */
    method Admit(addr: Addr, helloAck: Payload)
      requires Valid()
      modifies this`peers, this`model, this`Repr, this`owner
      ensures Valid() && addr in peers && fresh(Repr - old(Repr))
      ensures model == Admitted(old(model), addr, helloAck)
    {
      if addr !in peers {
        var session := new ServerSession(lib, helloAck);
        var dedup := new DedupWindow(size);
        Store(addr, session, dedup);
      }
    }

    method Store(addr: Addr, session: ServerSession, dedup: DedupWindow)
      requires Valid() && addr !in peers
      requires session !in Repr && dedup !in Repr && session.lib == lib && dedup.size == size
      modifies this`peers, this`model, this`Repr, this`owner
      ensures Valid() && addr in peers && Repr == old(Repr) + {session, dedup}
      ensures model == WithPeer(old(model), addr, Some(Peer(session.Model(), dedup.entries)))
    {
      peers := peers[addr := PeerObjects(session, dedup)];
      Repr := Repr + {session, dedup};
      owner := owner[session := addr][dedup := addr];
      model := model.(peers := model.peers[addr := Peer(session.Model(), dedup.entries)]);
      assert Holds(addr);
      OthersHold(addr);
    }

    /** The part behind the window: the session answers, and the answer is remembered. */
    method Handle(addr: Addr, f: WireFrame) returns (reply: bytes, close: bool)
      requires Valid() && addr in peers
      modifies this`handled, this`model, peers[addr].session, peers[addr].dedup
      ensures Valid()
      ensures (model, reply, close) == HandledOf(lib, key, size, old(model), addr, f)
    {
      ghost var before := model;
      assert Holds(addr);
      reply, close := AnswerAt(addr, f);
      CountHandled(addr);
      HandledIs(lib, key, size, before, addr, f, peers[addr].session.Model(), peers[addr].dedup.entries, reply, close);
    }

    /** Answering changes the objects of one address; the other addresses keep theirs. */
    method AnswerAt(addr: Addr, f: WireFrame) returns (reply: bytes, close: bool)
      requires Valid() && addr in peers
      modifies peers[addr].session, peers[addr].dedup
      ensures ValidBut(addr)
      ensures model == old(model) && Answered(lib, key, size, model.peers[addr], f, peers[addr].session.Model(), peers[addr].dedup.entries, reply, close)
    {
      assert Holds(addr);
      reply, close := Answer(peers[addr].session, peers[addr].dedup, f);
      assert forall a | a in peers && a != addr :: old(Holds(a));
      OthersHold(addr);
    }

    /** The model catches up with what the objects of an address hold now. */
    method CountHandled(addr: Addr)
      requires addr in peers && ValidBut(addr)
      modifies this`handled, this`model
      ensures Valid()
      ensures model == WithPeer(old(model), addr, Some(Peer(peers[addr].session.Model(), peers[addr].dedup.entries)))
                       .(handled := old(model).handled + 1)
    {
      handled := handled + 1;
      model := model.(peers := model.peers[addr := Peer(peers[addr].session.Model(), peers[addr].dedup.entries)], handled := handled);
      forall a | a in peers ensures Holds(a) {
        assert a != addr ==> old(Holds(a));
      }
    }

    method Answer(session: ServerSession, dedup: DedupWindow, f: WireFrame) returns (reply: bytes, close: bool)
      requires session.lib == lib && dedup.size == size
      modifies session, dedup
      ensures var (s, frames, ended) := HandleOf(lib, old(session.Model()), f);
              session.Model() == s && reply == WireAll(lib, frames, key) && close == ended
      ensures dedup.entries == PutOf(old(dedup.entries), f.seqNo, reply, size)
    {
      var acks: seq<WireFrame> := [];
      if f.flags % 2 == 1 {
        var ack := session.MakeAck(f.seqNo);
        acks := [ack];
      }
      var reaction := session.OnFrame(f);
      reply := WireAll(lib, acks + reaction.frames, key);
      dedup.Put(f.seqNo, reply);
      close := reaction.close;
    }
  }

  // ---- peers do not see each other ----

  datatype Sent = Sent(addr: Addr, data: bytes)

  /** A run of the server: the final state and everything it sent, in order. */
  function Run(lib: Library, key: bytes, size: nat, s: Server, events: seq<Event>): (Server, seq<Sent>)
    decreases |events|
  {
    if events == [] then (s, [])
    else
      var (s1, reply) := ServerStep(lib, key, size, s, events[0]);
      var (s2, later) := Run(lib, key, size, s1, events[1..]);
      (s2, (if reply.Some? then [Sent(events[0].addr, reply.value)] else []) + later)
  }

  /** The authenticated frames that came from one address, in order. */
  function From(lib: Library, key: bytes, a: Addr, events: seq<Event>): seq<Delivery>
  {
    if events == [] then []
    else
      var f := Decode(lib, events[0].data, Some(key));
      (if events[0].addr == a && f.Ok? then [Delivery(f.value, events[0].helloAck)] else [])
      + From(lib, key, a, events[1..])
  }

  /** A server that knows a single address. */
  function PeerRun(lib: Library, key: bytes, size: nat, peer: Option<Peer>, ds: seq<Delivery>)
    : (Option<Peer>, seq<bytes>)
    decreases |ds|
  {
    if ds == [] then (peer, [])
    else
      var (p1, answer) := PeerStep(lib, key, size, peer, ds[0].frame, ds[0].helloAck);
      var (p2, later) := PeerRun(lib, key, size, p1, ds[1..]);
      (p2, (if answer.reply == [] then [] else [answer.reply]) + later)
  }

  function SentTo(a: Addr, sent: seq<Sent>): seq<bytes>
  {
    if sent == [] then []
    else (if sent[0].addr == a then [sent[0].data] else []) + SentTo(a, sent[1..])
  }

  function Authenticated(lib: Library, key: bytes, events: seq<Event>): nat
  {
    if events == [] then 0
    else (if Decode(lib, events[0].data, Some(key)).Ok? then 1 else 0) + Authenticated(lib, key, events[1..])
  }

  function Head<T>(x: Option<T>): seq<T>
  {
    if x.Some? then [x.value] else []
  }

  lemma SentToCons(a: Addr, x: Option<Sent>, later: seq<Sent>)
    ensures SentTo(a, Head(x) + later)
         == (if x.Some? && x.value.addr == a then [x.value.data] else []) + SentTo(a, later)
  {
    assert (Head(x) + later)[|Head(x)|..] == later;
  }

  lemma PeerRunCons(lib: Library, key: bytes, size: nat, peer: Option<Peer>, d: Delivery, later: seq<Delivery>)
    ensures PeerRun(lib, key, size, peer, [d] + later) ==
            (var (p1, answer) := PeerStep(lib, key, size, peer, d.frame, d.helloAck);
             var (p2, rest) := PeerRun(lib, key, size, p1, later);
             (p2, (if answer.reply == [] then [] else [answer.reply]) + rest))
  {
    assert ([d] + later)[1..] == later;
  }

  /** One datagram steps the peer it belongs to, if it is authenticated, and no other. */
  lemma StepIsolation(lib: Library, key: bytes, size: nat, s: Server, e: Event, a: Addr)
    ensures var (s', reply) := ServerStep(lib, key, size, s, e);
            var f := Decode(lib, e.data, Some(key));
            if f.Ok? && e.addr == a then
              var (peer, answer) := PeerStep(lib, key, size, PeerAt(s, a), f.value, e.helloAck);
              PeerAt(s', a) == peer && reply == NonEmpty(answer.reply)
            else
              PeerAt(s', a) == PeerAt(s, a) && (f.Err? ==> s' == s && reply == None)
  {
  }

  lemma NilConcat<T>(s: seq<T>)
    ensures [] + s == s
  {
  }

  /** What an address is sent and what is stored for it depend on its own authenticated
      frames and their order only, whatever else the server receives in between. */
  lemma {:induction false} PeerIsolation(lib: Library, key: bytes, size: nat, s: Server, events: seq<Event>, a: Addr)
    ensures (PeerAt(Run(lib, key, size, s, events).0, a), SentTo(a, Run(lib, key, size, s, events).1))
         == PeerRun(lib, key, size, PeerAt(s, a), From(lib, key, a, events))
    decreases |events|
  {
    if events != [] {
      var e := events[0];
      var (s1, reply) := ServerStep(lib, key, size, s, e);
      var (s2, later) := Run(lib, key, size, s1, events[1..]);
      PeerIsolation(lib, key, size, s1, events[1..], a);
      StepIsolation(lib, key, size, s, e, a);
      var x := if reply.Some? then Some(Sent(e.addr, reply.value)) else None;
      SentToCons(a, x, later);
      NilConcat(SentTo(a, later));
      assert Run(lib, key, size, s, events) == (s2, Head(x) + later);
      var mine, f := From(lib, key, a, events[1..]), Decode(lib, e.data, Some(key));
      if e.addr == a && f.Ok? {
        PeerRunCons(lib, key, size, PeerAt(s, a), Delivery(f.value, e.helloAck), mine);
      } else {
        NilConcat(mine);
      }
    }
  }

  /** Whether a datagram is answered from the window. */
  predicate IsReplay(lib: Library, key: bytes, size: nat, s: Server, e: Event)
  {
    var f := Decode(lib, e.data, Some(key));
    f.Ok? && PeerStep(lib, key, size, PeerAt(s, e.addr), f.value, e.helloAck).1.Replayed?
  }

  /** A replay counts as a duplicate, any other authenticated datagram as handled, and a datagram
      that fails its checks not at all. */
  lemma StepCounts(lib: Library, key: bytes, size: nat, s: Server, e: Event)
    ensures var s' := ServerStep(lib, key, size, s, e).0;
            var replayed := IsReplay(lib, key, size, s, e);
            && s'.duplicates == s.duplicates + (if replayed then 1 else 0)
            && s'.handled == s.handled + (if Decode(lib, e.data, Some(key)).Ok? && !replayed then 1 else 0)
  {
  }

  function Replays(lib: Library, key: bytes, size: nat, s: Server, events: seq<Event>): nat
    decreases |events|
  {
    if events == [] then 0
    else (if IsReplay(lib, key, size, s, events[0]) then 1 else 0)
         + Replays(lib, key, size, ServerStep(lib, key, size, s, events[0]).0, events[1..])
  }

  /** Every authenticated datagram is counted once: as a duplicate when it was answered from the
      window, and otherwise as handled. */
  lemma {:induction false} EveryDatagramIsCounted(lib: Library, key: bytes, size: nat, s: Server, events: seq<Event>)
    ensures var s' := Run(lib, key, size, s, events).0;
            && s'.duplicates == s.duplicates + Replays(lib, key, size, s, events)
            && s'.handled + s'.duplicates == s.handled + s.duplicates + Authenticated(lib, key, events)
    decreases |events|
  {
    if events != [] {
      StepCounts(lib, key, size, s, events[0]);
      EveryDatagramIsCounted(lib, key, size, ServerStep(lib, key, size, s, events[0]).0, events[1..]);
    }
  }

  // ---- every peer of every run ----

  lemma {:induction false} PeerRunAppend(lib: Library, key: bytes, size: nat, peer: Option<Peer>, ds: seq<Delivery>, d: Delivery)
    ensures PeerRun(lib, key, size, peer, ds + [d]).0
         == PeerStep(lib, key, size, PeerRun(lib, key, size, peer, ds).0, d.frame, d.helloAck).0
    decreases |ds|
  {
    if ds == [] {
      assert [d][1..] == [] && ds + [d] == [d];
    } else {
      assert (ds + [d])[1..] == ds[1..] + [d];
      PeerRunAppend(lib, key, size, PeerStep(lib, key, size, peer, ds[0].frame, ds[0].helloAck).0, ds[1..], d);
    }
  }

  lemma {:induction false} LifeIsPeerRun(lib: Library, key: bytes, size: nat, ds: seq<Delivery>)
    ensures LifeAfter(lib, key, size, ds).peer == PeerRun(lib, key, size, None, ds).0
  {
    if ds != [] {
      var before, d := ds[..|ds| - 1], ds[|ds| - 1];
      LifeIsPeerRun(lib, key, size, before);
      PeerRunAppend(lib, key, size, None, before, d);
      assert ds == before + [d];
    }
  }

  /** Whatever a server has received since it started, what it stores for an address is a READY
      session whose window holds the last numbers it accepted, in increasing order, the newest
      being the session's own; and what it did for that address was at most once per session. */
  lemma EveryPeerIsSound(lib: Library, key: bytes, size: nat, events: seq<Event>, a: Addr)
    ensures var peer := PeerAt(Run(lib, key, size, Server(map[], 0, 0), events).0, a);
            var h := HistoryAfter(lib, key, size, From(lib, key, a, events));
            h.life.peer == peer && LifeInvariant(h.life, size) && HistoryInvariant(h, size)
  {
    var ds := From(lib, key, a, events);
    PeerIsolation(lib, key, size, Server(map[], 0, 0), events, a);
    LifeIsPeerRun(lib, key, size, ds);
    HistoryIsLife(lib, key, size, ds);
    AtMostOnceSameBytes(lib, key, size, ds);
  }
}
