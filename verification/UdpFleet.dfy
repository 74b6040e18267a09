/** One server and any number of clients, each behind an address of its own: every client sees
    the two-party system of `UdpSystem`, whatever the others do. */
module UdpFleet {
  import opened Bytes
  import opened Protocol
  import opened Codec
  import opened UdpPeer
  import opened UdpServers
  import opened UdpClients
  import opened UdpSystem
  import opened UdpRpc

  /** A client, its part of the network, and what became of its requests. */
  datatype Side = Side(
    client: Client,
    toServer: set<bytes>,
    toClient: set<bytes>,
    issued: seq<Request>,
    outcomes: map<nat, Outcome>)

  datatype Fleet = Fleet(server: Server, sides: map<Addr, Side>)

  /** Something that happens at one address: to its client, or at the server to a datagram that
      comes from there. */
  datatype Move = Move(addr: Addr, action: Action)

  function NewSide(): Side
  {
    Side(Client(0, None, 0), {}, {}, [], map[])
  }

  function SideAt(f: Fleet, a: Addr): Side
  {
    if a in f.sides then f.sides[a] else NewSide()
  }

  /** A side as a system, without the server. */
  function Alone(side: Side): System
  {
    System(side.client, Life(None, []), side.toServer, side.toClient, side.issued, side.outcomes, [], [])
  }

  /** Time, losses, copies, delays and injected bytes as in `UdpSystem`, at each address. */
  ghost predicate CanMove(cfg: Config, f: Fleet, m: Move)
  {
    Enabled(cfg, Alone(SideAt(f, m.addr)), m.action)
  }

  /** A datagram at the server goes through the whole server; anything else is the client's. */
  function Moved(cfg: Config, f: Fleet, m: Move): Fleet
    requires CanMove(cfg, f, m)
  {
    var side := SideAt(f, m.addr);
    match m.action
    case ServerReceives(data, helloAck) =>
      var (server, sent) := ServerStep(cfg.lib, cfg.key, cfg.size, f.server, Event(data, m.addr, helloAck));
      var side' := if sent.Some? then side.(toClient := side.toClient + {sent.value}) else side;
      Fleet(server, f.sides[m.addr := side'])
    case _ =>
      var s := Apply(cfg, Alone(side), m.action);
      f.(sides := f.sides[m.addr := Side(s.client, s.toServer, s.toClient, s.issued, s.outcomes)])
  }

  ghost function FleetAfter(cfg: Config, moves: seq<Move>): Option<Fleet>
  {
    if moves == [] then Some(Fleet(Server(map[], 0, 0), map[]))
    else
      var before := FleetAfter(cfg, moves[..|moves| - 1]);
      var m := moves[|moves| - 1];
      if before.Some? && CanMove(cfg, before.value, m) then Some(Moved(cfg, before.value, m)) else None
  }

  /** What happened at one address, in order. */
  function ActionsAt(a: Addr, moves: seq<Move>): seq<Action>
  {
    if moves == [] then []
    else
      var m := moves[|moves| - 1];
      ActionsAt(a, moves[..|moves| - 1]) + if m.addr == a then [m.action] else []
  }

  /** A system is what an address sees of a fleet: its client, its part of the network, and the
      peer the server stores for it. */
  predicate Seen(f: Fleet, a: Addr, s: System)
  {
    && SideAt(f, a) == Side(s.client, s.toServer, s.toClient, s.issued, s.outcomes)
    && PeerAt(f.server, a) == s.life.peer
  }

  lemma ServerMoveIsSeen(cfg: Config, f: Fleet, m: Move, s: System)
    requires Seen(f, m.addr, s) && CanMove(cfg, f, m) && m.action.ServerReceives?
    ensures Enabled(cfg, s, m.action) && Seen(Moved(cfg, f, m), m.addr, Apply(cfg, s, m.action))
  {
    StepIsolation(cfg.lib, cfg.key, cfg.size, f.server, Event(m.action.data, m.addr, m.action.helloAck), m.addr);
  }

  lemma ClientMoveIsSeen(cfg: Config, f: Fleet, m: Move, s: System)
    requires Seen(f, m.addr, s) && CanMove(cfg, f, m) && !m.action.ServerReceives?
    ensures Enabled(cfg, s, m.action) && Seen(Moved(cfg, f, m), m.addr, Apply(cfg, s, m.action))
  {
  }

  lemma OtherMoveIsUnseen(cfg: Config, f: Fleet, m: Move, a: Addr, s: System)
    requires Seen(f, a, s) && CanMove(cfg, f, m) && m.addr != a
    ensures Seen(Moved(cfg, f, m), a, s)
  {
    if m.action.ServerReceives? {
      StepIsolation(cfg.lib, cfg.key, cfg.size, f.server, Event(m.action.data, m.addr, m.action.helloAck), a);
    }
  }

  lemma StateExtends(cfg: Config, actions: seq<Action>, a: Action)
    requires StateAfter(cfg, actions).Some? && Enabled(cfg, StateAfter(cfg, actions).value, a)
    ensures StateAfter(cfg, actions + [a]) == Some(Apply(cfg, StateAfter(cfg, actions).value, a))
  {
    assert (actions + [a])[..|actions|] == actions;
  }

  /** In every run of a fleet, each address goes through a run of the two-party system, made of
      its own actions alone. */
  lemma {:induction false} EachAddressIsASystem(cfg: Config, moves: seq<Move>, a: Addr)
    requires FleetAfter(cfg, moves).Some?
    ensures StateAfter(cfg, ActionsAt(a, moves)).Some?
    ensures Seen(FleetAfter(cfg, moves).value, a, StateAfter(cfg, ActionsAt(a, moves)).value)
  {
    if moves != [] {
      var before, m := moves[..|moves| - 1], moves[|moves| - 1];
      var actions := ActionsAt(a, before);
      EachAddressIsASystem(cfg, before, a);
      var f, s := FleetAfter(cfg, before).value, StateAfter(cfg, actions).value;
      if m.addr != a {
        OtherMoveIsUnseen(cfg, f, m, a, s);
        assert actions + [] == actions;
      } else {
        if m.action.ServerReceives? {
          ServerMoveIsSeen(cfg, f, m, s);
        } else {
          ClientMoveIsSeen(cfg, f, m, s);
        }
        StateExtends(cfg, actions, m.action);
      }
    }
  }

  /** Reply correlation for every client of a fleet. */
  lemma FleetReplies(cfg: Config, moves: seq<Move>, a: Addr, n: nat)
    requires FleetAfter(cfg, moves).Some? && n in SideAt(FleetAfter(cfg, moves).value, a).outcomes
    ensures var side := SideAt(FleetAfter(cfg, moves).value, a);
            && n < |side.issued|
            && (side.outcomes[n].Returned? ==> Matches(cfg.lib, side.issued[n], n, side.outcomes[n].frame))
  {
    EachAddressIsASystem(cfg, moves, a);
    ReplyCorrelation(cfg, ActionsAt(a, moves), n);
  }

  /** And a client whose own run is calm has an atomic, in-order service, however the others
      behave: exactly its requests before the one in flight have ended, each with the reply
      computed for it, and what was computed is the requests in order, each once. */
  lemma FleetInOrder(cfg: Config, moves: seq<Move>, a: Addr)
    requires FleetAfter(cfg, moves).Some?
    requires StateAfter(cfg, ActionsAt(a, moves)).Some? && CalmRun(cfg, ActionsAt(a, moves))
    ensures var side := SideAt(FleetAfter(cfg, moves).value, a);
            var s := StateAfter(cfg, ActionsAt(a, moves)).value;
            var r := AbsOf(cfg, s);
            && r.issued == side.issued
            && UdpRpc.Dispatched(side.issued, s.served, |r.replies|)
            && (forall n: nat :: n in side.outcomes <==> n < |side.issued| - if side.client.waiting.Some? then 1 else 0)
            && (forall n | n in side.outcomes :: n < |r.replies| && side.outcomes[n] == Returned(r.replies[n]))
  {
    EachAddressIsASystem(cfg, moves, a);
    InOrderExactlyOnce(cfg, ActionsAt(a, moves));
  }
}
