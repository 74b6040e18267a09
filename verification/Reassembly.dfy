/** Rebuilding messages per direction of each captured connection (`reassemble_flows`). */
module Reassembly {
  import opened Bytes
  import opened Protocol
  import opened Codec
  import opened Framing
  import opened Packets

  /** What `flow_key` prints: source and destination address and port, not the transport. */
  datatype FlowKey = FlowKey(src: bytes, sport: uint16, dst: bytes, dport: uint16)

  function KeyOf(row: Row): FlowKey
  {
    FlowKey(row.l3Src, row.l4Sport, row.l3Dst, row.l4Dport)
  }

  /** Rows without payload or transport are skipped. */
  predicate Carries(row: Row)
  {
    row.payload != [] && row.l4Proto != NoTransport
  }

  // ---- one direction ----

  /** A direction's buffer and the frames found so far. */
  datatype Direction = Direction(buf: bytes, frames: seq<WireFrame>)

  /** Feed and drain one payload; after an error the buffer is replaced by an empty one, and
      the frames drained before the error stay. */
  function Follow(lib: Library, d: Direction, payload: bytes): Direction
  {
    var p := Parse(lib, d.buf + payload, None);
    Direction(if p.error.Some? then [] else p.rest, d.frames + p.frames)
  }

  function FollowAll(lib: Library, d: Direction, payloads: seq<bytes>): Direction
    decreases |payloads|
  {
    if payloads == [] then d else FollowAll(lib, Follow(lib, d, payloads[0]), payloads[1..])
  }

  // ---- all directions at once ----

  function DirectionAt(flows: map<FlowKey, Direction>, k: FlowKey): Direction
  {
    if k in flows then flows[k] else Direction([], [])
  }

  function FlowStep(lib: Library, flows: map<FlowKey, Direction>, row: Row): map<FlowKey, Direction>
  {
    if Carries(row) then flows[KeyOf(row) := Follow(lib, DirectionAt(flows, KeyOf(row)), row.payload)] else flows
  }

  function FlowsOf(lib: Library, flows: map<FlowKey, Direction>, rows: seq<Row>): map<FlowKey, Direction>
    decreases |rows|
  {
    if rows == [] then flows else FlowsOf(lib, FlowStep(lib, flows, rows[0]), rows[1..])
  }

  /** The buffer of one direction, taken through one payload. */
  method FeedAndDrain(lib: Library, buffer: FrameBuffer, payload: bytes) returns (next: FrameBuffer, frames: seq<WireFrame>)
    requires buffer.lib == lib && buffer.key == None
    modifies buffer
    ensures next == buffer || fresh(next)
    ensures next.lib == lib && next.key == None
    ensures Direction(next.buf, frames) == Follow(lib, Direction(old(buffer.buf), []), payload)
  {
    buffer.Feed(payload);
    var error;
    frames, error := buffer.Drain();
    next := buffer;
    if error.Some? {
      next := new FrameBuffer(lib, None);
    }
    assert [] + frames == frames;
  }

  /** A direction's buffer is its own object and holds what the direction holds. */
  ghost predicate Holds(lib: Library, buffer: FrameBuffer, k: FlowKey, owner: map<FrameBuffer, FlowKey>,
                        frames: seq<WireFrame>, d: Direction)
    reads buffer
  {
    && buffer.lib == lib && buffer.key == None
    && buffer in owner && owner[buffer] == k
    && d == Direction(buffer.buf, frames)
  }

  ghost predicate Buffered(lib: Library, buffers: map<FlowKey, FrameBuffer>, owner: map<FrameBuffer, FlowKey>,
                           frames: map<FlowKey, seq<WireFrame>>, flows: map<FlowKey, Direction>)
    reads buffers.Values
  {
    && buffers.Keys == frames.Keys == flows.Keys
    && forall k | k in buffers :: Holds(lib, buffers[k], k, owner, frames[k], flows[k])
  }

  /** The buffer of a direction, a new one for a direction seen for the first time. */
  method BufferFor(lib: Library, buffers: map<FlowKey, FrameBuffer>, k: FlowKey) returns (buffer: FrameBuffer)
    ensures k in buffers ==> buffer == buffers[k]
    ensures k !in buffers ==> fresh(buffer) && buffer.lib == lib && buffer.key == None && buffer.buf == []
  {
    if k in buffers {
      buffer := buffers[k];
    } else {
      buffer := new FrameBuffer(lib, None);
    }
  }

  /** One payload: the other directions keep their buffers and their frames. */
  method FollowPayload(lib: Library, buffers: map<FlowKey, FrameBuffer>, frames: map<FlowKey, seq<WireFrame>>,
                       k: FlowKey, payload: bytes, ghost owner: map<FrameBuffer, FlowKey>, ghost flows: map<FlowKey, Direction>)
    returns (buffers': map<FlowKey, FrameBuffer>, frames': map<FlowKey, seq<WireFrame>>,
             ghost owner': map<FrameBuffer, FlowKey>)
    requires Buffered(lib, buffers, owner, frames, flows)
    modifies buffers.Values
    ensures Buffered(lib, buffers', owner', frames', flows[k := Follow(lib, DirectionAt(flows, k), payload)])
    ensures forall j | j in buffers' :: (j in buffers && buffers'[j] == buffers[j]) || fresh(buffers'[j])
  {
    var buffer := BufferFor(lib, buffers, k);
    var next, found := FeedAndDrain(lib, buffer, payload);
    buffers' := buffers[k := next];
    frames' := frames[k := (if k in frames then frames[k] else []) + found];
    owner' := owner[next := k];
    FollowAppends(lib, DirectionAt(flows, k), payload);
    forall j | j in buffers && j != k
      ensures Holds(lib, buffers[j], j, owner', frames[j], flows[j])
    {
      assert old(Holds(lib, buffers[j], j, owner, frames[j], flows[j]));
    }
  }

  lemma FollowAppends(lib: Library, d: Direction, payload: bytes)
    ensures var d' := Follow(lib, Direction(d.buf, []), payload);
            Follow(lib, d, payload) == Direction(d'.buf, d.frames + d'.frames)
  {
    assert [] + Parse(lib, d.buf + payload, None).frames == Parse(lib, d.buf + payload, None).frames;
  }

  method ReassembleFlows(lib: Library, rows: seq<Row>) returns (frames: map<FlowKey, seq<WireFrame>>)
    ensures var flows := FlowsOf(lib, map[], rows);
            frames.Keys == flows.Keys && forall k | k in frames :: frames[k] == flows[k].frames
  {
    var buffers: map<FlowKey, FrameBuffer> := map[];
    ghost var owner: map<FrameBuffer, FlowKey>, flows: map<FlowKey, Direction> := map[], map[];
    frames := map[];
    var i := 0;
    while i < |rows|
      invariant 0 <= i <= |rows|
      invariant Buffered(lib, buffers, owner, frames, flows)
      invariant forall k | k in buffers :: fresh(buffers[k])
      invariant FlowsOf(lib, map[], rows) == FlowsOf(lib, flows, rows[i..])
    {
      assert rows[i..][1..] == rows[i + 1..];
      if Carries(rows[i]) {
        buffers, frames, owner := FollowPayload(lib, buffers, frames, KeyOf(rows[i]), rows[i].payload, owner, flows);
        flows := FlowStep(lib, flows, rows[i]);
      }
      i := i + 1;
    }
  }

  // ---- directions do not see each other ----

  /** A row with payload bytes in a segment or datagram from one address and port to another. */
  predicate Belongs(row: Row, src: bytes, sport: uint16, dst: bytes, dport: uint16)
  {
    && row.l3Src == src && row.l4Sport == sport && row.l3Dst == dst && row.l4Dport == dport
    && row.payload != [] && (row.l4Proto == TcpSegment || row.l4Proto == UdpDatagram)
  }

  /** The payloads that went from one address and port to another, in order. */
  function PayloadsOf(src: bytes, sport: uint16, dst: bytes, dport: uint16, rows: seq<Row>): seq<bytes>
  {
    if rows == [] then []
    else (if Belongs(rows[0], src, sport, dst, dport) then [rows[0].payload] else []) + PayloadsOf(src, sport, dst, dport, rows[1..])
  }

  /** Two rows are of one direction exactly if they agree in both addresses and both ports. */
  lemma KeysAreDirections(r: Row, s: Row)
    ensures KeyOf(r) == KeyOf(s) <==>
              r.l3Src == s.l3Src && r.l4Sport == s.l4Sport && r.l3Dst == s.l3Dst && r.l4Dport == s.l4Dport
  {
  }

  lemma BelongsToKey(row: Row, src: bytes, sport: uint16, dst: bytes, dport: uint16)
    ensures Belongs(row, src, sport, dst, dport) <==> Carries(row) && KeyOf(row) == FlowKey(src, sport, dst, dport)
  {
  }

  lemma OnePayload(lib: Library, flows: map<FlowKey, Direction>, row: Row, src: bytes, sport: uint16, dst: bytes, dport: uint16)
    ensures var k, before, after := FlowKey(src, sport, dst, dport), flows, FlowStep(lib, flows, row);
            if Belongs(row, src, sport, dst, dport) then
              k in after && DirectionAt(after, k) == Follow(lib, DirectionAt(before, k), row.payload)
            else
              (k in after <==> k in before) && DirectionAt(after, k) == DirectionAt(before, k)
  {
    BelongsToKey(row, src, sport, dst, dport);
  }

  lemma FollowCons(lib: Library, d: Direction, payload: bytes, later: seq<bytes>)
    ensures FollowAll(lib, d, [payload] + later) == FollowAll(lib, Follow(lib, d, payload), later)
  {
    assert ([payload] + later)[1..] == later;
  }

  /** The frames found for a direction are those of its own payloads processed alone, whatever
      other traffic is captured in between. */
  lemma {:induction false} FlowIsolation(lib: Library, flows: map<FlowKey, Direction>, rows: seq<Row>,
                                         src: bytes, sport: uint16, dst: bytes, dport: uint16)
    ensures var k := FlowKey(src, sport, dst, dport);
            DirectionAt(FlowsOf(lib, flows, rows), k)
              == FollowAll(lib, DirectionAt(flows, k), PayloadsOf(src, sport, dst, dport, rows))
    decreases |rows|
  {
    if rows != [] {
      var later := PayloadsOf(src, sport, dst, dport, rows[1..]);
      OnePayload(lib, flows, rows[0], src, sport, dst, dport);
      FlowIsolation(lib, FlowStep(lib, flows, rows[0]), rows[1..], src, sport, dst, dport);
      FollowCons(lib, DirectionAt(flows, FlowKey(src, sport, dst, dport)), rows[0].payload, later);
      NoPayload(later);
    }
  }

  lemma NoPayload(later: seq<bytes>)
    ensures [] + later == later
  {
  }

  /** A direction is reported, with or without frames, exactly if something was captured of it. */
  lemma {:induction false} FlowsReported(lib: Library, flows: map<FlowKey, Direction>, rows: seq<Row>,
                                         src: bytes, sport: uint16, dst: bytes, dport: uint16)
    ensures var k := FlowKey(src, sport, dst, dport);
            k in FlowsOf(lib, flows, rows) <==> k in flows || PayloadsOf(src, sport, dst, dport, rows) != []
    decreases |rows|
  {
    if rows != [] {
      OnePayload(lib, flows, rows[0], src, sport, dst, dport);
      FlowsReported(lib, FlowStep(lib, flows, rows[0]), rows[1..], src, sport, dst, dport);
    }
  }

  lemma StreamCons(lib: Library, buf: bytes, chunks: seq<bytes>)
    requires chunks != [] && Stream(lib, buf, chunks, None).0.error.None?
    ensures var p := Parse(lib, buf + chunks[0], None);
            && p.error.None? && Drained(lib, p.rest, None)
            && Stream(lib, p.rest, chunks[1..], None).0.error.None?
            && Stream(lib, buf, chunks, None).0 == Prepend(p.frames, Stream(lib, p.rest, chunks[1..], None).0)
  {
    if Parse(lib, buf + chunks[0], None).error.None? {
      ParseKeepsPartial(lib, buf + chunks[0], None);
    }
  }

  /** As long as nothing is refused, following a direction is draining a stream. */
  lemma {:induction false} FollowIsStream(lib: Library, d: Direction, payloads: seq<bytes>)
    requires Stream(lib, d.buf, payloads, None).0.error.None?
    ensures var p := Stream(lib, d.buf, payloads, None).0;
            FollowAll(lib, d, payloads) == Direction(p.rest, d.frames + p.frames)
    decreases |payloads|
  {
    if payloads == [] {
      assert d.frames + [] == d.frames;
    } else {
      StreamCons(lib, d.buf, payloads);
      var d' := Follow(lib, d, payloads[0]);
      FollowIsStream(lib, d', payloads[1..]);
      FramesAssoc(d.frames, Parse(lib, d.buf + payloads[0], None).frames, Stream(lib, d'.buf, payloads[1..], None).0.frames);
    }
  }

  lemma NothingBefore(a: seq<WireFrame>)
    ensures [] + a == a
  {
  }

  lemma FramesAssoc(a: seq<WireFrame>, b: seq<WireFrame>, c: seq<WireFrame>)
    ensures (a + b) + c == a + (b + c)
  {
  }

  /** On a direction whose concatenated payloads parse without error, reassembly finds exactly
      the frames of that one parse, wherever the segments were cut and whatever else was
      captured. */
  lemma ReassemblyIsOneParse(lib: Library, rows: seq<Row>, src: bytes, sport: uint16, dst: bytes, dport: uint16)
    requires Parse(lib, Concat(PayloadsOf(src, sport, dst, dport, rows)), None).error.None?
    ensures DirectionAt(FlowsOf(lib, map[], rows), FlowKey(src, sport, dst, dport)).frames
         == Parse(lib, Concat(PayloadsOf(src, sport, dst, dport, rows)), None).frames
  {
    var payloads := PayloadsOf(src, sport, dst, dport, rows);
    FlowIsolation(lib, map[], rows, src, sport, dst, dport);
    ChunkingFromEmpty(lib, payloads, None);
    FollowIsStream(lib, Direction([], []), payloads);
    NothingBefore(Stream(lib, [], payloads, None).0.frames);
  }

  /** The frames a peer encoded are found again by an observer without the key. */
  lemma ObserverSeesEncodedFrames(lib: Library, frames: seq<WireFrame>, key: bytes, rows: seq<Row>,
                                  src: bytes, sport: uint16, dst: bytes, dport: uint16)
    requires Concat(PayloadsOf(src, sport, dst, dport, rows)) == WireAll(lib, frames, key)
    ensures DirectionAt(FlowsOf(lib, map[], rows), FlowKey(src, sport, dst, dport)).frames == frames
  {
    ObserverParses(lib, frames, key);
    ReassemblyIsOneParse(lib, rows, src, sport, dst, dport);
  }

  lemma ObserverParsesOne(lib: Library, f: WireFrame, rest: bytes, key: bytes)
    ensures Parse(lib, Wire(lib, f, key) + rest, None) == Prepend([f], Parse(lib, rest, None))
  {
    PopIffWire(lib, Wire(lib, f, key) + rest, key, f, rest);
    ObserverPops(lib, Wire(lib, f, key) + rest, key);
  }

  lemma {:induction false} ObserverParses(lib: Library, frames: seq<WireFrame>, key: bytes)
    ensures Parse(lib, WireAll(lib, frames, key), None) == Parsed(frames, [], None)
  {
    if frames != [] {
      ObserverParses(lib, frames[1..], key);
      ObserverParsesCons(lib, frames, key);
    }
  }

  lemma ObserverParsesCons(lib: Library, frames: seq<WireFrame>, key: bytes)
    requires frames != [] && Parse(lib, WireAll(lib, frames[1..], key), None) == Parsed(frames[1..], [], None)
    ensures Parse(lib, WireAll(lib, frames, key), None) == Parsed(frames, [], None)
  {
    ObserverParsesOne(lib, frames[0], WireAll(lib, frames[1..], key), key);
    assert [frames[0]] + frames[1..] == frames;
  }

  /** What a keyed buffer emits, a keyless one emits too. */
  lemma ObserverPops(lib: Library, buf: bytes, key: bytes)
    requires PopOf(lib, buf, Some(key)).Popped?
    ensures PopOf(lib, buf, None) == PopOf(lib, buf, Some(key))
  {
  }

  /** The frames found before do not influence what is found next. */
  lemma {:induction false} FollowAllAppends(lib: Library, d: Direction, payloads: seq<bytes>)
    ensures var later := FollowAll(lib, Direction(d.buf, []), payloads);
            FollowAll(lib, d, payloads) == Direction(later.buf, d.frames + later.frames)
    decreases |payloads|
  {
    if payloads == [] {
      assert d.frames + [] == d.frames;
    } else {
      var first := Follow(lib, Direction(d.buf, []), payloads[0]);
      FollowAppends(lib, d, payloads[0]);
      FollowAllAppends(lib, Follow(lib, d, payloads[0]), payloads[1..]);
      FollowAllAppends(lib, first, payloads[1..]);
      FramesAssoc(d.frames, first.frames, FollowAll(lib, Direction(first.buf, []), payloads[1..]).frames);
    }
  }

  /** A refused payload costs a direction its buffered bytes and nothing else: the frames found
      before it stay, and the later payloads are followed as a direction of their own, so more
      is reported exactly when they report something alone. */
  lemma FollowingResumes(lib: Library, d: Direction, bad: bytes, payloads: seq<bytes>)
    requires Parse(lib, d.buf + bad, None).error.Some?
    ensures var before := d.frames + Parse(lib, d.buf + bad, None).frames;
            var alone := FollowAll(lib, Direction([], []), payloads);
            && FollowAll(lib, d, [bad] + payloads) == Direction(alone.buf, before + alone.frames)
            && (FollowAll(lib, d, [bad] + payloads).frames == before <==> alone.frames == [])
  {
    var after := Follow(lib, d, bad);
    var alone := FollowAll(lib, Direction([], []), payloads);
    assert ([bad] + payloads)[1..] == payloads;
    FollowAllAppends(lib, after, payloads);
    assert |after.frames + alone.frames| == |after.frames| + |alone.frames|;
    assert alone.frames == [] ==> after.frames + alone.frames == after.frames;
  }

  /** In particular, frames sent behind the refused payload are found again. */
  lemma FramesAfterErrorAreFound(lib: Library, d: Direction, bad: bytes, payloads: seq<bytes>, frames: seq<WireFrame>, key: bytes)
    requires Parse(lib, d.buf + bad, None).error.Some?
    requires Concat(payloads) == WireAll(lib, frames, key)
    ensures FollowAll(lib, d, [bad] + payloads)
         == Direction([], d.frames + Parse(lib, d.buf + bad, None).frames + frames)
  {
    FollowingResumes(lib, d, bad, payloads);
    ObserverParses(lib, frames, key);
    ChunkingFromEmpty(lib, payloads, None);
    FollowIsStream(lib, Direction([], []), payloads);
    NothingBefore(frames);
  }
}
