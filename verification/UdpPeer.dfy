/** One peer of the UDP server: a session with the deduplication window in front of it
    (`UdpServer._on_datagram` for one source address). */
module UdpPeer {
  import opened Bytes
  import opened Protocol
  import opened Codec
  import opened Framing
  import opened Messages
  import opened Parsers
  import opened Sessions
  import opened Dedup

  datatype Peer = Peer(session: Session, window: seq<Entry>)

  /** The datagram answered with, which is not sent when it is empty, and whether it was a
      cached one. */
  datatype Answer = Replayed(reply: bytes) | Handled(reply: bytes)

  predicate RequiresAck(f: WireFrame)
  {
    f.flags % 2 == 1
  }

  /** The session's part: the ACK is numbered before the reply. */
  function HandleOf(lib: Library, s: Session, f: WireFrame): (Session, seq<WireFrame>, bool)
  {
    var (s1, acks) := if RequiresAck(f) then var (s', ack) := AckOf(s, f.seqNo); (s', [ack]) else (s, []);
    var (s2, r) := OnFrameOf(lib, s1, f);
    (s2, acks + r.frames, r.close)
  }

  function PeerOf(peer: Option<Peer>, helloAck: Payload): Peer
  {
    if peer.Some? then peer.value else Peer(NewSession(helloAck), [])
  }

  /** One authenticated frame. The state None is an address the server does not know. */
  function PeerStep(lib: Library, key: bytes, size: nat, peer: Option<Peer>, f: WireFrame, helloAck: Payload)
    : (Option<Peer>, Answer)
  {
    var p := PeerOf(peer, helloAck);
    match Lookup(p.window, f.seqNo)
    case Some(reply) => (Some(p), Replayed(reply))
    case None =>
      var (s, frames, close) := HandleOf(lib, p.session, f);
      var reply := WireAll(lib, frames, key);
      (if close then None else Some(Peer(s, PutOf(p.window, f.seqNo, reply, size))), Handled(reply))
  }

  /** A frame reaches `_dispatch`: it is neither replayed nor stopped by the session's checks. */
  predicate Dispatches(peer: Option<Peer>, f: WireFrame, helloAck: Payload)
  {
    var p := PeerOf(peer, helloAck);
    Lookup(p.window, f.seqNo).None? && Runs(p.session, f)
  }

  /** A frame that is not replayed reaches `_dispatch` exactly if the session moves to its number;
      the ACK in front does not change that. */
  lemma DispatchesMeaning(lib: Library, peer: Option<Peer>, f: WireFrame, helloAck: Payload)
    ensures var p := PeerOf(peer, helloAck);
            Dispatches(peer, f, helloAck) <==>
              Lookup(p.window, f.seqNo).None? && HandleOf(lib, p.session, f).0.lastPeerSeq != p.session.lastPeerSeq
  {
    var s := PeerOf(peer, helloAck).session;
    RunsMeaning(lib, if RequiresAck(f) then AckOf(s, f.seqNo).0 else s, f);
  }

  /** A frame is executed: it reaches `_dispatch` and is not refused there. */
  predicate Serves(lib: Library, peer: Option<Peer>, f: WireFrame, helloAck: Payload)
  {
    Dispatches(peer, f, helloAck) && Accepts(lib, PeerOf(peer, helloAck).session, f)
  }

  /** On an open session, a frame is executed exactly if it is not replayed and nothing it is
      answered with is an ERROR. */
  lemma ServesMeaning(lib: Library, peer: Option<Peer>, f: WireFrame, helloAck: Payload)
    requires Open(PeerOf(peer, helloAck).session)
    ensures var p := PeerOf(peer, helloAck);
            Serves(lib, peer, f, helloAck) <==>
              Lookup(p.window, f.seqNo).None? && forall x | x in HandleOf(lib, p.session, f).1 :: x.msgType != Error
  {
    var s := PeerOf(peer, helloAck).session;
    var s1 := if RequiresAck(f) then AckOf(s, f.seqNo).0 else s;
    AcceptsMeaning(lib, s, f);
    AcceptsMeaning(lib, s1, f);
    ServedMeansNoError(lib, s1, f);
    var frames, replies := HandleOf(lib, s, f).1, OnFrameOf(lib, s1, f).1.frames;
    assert frames == (if RequiresAck(f) then [AckOf(s, f.seqNo).1] else []) + replies;
    assert forall x | x in replies :: x in frames;
  }

  datatype Delivery = Delivery(frame: WireFrame, helloAck: Payload)

  // ---- the current session, with everything it accepted ----

  /** `accepted` lists the frames the stored session dispatched, each with its answer. */
  datatype Life = Life(peer: Option<Peer>, accepted: seq<Entry>)

  function LifeStep(lib: Library, key: bytes, size: nat, life: Life, d: Delivery): Life
  {
    var (peer, answer) := PeerStep(lib, key, size, life.peer, d.frame, d.helloAck);
    Life(peer,
         if peer.None? then []
         else if answer.Replayed? then life.accepted
         else life.accepted + [Entry(d.frame.seqNo, answer.reply)])
  }

  function LifeAfter(lib: Library, key: bytes, size: nat, ds: seq<Delivery>): Life
  {
    if ds == [] then Life(None, [])
    else LifeStep(lib, key, size, LifeAfter(lib, key, size, ds[..|ds| - 1]), ds[|ds| - 1])
  }

  predicate Increasing(entries: seq<Entry>)
  {
    forall i, j | 0 <= i < j < |entries| :: entries[i].seqNo < entries[j].seqNo
  }

  predicate LifeInvariant(life: Life, size: nat)
  {
    match life.peer
    case None => life.accepted == []
    case Some(p) =>
      && p.session.state == Ready
      && life.accepted != []
      && Increasing(life.accepted)
      && p.session.lastPeerSeq == life.accepted[|life.accepted| - 1].seqNo
      && p.window == LastN(life.accepted, size)
  }

  /** Handling a frame of an open session: what survives of it. */
  lemma HandleMeaning(lib: Library, s: Session, f: WireFrame)
    requires Open(s)
    ensures var (s', frames, close) := HandleOf(lib, s, f);
            && (!close <==> Welcome(lib, s, f))
            && (!close ==> s'.state == Ready && s'.lastPeerSeq == f.seqNo && s'.helloAck == s.helloAck)
  {
    var s1 := if RequiresAck(f) then AckOf(s, f.seqNo).0 else s;
    OnFrameMeaning(lib, s1, f);
  }

  lemma NumberedAppend(outSeq: uint32, first: (MsgType, Payload), later: seq<(MsgType, Payload)>)
    ensures Numbered(outSeq, [first] + later) == [Frame(first.0, outSeq, first.1, 0)] + Numbered(NextSeq(outSeq), later)
  {
    assert ([first] + later)[1..] == later;
  }

  /** The answer to a frame, to the last number: the ACK when the frame asks for one, naming the
      frame, then what the session replies, each under the session's next number. */
  lemma HandleContents(lib: Library, s: Session, f: WireFrame)
    requires Open(s)
    ensures var (s', frames, close) := HandleOf(lib, s, f);
            var acks := if f.flags == 1 || f.flags == 3 then [(Ack, EncodeAck(f.seqNo))] else [];
            && frames == Numbered(s.outSeq, acks + ReplyTo(lib, s, f))
            && NumberedFrom(s.outSeq, frames)
            && s'.outSeq == Advance(s.outSeq, |frames|)
  {
    var replies := ReplyTo(lib, s, f);
    NumberedIsFrom(s.outSeq, (if f.flags == 1 || f.flags == 3 then [(Ack, EncodeAck(f.seqNo))] else []) + replies);
    if RequiresAck(f) {
      var s1 := AckOf(s, f.seqNo).0;
      OnFrameReplies(lib, s1, f);
      assert ReplyTo(lib, s1, f) == replies;
      NumberedAppend(s.outSeq, (Ack, EncodeAck(f.seqNo)), replies);
    } else {
      OnFrameReplies(lib, s, f);
      assert [] + replies == replies;
    }
  }

  lemma NewKeyIsAbsent(accepted: seq<Entry>, k: int)
    requires Increasing(accepted)
    requires accepted == [] || accepted[|accepted| - 1].seqNo < k
    ensures k !in Keys(accepted)
  {
    if k in Keys(accepted) {
      var i := KeyPosition(accepted, k);
      assert false;
    }
  }

  /** A new key goes to the end of the window, and the window stays the last part of the list. */
  lemma PutNewKey(accepted: seq<Entry>, e: Entry, size: nat)
    requires e.seqNo !in Keys(accepted)
    ensures PutOf(LastN(accepted, size), e.seqNo, e.reply, size) == LastN(accepted + [e], size)
  {
    var gone := LastNCuts(accepted, size);
    KeysConcat(gone, LastN(accepted, size));
    AbsentKey(LastN(accepted, size), e.seqNo);
    LastNAppend(accepted, e, size);
  }

  lemma LastNAppend(accepted: seq<Entry>, e: Entry, size: nat)
    ensures LastN(LastN(accepted, size) + [e], size) == LastN(accepted + [e], size)
  {
  }

  lemma IncreasingAppend(accepted: seq<Entry>, e: Entry)
    requires Increasing(accepted)
    requires accepted == [] || accepted[|accepted| - 1].seqNo < e.seqNo
    ensures Increasing(accepted + [e])
  {
  }

  lemma WindowGrows(accepted: seq<Entry>, e: Entry, size: nat)
    requires Increasing(accepted)
    requires accepted == [] || accepted[|accepted| - 1].seqNo < e.seqNo
    ensures Increasing(accepted + [e])
    ensures PutOf(LastN(accepted, size), e.seqNo, e.reply, size) == LastN(accepted + [e], size)
  {
    IncreasingAppend(accepted, e);
    NewKeyIsAbsent(accepted, e.seqNo);
    PutNewKey(accepted, e, size);
  }

  /** The life after an accepted frame, told without the server's code. */
  lemma AcceptedLife(life: Life, size: nat, p: Peer, s: Session, e: Entry)
    requires LifeInvariant(life, size)
    requires if life.peer.Some? then p == life.peer.value else p.window == [] && p.session.lastPeerSeq < e.seqNo
    requires s.state == Ready && p.session.lastPeerSeq < e.seqNo == s.lastPeerSeq
    ensures LifeInvariant(Life(Some(Peer(s, PutOf(p.window, e.seqNo, e.reply, size))), life.accepted + [e]), size)
  {
    WindowGrows(life.accepted, e, size);
  }

  lemma LifeInvariantStep(lib: Library, key: bytes, size: nat, life: Life, d: Delivery)
    requires LifeInvariant(life, size)
    ensures LifeInvariant(LifeStep(lib, key, size, life, d), size)
  {
    var p := PeerOf(life.peer, d.helloAck);
    HandleMeaning(lib, p.session, d.frame);
    var (s, frames, close) := HandleOf(lib, p.session, d.frame);
    if Lookup(p.window, d.frame.seqNo).None? && !close {
      AcceptedLife(life, size, p, s, Entry(d.frame.seqNo, WireAll(lib, frames, key)));
    }
  }

  /** In every reachable state a stored session is READY, it has dispatched strictly
      increasing numbers, and its window holds the latest of them with their answers. */
  lemma {:induction false} LifeInvariantHolds(lib: Library, key: bytes, size: nat, ds: seq<Delivery>)
    ensures LifeInvariant(LifeAfter(lib, key, size, ds), size)
  {
    if ds != [] {
      LifeInvariantHolds(lib, key, size, ds[..|ds| - 1]);
      LifeInvariantStep(lib, key, size, LifeAfter(lib, key, size, ds[..|ds| - 1]), ds[|ds| - 1]);
    }
  }

  // ---- numbering over a session ----

  /** The frames of all the answers a session has given, in order. */
  function AnswerFrames(lib: Library, key: bytes, accepted: seq<Entry>): seq<WireFrame>
  {
    if accepted == [] then []
    else
      var before := AnswerFrames(lib, key, accepted[..|accepted| - 1]);
      match SplitOf(lib, accepted[|accepted| - 1].reply, key)
      case Ok(frames) => before + frames
      case Err(_) => before
  }

  /** The answers of the stored session use 0, 1, 2, ... without a gap, and its next number is
      the one behind them. */
  predicate AnswersNumbered(lib: Library, key: bytes, life: Life)
  {
    var frames := AnswerFrames(lib, key, life.accepted);
    NumberedFrom(0, frames) && (life.peer.Some? ==> life.peer.value.session.outSeq == Advance(0, |frames|))
  }

  lemma AnswerFramesGrow(lib: Library, key: bytes, accepted: seq<Entry>, n: int, frames: seq<WireFrame>)
    ensures AnswerFrames(lib, key, accepted + [Entry(n, WireAll(lib, frames, key))]) == AnswerFrames(lib, key, accepted) + frames
  {
    var all := accepted + [Entry(n, WireAll(lib, frames, key))];
    SplitIffWireAll(lib, WireAll(lib, frames, key), frames, key);
    assert all[..|all| - 1] == accepted;
  }

  lemma NumbersGrow(before: seq<WireFrame>, outSeq: uint32, frames: seq<WireFrame>)
    requires NumberedFrom(0, before) && outSeq == Advance(0, |before|) && NumberedFrom(outSeq, frames)
    ensures NumberedFrom(0, before + frames) && Advance(outSeq, |frames|) == Advance(0, |before + frames|)
  {
    NumberedConcat(0, before, frames);
    AdvanceTwice(0, |before|, |frames|);
  }

  lemma HandledLife(lib: Library, key: bytes, size: nat, life: Life, d: Delivery)
    requires Lookup(PeerOf(life.peer, d.helloAck).window, d.frame.seqNo).None?
    ensures var p := PeerOf(life.peer, d.helloAck);
            var (s, frames, close) := HandleOf(lib, p.session, d.frame);
            var e := Entry(d.frame.seqNo, WireAll(lib, frames, key));
            LifeStep(lib, key, size, life, d) ==
              if close then Life(None, [])
              else Life(Some(Peer(s, PutOf(p.window, e.seqNo, e.reply, size))), life.accepted + [e])
  {
  }

  /** The same for the life behind an answer, told without the server's code. */
  lemma AnsweredLife(lib: Library, key: bytes, life: Life, life': Life, p: Peer, n: int, outSeq: uint32, frames: seq<WireFrame>)
    requires AnswersNumbered(lib, key, life) && outSeq == Advance(0, |AnswerFrames(lib, key, life.accepted)|)
    requires NumberedFrom(outSeq, frames) && p.session.outSeq == Advance(outSeq, |frames|)
    requires life' == Life(None, []) || life' == Life(Some(p), life.accepted + [Entry(n, WireAll(lib, frames, key))])
    ensures AnswersNumbered(lib, key, life')
  {
    AnswerFramesGrow(lib, key, life.accepted, n, frames);
    NumbersGrow(AnswerFrames(lib, key, life.accepted), outSeq, frames);
  }

  lemma AnswersNumberedStep(lib: Library, key: bytes, size: nat, life: Life, d: Delivery)
    requires LifeInvariant(life, size) && AnswersNumbered(lib, key, life)
    ensures AnswersNumbered(lib, key, LifeStep(lib, key, size, life, d))
  {
    var p := PeerOf(life.peer, d.helloAck);
    if Lookup(p.window, d.frame.seqNo).None? {
      var (s, frames, close) := HandleOf(lib, p.session, d.frame);
      HandledLife(lib, key, size, life, d);
      HandleContents(lib, p.session, d.frame);
      var p' := Peer(s, PutOf(p.window, d.frame.seqNo, WireAll(lib, frames, key), size));
      AnsweredLife(lib, key, life, LifeStep(lib, key, size, life, d), p', d.frame.seqNo, p.session.outSeq, frames);
    }
  }

  /** In every reachable state, the frames sent by the stored session, over all its answers, are
      numbered 0, 1, 2, ... modulo 2^32. */
  lemma {:induction false} AnswersNumberedHolds(lib: Library, key: bytes, size: nat, ds: seq<Delivery>)
    ensures AnswersNumbered(lib, key, LifeAfter(lib, key, size, ds))
    ensures var frames := AnswerFrames(lib, key, LifeAfter(lib, key, size, ds).accepted);
            forall i | 0 <= i < |frames| :: frames[i].seqNo == i % 0x1_0000_0000 && frames[i].flags == 0
  {
    if ds != [] {
      AnswersNumberedHolds(lib, key, size, ds[..|ds| - 1]);
      LifeInvariantHolds(lib, key, size, ds[..|ds| - 1]);
      AnswersNumberedStep(lib, key, size, LifeAfter(lib, key, size, ds[..|ds| - 1]), ds[|ds| - 1]);
    }
    var frames := AnswerFrames(lib, key, LifeAfter(lib, key, size, ds).accepted);
    forall i | 0 <= i < |frames| ensures frames[i].seqNo == i % 0x1_0000_0000 {
      AdvanceIsModular(0, i);
    }
  }

  // ---- duplicates ----

  /** A number the session has gone past is never dispatched again: it is answered from the
      window, with the bytes sent the first time and nothing changed, exactly when it is among
      the last `size` numbers accepted, and otherwise it ends the session with ERR_SEQ. */
  lemma DuplicateIsReplayedOrFatal(lib: Library, key: bytes, size: nat, life: Life, d: Delivery)
    requires LifeInvariant(life, size) && life.peer.Some?
    requires d.frame.seqNo <= life.peer.value.session.lastPeerSeq
    ensures var (peer, answer) := PeerStep(lib, key, size, life.peer, d.frame, d.helloAck);
            if d.frame.seqNo in Keys(LastN(life.accepted, size)) then
              peer == life.peer && answer.Replayed? && Entry(d.frame.seqNo, answer.reply) in life.accepted
            else
              var s := life.peer.value.session;
              var s1 := if RequiresAck(d.frame) then AckOf(s, d.frame.seqNo).0 else s;
              peer == None && answer.Handled?
              && Frame(Error, s1.outSeq, lib.encodeError(ErrSeq), 0) in HandleOf(lib, s, d.frame).1
  {
    var w := LastN(life.accepted, size);
    if d.frame.seqNo in Keys(w) {
      var i := KeyPosition(w, d.frame.seqNo);
      LookupAtFirst(w, i);
    } else {
      AbsentKey(w, d.frame.seqNo);
    }
  }

  lemma LookupAtFirst(w: seq<Entry>, i: nat)
    requires i < |w| && w[i].seqNo !in Keys(w[..i])
    ensures Lookup(w, w[i].seqNo) == Some(w[i].reply)
  {
    assert w == w[..i] + [w[i]] + w[i + 1..];
    SplitAtKey(w[..i], w[i], w[i + 1..]);
  }

  // ---- the whole history of an address ----

  /** One delivery: the session it met (counted), its number, what was answered, whether it
      reached `_dispatch`, whether it was executed, and whether it ended the session. */
  datatype Record = Record(epoch: nat, seqNo: int, reply: bytes, dispatched: bool, served: bool, ended: bool)

  datatype History = History(life: Life, epoch: nat, log: seq<Record>)

  function HistoryStep(lib: Library, key: bytes, size: nat, h: History, d: Delivery): History
  {
    var (peer, answer) := PeerStep(lib, key, size, h.life.peer, d.frame, d.helloAck);
    History(LifeStep(lib, key, size, h.life, d),
            if peer.None? then h.epoch + 1 else h.epoch,
            h.log + [Record(h.epoch, d.frame.seqNo, answer.reply, Dispatches(h.life.peer, d.frame, d.helloAck),
                            Serves(lib, h.life.peer, d.frame, d.helloAck), peer.None?)])
  }

  function HistoryAfter(lib: Library, key: bytes, size: nat, ds: seq<Delivery>): History
  {
    if ds == [] then History(Life(None, []), 0, [])
    else HistoryStep(lib, key, size, HistoryAfter(lib, key, size, ds[..|ds| - 1]), ds[|ds| - 1])
  }

  lemma {:induction false} HistoryIsLife(lib: Library, key: bytes, size: nat, ds: seq<Delivery>)
    ensures HistoryAfter(lib, key, size, ds).life == LifeAfter(lib, key, size, ds)
  {
    if ds != [] {
      HistoryIsLife(lib, key, size, ds[..|ds| - 1]);
    }
  }

  /** Two answers of one session. Numbers reach `_dispatch` in increasing order, so none does
      twice; and a number answered before gets the same bytes again, unless its late copy is
      what ends the session. */
  predicate Compatible(r: Record, r': Record)
  {
    && r.epoch <= r'.epoch
    && (r.epoch == r'.epoch ==>
          && !r.ended
          && (r.dispatched && r'.dispatched ==> r.seqNo < r'.seqNo)
          && (r.seqNo == r'.seqNo ==> !r'.dispatched && (r'.reply == r.reply || r'.ended)))
  }

  predicate HistoryInvariant(h: History, size: nat)
  {
    && LifeInvariant(h.life, size)
    && (forall i | 0 <= i < |h.log| :: RecordInvariant(h, h.log[i]))
    && (forall i, j | 0 <= i < j < |h.log| :: Compatible(h.log[i], h.log[j]))
  }

  predicate RecordInvariant(h: History, r: Record)
  {
    && r.epoch <= h.epoch
    && (r.epoch == h.epoch ==> !r.ended && Entry(r.seqNo, r.reply) in h.life.accepted)
  }

  lemma AcceptedBelow(life: Life, size: nat, e: Entry)
    requires LifeInvariant(life, size) && e in life.accepted
    ensures life.peer.Some? && e.seqNo <= life.peer.value.session.lastPeerSeq
  {
    var i :| 0 <= i < |life.accepted| && life.accepted[i] == e;
  }

  lemma AcceptedOnce(accepted: seq<Entry>, a: Entry, b: Entry)
    requires Increasing(accepted) && a in accepted && b in accepted && a.seqNo == b.seqNo
    ensures a == b
  {
    var i :| 0 <= i < |accepted| && accepted[i] == a;
    var j :| 0 <= j < |accepted| && accepted[j] == b;
  }

  lemma NextRecord(lib: Library, key: bytes, size: nat, h: History, d: Delivery, r: Record)
    requires LifeInvariant(h.life, size) && RecordInvariant(h, r)
    ensures var h' := HistoryStep(lib, key, size, h, d);
            RecordInvariant(h', r) && Compatible(r, h'.log[|h.log|])
  {
    if r.epoch == h.epoch {
      AcceptedBelow(h.life, size, Entry(r.seqNo, r.reply));
      if d.frame.seqNo <= h.life.peer.value.session.lastPeerSeq {
        DuplicateIsReplayedOrFatal(lib, key, size, h.life, d);
        var answer := PeerStep(lib, key, size, h.life.peer, d.frame, d.helloAck).1;
        if answer.Replayed? && r.seqNo == d.frame.seqNo {
          AcceptedOnce(h.life.accepted, Entry(r.seqNo, r.reply), Entry(d.frame.seqNo, answer.reply));
        }
      }
    }
  }

  lemma LastRecord(lib: Library, key: bytes, size: nat, h: History, d: Delivery)
    requires LifeInvariant(h.life, size)
    ensures var h' := HistoryStep(lib, key, size, h, d);
            RecordInvariant(h', h'.log[|h.log|])
  {
    var p := PeerOf(h.life.peer, d.helloAck);
    if h.life.peer.Some? && d.frame.seqNo <= p.session.lastPeerSeq {
      DuplicateIsReplayedOrFatal(lib, key, size, h.life, d);
    } else if h.life.peer.Some? {
      NewIsNotCached(h.life, size, d.frame.seqNo);
    }
  }

  lemma NewIsNotCached(life: Life, size: nat, k: int)
    requires LifeInvariant(life, size) && life.peer.Some? && k > life.peer.value.session.lastPeerSeq
    ensures Lookup(life.peer.value.window, k) == None
  {
    var gone := LastNCuts(life.accepted, size);
    NewKeyIsAbsent(life.accepted, k);
    KeysConcat(gone, life.peer.value.window);
    AbsentKey(life.peer.value.window, k);
  }

  lemma HistoryInvariantStep(lib: Library, key: bytes, size: nat, h: History, d: Delivery)
    requires HistoryInvariant(h, size)
    ensures HistoryInvariant(HistoryStep(lib, key, size, h, d), size)
  {
    var h' := HistoryStep(lib, key, size, h, d);
    LifeInvariantStep(lib, key, size, h.life, d);
    LastRecord(lib, key, size, h, d);
    forall i | 0 <= i < |h.log|
      ensures RecordInvariant(h', h.log[i]) && Compatible(h.log[i], h'.log[|h.log|])
    {
      NextRecord(lib, key, size, h, d, h.log[i]);
    }
    CompatibleAppend(h.log, h'.log[|h.log|]);
  }

  lemma CompatibleAppend(log: seq<Record>, r: Record)
    requires forall i, j | 0 <= i < j < |log| :: Compatible(log[i], log[j])
    requires forall i | 0 <= i < |log| :: Compatible(log[i], r)
    ensures forall i, j | 0 <= i < j < |log + [r]| :: Compatible((log + [r])[i], (log + [r])[j])
  {
  }

  /** At most once, and the same bytes every time: for any deliveries to one address, any
      window size, and however often the session is replaced. */
  lemma {:induction false} AtMostOnceSameBytes(lib: Library, key: bytes, size: nat, ds: seq<Delivery>)
    ensures HistoryInvariant(HistoryAfter(lib, key, size, ds), size)
  {
    if ds != [] {
      AtMostOnceSameBytes(lib, key, size, ds[..|ds| - 1]);
      HistoryInvariantStep(lib, key, size, HistoryAfter(lib, key, size, ds[..|ds| - 1]), ds[|ds| - 1]);
    }
  }

  // ---- exactly when a number is dispatched or executed twice ----

  /** The two things a history keeps count of. */
  datatype Mark = Dispatched | Served

  /** The numbers of the frames that reached `_dispatch`, or that were executed, in order. */
  function Numbers(m: Mark, log: seq<Record>): seq<int>
  {
    if log == [] then []
    else
      var r := log[|log| - 1];
      Numbers(m, log[..|log| - 1]) + if (if m == Served then r.served else r.dispatched) then [r.seqNo] else []
  }

  /** The stored session has gone past a number, so its sequence check would stop it. */
  predicate Covers(peer: Option<Peer>, n: int)
  {
    peer.Some? && n <= peer.value.session.lastPeerSeq
  }

  /** What can be said before a delivery: a frame will reach `_dispatch` unless the stored session
      covers its number; it will be executed as a readable HELLO where no session is stored, and
      otherwise above the session's number as anything READY allows. */
  predicate Guard(m: Mark, lib: Library, peer: Option<Peer>, f: WireFrame)
  {
    match m
    case Dispatched => !Covers(peer, f.seqNo)
    case Served =>
      if peer.None? then f.msgType == Hello && lib.decodeHello(f.payload).Ok?
      else !Covers(peer, f.seqNo)
           && (f.msgType in {Ping, Pong, Data, Ack, Bye} || (f.msgType == Error && lib.decodeError(f.payload).Ok?))
  }

  predicate NeverTwice(numbers: seq<int>)
  {
    forall i, j | 0 <= i < j < |numbers| :: numbers[i] != numbers[j]
  }

  lemma NeverTwiceAppend(numbers: seq<int>, n: int)
    ensures NeverTwice(numbers + [n]) <==> NeverTwice(numbers) && n !in numbers
  {
    var all := numbers + [n];
    assert all[|numbers|] == n && forall i | 0 <= i < |numbers| :: all[i] == numbers[i];
  }

  /** After any deliveries, the next frame reaches `_dispatch` exactly when no session is stored for
      the address or the stored one has not reached the frame's number: neither the window nor
      earlier sessions play a part. */
  lemma NextDispatches(lib: Library, key: bytes, size: nat, ds: seq<Delivery>, d: Delivery)
    ensures var h := HistoryAfter(lib, key, size, ds);
            Dispatches(h.life.peer, d.frame, d.helloAck) <==> !Covers(h.life.peer, d.frame.seqNo)
  {
    var h := HistoryAfter(lib, key, size, ds);
    AtMostOnceSameBytes(lib, key, size, ds);
    if h.life.peer.Some? && !Covers(h.life.peer, d.frame.seqNo) {
      NewIsNotCached(h.life, size, d.frame.seqNo);
    }
  }

  /** And it is executed exactly when, in addition, it is what the session can serve: only a
      readable HELLO where none is stored. */
  lemma NextServes(lib: Library, key: bytes, size: nat, ds: seq<Delivery>, d: Delivery)
    ensures var h := HistoryAfter(lib, key, size, ds);
            Serves(lib, h.life.peer, d.frame, d.helloAck) <==> Guard(Served, lib, h.life.peer, d.frame)
  {
    var h := HistoryAfter(lib, key, size, ds);
    NextDispatches(lib, key, size, ds, d);
    AtMostOnceSameBytes(lib, key, size, ds);
    AcceptsMeaning(lib, PeerOf(h.life.peer, d.helloAck).session, d.frame);
  }

  lemma NextNumbers(m: Mark, lib: Library, key: bytes, size: nat, ds: seq<Delivery>, d: Delivery)
    ensures var h := HistoryAfter(lib, key, size, ds);
            Numbers(m, HistoryAfter(lib, key, size, ds + [d]).log) ==
              Numbers(m, h.log) + if Guard(m, lib, h.life.peer, d.frame) then [d.frame.seqNo] else []
  {
    var h := HistoryAfter(lib, key, size, ds);
    assert (ds + [d])[..|ds|] == ds;
    NextDispatches(lib, key, size, ds, d);
    NextServes(lib, key, size, ds, d);
    HistoryGrows(lib, key, size, h, d);
    var h' := HistoryStep(lib, key, size, h, d);
    assert h'.log[..|h.log|] == h.log;
  }

  lemma HistoryGrows(lib: Library, key: bytes, size: nat, h: History, d: Delivery)
    ensures var h' := HistoryStep(lib, key, size, h, d);
            && h'.log == h.log + [h'.log[|h.log|]]
            && h'.log[|h.log|].seqNo == d.frame.seqNo
            && h'.log[|h.log|].dispatched == Dispatches(h.life.peer, d.frame, d.helloAck)
            && h'.log[|h.log|].served == Serves(lib, h.life.peer, d.frame, d.helloAck)
  {
  }

  /** A delivery repeats nothing: its number is new to the history, or the guard stops it. */
  ghost predicate Safe(m: Mark, lib: Library, key: bytes, size: nat, before: seq<Delivery>, d: Delivery)
  {
    var h := HistoryAfter(lib, key, size, before);
    d.frame.seqNo in Numbers(m, h.log) ==> !Guard(m, lib, h.life.peer, d.frame)
  }

  /** Every delivery of a list is safe after the ones before it. */
  ghost predicate AllSafe(m: Mark, lib: Library, key: bytes, size: nat, ds: seq<Delivery>)
  {
    ds == [] || (AllSafe(m, lib, key, size, ds[..|ds| - 1]) && Safe(m, lib, key, size, ds[..|ds| - 1], ds[|ds| - 1]))
  }

  lemma NeverTwiceStep(m: Mark, lib: Library, key: bytes, size: nat, ds: seq<Delivery>, d: Delivery)
    ensures NeverTwice(Numbers(m, HistoryAfter(lib, key, size, ds + [d]).log))
       <==> NeverTwice(Numbers(m, HistoryAfter(lib, key, size, ds).log)) && Safe(m, lib, key, size, ds, d)
  {
    var numbers := Numbers(m, HistoryAfter(lib, key, size, ds).log);
    NextNumbers(m, lib, key, size, ds, d);
    NeverTwiceAppend(numbers, d.frame.seqNo);
    assert numbers + [] == numbers;
  }

  /** Over a whole history, session after session, no number is dispatched twice if and only if no
      delivery of a number dispatched before finds the guard of dispatch open; and no number is
      executed twice if and only if no delivery of a number executed before finds the guard of
      execution open. */
  lemma {:induction false} AtMostOnceExactly(m: Mark, lib: Library, key: bytes, size: nat, ds: seq<Delivery>)
    ensures NeverTwice(Numbers(m, HistoryAfter(lib, key, size, ds).log)) <==> AllSafe(m, lib, key, size, ds)
  {
    if ds != [] {
      var before, d := ds[..|ds| - 1], ds[|ds| - 1];
      AtMostOnceExactly(m, lib, key, size, before);
      assert ds == before + [d];
      NeverTwiceStep(m, lib, key, size, before, d);
    }
  }

  lemma HelloOpens(lib: Library, key: bytes, size: nat, h: History, d: Delivery)
    requires h.life == Life(None, [])
    requires d.frame.msgType == Hello && lib.decodeHello(d.frame.payload).Ok?
    ensures var h' := HistoryStep(lib, key, size, h, d);
            && h'.life.peer.Some? && LifeInvariant(h'.life, size)
            && h'.life.peer.value.session.lastPeerSeq == d.frame.seqNo
            && h'.epoch == h.epoch && h'.log[|h.log|].epoch == h.epoch && h'.log[|h.log|].served
  {
    AcceptsMeaning(lib, NewSession(d.helloAck), d.frame);
    HandleMeaning(lib, NewSession(d.helloAck), d.frame);
    LifeInvariantStep(lib, key, size, h.life, d);
  }

  lemma ByeEnds(lib: Library, key: bytes, size: nat, h: History, d: Delivery)
    requires LifeInvariant(h.life, size) && h.life.peer.Some?
    requires d.frame.msgType == Bye && d.frame.seqNo > h.life.peer.value.session.lastPeerSeq
    ensures var h' := HistoryStep(lib, key, size, h, d);
            h'.life == Life(None, []) && h'.epoch == h.epoch + 1
  {
    NewIsNotCached(h.life, size, d.frame.seqNo);
    HandleMeaning(lib, h.life.peer.value.session, d.frame);
  }

  lemma HistoryExtends(lib: Library, key: bytes, size: nat, ds: seq<Delivery>, d: Delivery)
    ensures HistoryAfter(lib, key, size, ds + [d]) == HistoryStep(lib, key, size, HistoryAfter(lib, key, size, ds), d)
  {
    assert (ds + [d])[..|ds|] == ds;
  }

  lemma HistoryOfOne(lib: Library, key: bytes, size: nat, a: Delivery)
    ensures HistoryAfter(lib, key, size, [a]) == HistoryStep(lib, key, size, History(Life(None, []), 0, []), a)
  {
    HistoryExtends(lib, key, size, [], a);
    assert [] + [a] == [a];
  }

  lemma HistoryOfTwo(lib: Library, key: bytes, size: nat, a: Delivery, b: Delivery)
    ensures HistoryAfter(lib, key, size, [a, b]) == HistoryStep(lib, key, size, HistoryAfter(lib, key, size, [a]), b)
  {
    HistoryExtends(lib, key, size, [a], b);
    assert [a] + [b] == [a, b];
  }

  lemma HistoryOfThree(lib: Library, key: bytes, size: nat, a: Delivery, b: Delivery, c: Delivery)
    ensures HistoryAfter(lib, key, size, [a, b, c]) == HistoryStep(lib, key, size, HistoryAfter(lib, key, size, [a, b]), c)
  {
    HistoryExtends(lib, key, size, [a, b], c);
    assert [a, b] + [c] == [a, b, c];
  }

  lemma HelloFirst(lib: Library, key: bytes, size: nat, hello: Delivery)
    requires hello.frame.msgType == Hello && lib.decodeHello(hello.frame.payload).Ok?
    ensures var h := HistoryAfter(lib, key, size, [hello]);
            && h.epoch == 0 && |h.log| == 1 && h.log[0].seqNo == hello.frame.seqNo
            && h.log[0].dispatched && h.log[0].served && h.log[0].epoch == 0
            && LifeInvariant(h.life, size) && h.life.peer.Some?
            && h.life.peer.value.session.lastPeerSeq == hello.frame.seqNo
  {
    HistoryOfOne(lib, key, size, hello);
    HelloOpens(lib, key, size, History(Life(None, []), 0, []), hello);
    HistoryGrows(lib, key, size, History(Life(None, []), 0, []), hello);
  }

  lemma ByeSecond(lib: Library, key: bytes, size: nat, hello: Delivery, bye: Delivery)
    requires hello.frame.msgType == Hello && lib.decodeHello(hello.frame.payload).Ok?
    requires bye.frame.msgType == Bye && bye.frame.seqNo > hello.frame.seqNo
    ensures var h := HistoryAfter(lib, key, size, [hello, bye]);
            && h.epoch == 1 && |h.log| == 2 && h.log[0] == HistoryAfter(lib, key, size, [hello]).log[0]
            && h.life == Life(None, [])
  {
    HelloFirst(lib, key, size, hello);
    HistoryOfTwo(lib, key, size, hello, bye);
    ByeEnds(lib, key, size, HistoryAfter(lib, key, size, [hello]), bye);
    HistoryGrows(lib, key, size, HistoryAfter(lib, key, size, [hello]), bye);
  }

  /** One way there: after a BYE a late copy of the HELLO opens a second session, and its number
      is executed again. */
  lemma AtMostOnceEndsWithTheSession(lib: Library, key: bytes, size: nat, hello: Delivery, bye: Delivery)
    requires hello.frame.msgType == Hello && lib.decodeHello(hello.frame.payload).Ok?
    requires bye.frame.msgType == Bye && bye.frame.seqNo > hello.frame.seqNo
    ensures var log := HistoryAfter(lib, key, size, [hello, bye, hello]).log;
            && |log| == 3 && log[0].seqNo == log[2].seqNo
            && log[0].dispatched && log[2].dispatched && log[0].epoch < log[2].epoch
            && log[0].served && log[2].served
  {
    var h := HistoryAfter(lib, key, size, [hello, bye]);
    HelloFirst(lib, key, size, hello);
    ByeSecond(lib, key, size, hello, bye);
    HistoryOfThree(lib, key, size, hello, bye, hello);
    HelloOpens(lib, key, size, h, hello);
    HistoryGrows(lib, key, size, h, hello);
  }

  lemma EvictionForgets(lib: Library, key: bytes, size: nat, ds: seq<Delivery>, late: Delivery)
    requires var h := HistoryAfter(lib, key, size, ds);
             Covers(h.life.peer, late.frame.seqNo) && late.frame.seqNo !in Keys(LastN(h.life.accepted, size))
    ensures HistoryAfter(lib, key, size, ds + [late]).life.peer.None?
  {
    AtMostOnceSameBytes(lib, key, size, ds);
    assert (ds + [late])[..|ds|] == ds;
    DuplicateIsReplayedOrFatal(lib, key, size, HistoryAfter(lib, key, size, ds).life, late);
  }

  lemma LogGrows(lib: Library, key: bytes, size: nat, ds: seq<Delivery>, d: Delivery)
    ensures var h, log := HistoryAfter(lib, key, size, ds), HistoryAfter(lib, key, size, ds + [d]).log;
            && |log| == |h.log| + 1 && log[..|h.log|] == h.log
            && log[|h.log|].seqNo == d.frame.seqNo
            && log[|h.log|].dispatched == Guard(Dispatched, lib, h.life.peer, d.frame)
            && log[|h.log|].served == Guard(Served, lib, h.life.peer, d.frame)
  {
    assert (ds + [d])[..|ds|] == ds;
    HistoryGrows(lib, key, size, HistoryAfter(lib, key, size, ds), d);
    NextDispatches(lib, key, size, ds, d);
    NextServes(lib, key, size, ds, d);
  }

  /** The other: a copy older than the window ends the session, and then a late copy of any number
      reaches `_dispatch`, which executes it exactly if it is a readable HELLO. */
  lemma EvictionEndsIt(lib: Library, key: bytes, size: nat, ds: seq<Delivery>, late: Delivery, d: Delivery)
    requires var h := HistoryAfter(lib, key, size, ds);
             Covers(h.life.peer, late.frame.seqNo) && late.frame.seqNo !in Keys(LastN(h.life.accepted, size))
    ensures var before, log := HistoryAfter(lib, key, size, ds).log, HistoryAfter(lib, key, size, ds + [late] + [d]).log;
            && |log| == |before| + 2 && log[..|before|] == before
            && log[|log| - 1].seqNo == d.frame.seqNo && log[|log| - 1].dispatched
            && (log[|log| - 1].served <==> d.frame.msgType == Hello && lib.decodeHello(d.frame.payload).Ok?)
            && (d.frame.seqNo in Numbers(Dispatched, before) ==> !NeverTwice(Numbers(Dispatched, log)))
  {
    EvictionForgets(lib, key, size, ds, late);
    LogGrows(lib, key, size, ds, late);
    LogGrows(lib, key, size, ds + [late], d);
    NextNumbers(Dispatched, lib, key, size, ds, late);
    NeverTwiceStep(Dispatched, lib, key, size, ds + [late], d);
  }
}
