/** The capture file reader and writer (`sniff/pcap.py`). Times are whole microseconds. */
module Pcap {
  import opened Bytes

  const MAGIC: uint32 := 0xA1B2_C3D4
  const FILE_HEADER_SIZE := 24
  const RECORD_HEADER_SIZE := 16

  /** The byte order a file was written in. */
  datatype Order = Little | Big

  function Reversed(s: bytes): bytes
    requires |s| == 4
  {
    [s[3], s[2], s[1], s[0]]
  }

  function Word(o: Order, n: uint32): (s: bytes)
    ensures |s| == 4
  {
    if o == Big then Big32(n) else Reversed(Big32(n))
  }

  function ReadWord(o: Order, s: bytes): uint32
    requires |s| == 4
  {
    if o == Big then ReadBig32(s) else ReadBig32(Reversed(s))
  }

  function Half(o: Order, n: uint16): (s: bytes)
    ensures |s| == 2
  {
    if o == Big then Big16(n) else [Big16(n)[1], Big16(n)[0]]
  }

  lemma WordRoundTrip(o: Order, n: uint32)
    ensures ReadWord(o, Word(o, n)) == n
  {
    Big32RoundTrip(n);
    assert Reversed(Reversed(Big32(n))) == Big32(n);
  }

  datatype Packet = Packet(micros: nat, data: bytes, originalLength: uint32)

  datatype PcapError = ShortFile | UnknownMagic | TruncatedHeader | TruncatedData

  /** The packets read before the reader stops, and the error it stops with. */
  datatype Capture = Capture(packets: seq<Packet>, error: Option<PcapError>)

  // ---- writing ----

  datatype Stamped = Stamped(micros: nat, data: bytes)

  /** What `struct` can pack: both parts of the time and the length are 32-bit fields. */
  predicate Packable(p: Stamped)
  {
    p.micros / 1_000_000 < 0x1_0000_0000 && |p.data| < 0x1_0000_0000
  }

  function FileHeader(o: Order, linktype: uint32, snaplen: uint32): (h: bytes)
    ensures |h| == FILE_HEADER_SIZE
  {
    Word(o, MAGIC) + Half(o, 2) + Half(o, 4) + Word(o, 0) + Word(o, 0) + Word(o, snaplen) + Word(o, linktype)
  }

  function RecordHeader(o: Order, p: Stamped): (h: bytes)
    requires Packable(p)
    ensures |h| == RECORD_HEADER_SIZE
  {
    Word(o, p.micros / 1_000_000) + Word(o, p.micros % 1_000_000) + Word(o, |p.data|) + Word(o, |p.data|)
  }

  predicate AllPackable(ps: seq<Stamped>)
  {
    forall i | 0 <= i < |ps| :: Packable(ps[i])
  }

  function Records(o: Order, ps: seq<Stamped>): bytes
    requires AllPackable(ps)
  {
    if ps == [] then [] else RecordHeader(o, ps[0]) + ps[0].data + Records(o, ps[1..])
  }

  /** The source writes little-endian files; the other order is what another machine may write. */
  function FileOf(o: Order, linktype: uint32, snaplen: uint32, ps: seq<Stamped>): bytes
    requires AllPackable(ps)
  {
    FileHeader(o, linktype, snaplen) + Records(o, ps)
  }

  lemma RecordsCons(o: Order, ps: seq<Stamped>, tail: bytes)
    requires AllPackable(ps) && ps != []
    ensures Records(o, ps) + tail == RecordHeader(o, ps[0]) + ps[0].data + (Records(o, ps[1..]) + tail)
  {
  }

  lemma {:induction false} RecordsAppend(o: Order, a: seq<Stamped>, b: seq<Stamped>)
    requires AllPackable(a) && AllPackable(b)
    ensures AllPackable(a + b) && Records(o, a + b) == Records(o, a) + Records(o, b)
  {
    if a == [] {
      assert a + b == b;
    } else {
      assert (a + b)[1..] == a[1..] + b;
      RecordsAppend(o, a[1..], b);
      RecordsCons(o, a, Records(o, b));
    }
  }

  lemma RecordsOne(o: Order, p: Stamped)
    requires Packable(p)
    ensures Records(o, [p]) == RecordHeader(o, p) + p.data
  {
    assert [p][1..] == [];
  }

  lemma FileGrows(o: Order, linktype: uint32, snaplen: uint32, ps: seq<Stamped>, i: nat)
    requires AllPackable(ps) && i < |ps|
    ensures AllPackable(ps[..i]) && AllPackable(ps[..i + 1])
    ensures FileOf(o, linktype, snaplen, ps[..i + 1])
         == FileOf(o, linktype, snaplen, ps[..i]) + RecordHeader(o, ps[i]) + ps[i].data
  {
    var h, before, header, data := FileHeader(o, linktype, snaplen), Records(o, ps[..i]), RecordHeader(o, ps[i]), ps[i].data;
    assert ps[..i + 1] == ps[..i] + [ps[i]];
    RecordsAppend(o, ps[..i], [ps[i]]);
    RecordsOne(o, ps[i]);
    ConcatFour(h, before, header, data);
  }

  lemma ConcatFour(a: bytes, b: bytes, c: bytes, d: bytes)
    ensures a + (b + (c + d)) == a + b + c + d
  {
  }

  method WritePackets(ps: seq<Stamped>, linktype: uint32, snaplen: uint32) returns (out: bytes)
    requires AllPackable(ps)
    ensures out == FileOf(Little, linktype, snaplen, ps)
  {
    out := FileHeader(Little, linktype, snaplen);
    assert out + [] == out && ps[..0] == [];
    for i := 0 to |ps|
      invariant AllPackable(ps[..i])
      invariant out == FileOf(Little, linktype, snaplen, ps[..i])
    {
      FileGrows(Little, linktype, snaplen, ps, i);
      out := out + RecordHeader(Little, ps[i]);
      out := out + ps[i].data;
    }
    assert ps[..|ps|] == ps;
  }

  // ---- reading ----

  /** The time, the captured length and the original length of a record header. */
  function Fields(o: Order, h: bytes): (nat, uint32, uint32)
    requires |h| == RECORD_HEADER_SIZE
  {
    (ReadWord(o, h[..4]) * 1_000_000 + ReadWord(o, h[4..8]), ReadWord(o, h[8..12]), ReadWord(o, h[12..]))
  }

  function ReadRecords(o: Order, raw: bytes): Capture
    decreases |raw|
  {
    if raw == [] then Capture([], None)
    else if |raw| < RECORD_HEADER_SIZE then Capture([], Some(TruncatedHeader))
    else
      var (micros, length, original) := Fields(o, raw[..RECORD_HEADER_SIZE]);
      if |raw| < RECORD_HEADER_SIZE + length then Capture([], Some(TruncatedData))
      else
        var data := raw[RECORD_HEADER_SIZE..RECORD_HEADER_SIZE + length];
        Before([Packet(micros, data, original)], ReadRecords(o, raw[RECORD_HEADER_SIZE + length..]))
  }

  function Before(packets: seq<Packet>, c: Capture): Capture
  {
    c.(packets := packets + c.packets)
  }

  /** The order a file's first four bytes announce. */
  function OrderOf(raw: bytes): Option<Order>
    requires |raw| >= 4
  {
    var magic := ReadWord(Little, raw[..4]);
    if magic == MAGIC then Some(Little) else if magic == 0xD4C3_B2A1 then Some(Big) else None
  }

  /** The link type comes with every packet; it is read from the file header once. */
  function ReadFile(raw: bytes): (uint32, Capture)
  {
    if |raw| < FILE_HEADER_SIZE then (0, Capture([], Some(ShortFile)))
    else
      match OrderOf(raw)
      case None => (0, Capture([], Some(UnknownMagic)))
      case Some(o) => (ReadWord(o, raw[20..24]), ReadRecords(o, raw[FILE_HEADER_SIZE..]))
  }

  method ReadPackets(raw: bytes) returns (linktype: uint32, packets: seq<Packet>, error: Option<PcapError>)
    ensures (linktype, Capture(packets, error)) == ReadFile(raw)
  {
    linktype, packets, error := 0, [], None;
    if |raw| < FILE_HEADER_SIZE {
      error := Some(ShortFile);
      return;
    }
    var order := OrderOf(raw);
    if order.None? {
      error := Some(UnknownMagic);
      return;
    }
    linktype := ReadWord(order.value, raw[20..24]);
    packets, error := ReadBody(order.value, raw);
  }

  method ReadBody(o: Order, raw: bytes) returns (packets: seq<Packet>, error: Option<PcapError>)
    requires |raw| >= FILE_HEADER_SIZE
    ensures Capture(packets, error) == ReadRecords(o, raw[FILE_HEADER_SIZE..])
  {
    packets, error := [], None;
    var offset := FILE_HEADER_SIZE;
    BeforeNothing(ReadRecords(o, raw[offset..]));
    while offset < |raw|
      invariant FILE_HEADER_SIZE <= offset <= |raw|
      invariant Before(packets, ReadRecords(o, raw[offset..])) == ReadRecords(o, raw[FILE_HEADER_SIZE..])
      decreases |raw| - offset
    {
      var r := ReadRecord(o, raw, offset);
      BeforeNothing(Capture(packets, None));
      if r.Cut? {
        error := Some(r.error);
        return;
      }
      BeforeTwice(packets, [r.packet], ReadRecords(o, raw[r.next..]));
      packets := packets + [r.packet];
      offset := r.next;
    }
    assert raw[offset..] == [];
    BeforeNothing(Capture(packets, None));
  }

  datatype RecordRead = Whole(packet: Packet, next: nat) | Cut(error: PcapError)

  /** What the reader finds at an offset. */
  function RecordAt(o: Order, raw: bytes, offset: nat): (r: RecordRead)
    requires offset < |raw|
    ensures r.Whole? ==> offset < r.next <= |raw|
  {
    var body := offset + RECORD_HEADER_SIZE;
    if body > |raw| then Cut(TruncatedHeader)
    else
      var (micros, length, original) := Fields(o, raw[offset..body]);
      if body + length > |raw| then Cut(TruncatedData)
      else Whole(Packet(micros, raw[body..body + length], original), body + length)
  }

  lemma ReadAt(o: Order, raw: bytes, offset: nat)
    requires offset < |raw|
    ensures var r := RecordAt(o, raw, offset);
            ReadRecords(o, raw[offset..]) ==
              if r.Cut? then Capture([], Some(r.error)) else Before([r.packet], ReadRecords(o, raw[r.next..]))
  {
    var rest, body := raw[offset..], offset + RECORD_HEADER_SIZE;
    if body <= |raw| {
      assert rest[..RECORD_HEADER_SIZE] == raw[offset..body];
      var length := Fields(o, raw[offset..body]).1;
      if body + length <= |raw| {
        assert rest[RECORD_HEADER_SIZE..RECORD_HEADER_SIZE + length] == raw[body..body + length];
        assert rest[RECORD_HEADER_SIZE + length..] == raw[body + length..];
      }
    }
  }

  /** One turn of the reader's loop. */
  method ReadRecord(o: Order, raw: bytes, offset: nat) returns (r: RecordRead)
    requires offset < |raw|
    ensures r == RecordAt(o, raw, offset)
    ensures r.Whole? ==>
              offset < r.next <= |raw| && ReadRecords(o, raw[offset..]) == Before([r.packet], ReadRecords(o, raw[r.next..]))
    ensures r.Cut? ==> ReadRecords(o, raw[offset..]) == Capture([], Some(r.error))
  {
    ReadAt(o, raw, offset);
    var body := offset + RECORD_HEADER_SIZE;
    if body > |raw| {
      return Cut(TruncatedHeader);
    }
    var (micros, length, original) := Fields(o, raw[offset..body]);
    if body + length > |raw| {
      return Cut(TruncatedData);
    }
    r := Whole(Packet(micros, raw[body..body + length], original), body + length);
  }

  lemma BeforeNothing(c: Capture)
    ensures Before([], c) == c && Before(c.packets, c.(packets := [])) == c
  {
    assert [] + c.packets == c.packets == c.packets + [];
  }

  lemma BeforeTwice(a: seq<Packet>, b: seq<Packet>, c: Capture)
    ensures Before(a, Before(b, c)) == Before(a + b, c)
  {
    assert a + (b + c.packets) == (a + b) + c.packets;
  }

  // ---- round trip ----

  /** The packet a written record reads back as. */
  function PacketOf(p: Stamped): Packet
    requires Packable(p)
  {
    Packet(p.micros, p.data, |p.data|)
  }

  function PacketsOf(ps: seq<Stamped>): (r: seq<Packet>)
    requires AllPackable(ps)
    ensures |r| == |ps|
  {
    seq(|ps|, i requires 0 <= i < |ps| => PacketOf(ps[i]))
  }

  lemma RecordFields(o: Order, p: Stamped)
    requires Packable(p)
    ensures Fields(o, RecordHeader(o, p)) == (p.micros, |p.data|, |p.data|)
  {
    AnyFields(o, p.micros / 1_000_000, p.micros % 1_000_000, |p.data|, |p.data|);
  }

  lemma ReadOne(o: Order, h: bytes, data: bytes, tail: bytes, micros: nat)
    requires |h| == RECORD_HEADER_SIZE && |data| < 0x1_0000_0000 && Fields(o, h) == (micros, |data|, |data|)
    ensures ReadRecords(o, h + data + tail) == Before([Packet(micros, data, |data|)], ReadRecords(o, tail))
  {
    var raw := h + data + tail;
    assert raw[..RECORD_HEADER_SIZE] == h;
    assert raw[RECORD_HEADER_SIZE..RECORD_HEADER_SIZE + |data|] == data;
    assert raw[RECORD_HEADER_SIZE + |data|..] == tail;
  }

  lemma ReadOneRecord(o: Order, p: Stamped, tail: bytes)
    requires Packable(p)
    ensures ReadRecords(o, RecordHeader(o, p) + p.data + tail) == Before([PacketOf(p)], ReadRecords(o, tail))
  {
    RecordFields(o, p);
    ReadOne(o, RecordHeader(o, p), p.data, tail, p.micros);
  }

  lemma PacketsOfCons(ps: seq<Stamped>)
    requires AllPackable(ps)
    ensures if ps == [] then PacketsOf(ps) == [] else PacketsOf(ps) == [PacketOf(ps[0])] + PacketsOf(ps[1..])
  {
  }

  lemma {:induction false} ReadWholeRecords(o: Order, ps: seq<Stamped>)
    requires AllPackable(ps)
    ensures ReadRecords(o, Records(o, ps)) == Capture(PacketsOf(ps), None)
  {
    PacketsOfCons(ps);
    if ps != [] {
      ReadOneRecord(o, ps[0], Records(o, ps[1..]));
      ReadWholeRecords(o, ps[1..]);
    }
  }

  /** A record that is cut short yields nothing and is an error, unless nothing of it is there. */
  lemma ReadCutRecord(o: Order, p: Stamped, part: bytes)
    requires Packable(p) && part < RecordHeader(o, p) + p.data
    ensures ReadRecords(o, part) ==
            Capture([], if part == [] then None
                        else if |part| < RECORD_HEADER_SIZE then Some(TruncatedHeader)
                        else Some(TruncatedData))
  {
    if |part| >= RECORD_HEADER_SIZE {
      assert part[..RECORD_HEADER_SIZE] == RecordHeader(o, p);
      RecordFields(o, p);
    }
  }

  /** The error for a record of which only so many bytes are there. */
  function ErrorBehind(left: nat): Option<PcapError>
  {
    if left == 0 then None else if left < 16 then Some(TruncatedHeader) else Some(TruncatedData)
  }

  /** How many records a cut contains whole, and what reading the cut gives. */
  ghost predicate CutAt(o: Order, ps: seq<Stamped>, raw: bytes, m: nat)
    requires AllPackable(ps) && m <= |ps|
  {
    && Records(o, ps[..m]) <= raw
    && (m < |ps| ==> |raw| < |Records(o, ps[..m])| + RECORD_HEADER_SIZE + |ps[m].data|)
    && ReadRecords(o, raw).packets == PacketsOf(ps[..m])
    && (ReadRecords(o, raw).error == None <==> raw == Records(o, ps[..m]))
    && ReadRecords(o, raw).error == ErrorBehind(|raw| - |Records(o, ps[..m])|)
  }

  lemma CutStep(o: Order, ps: seq<Stamped>, raw: bytes, m: nat)
    requires AllPackable(ps) && ps != [] && m <= |ps| - 1
    requires CutAt(o, ps[1..], raw, m)
    ensures CutAt(o, ps, RecordHeader(o, ps[0]) + ps[0].data + raw, m + 1)
  {
    var first := RecordHeader(o, ps[0]) + ps[0].data;
    assert ps[..m + 1][1..] == ps[1..][..m];
    ReadOneRecord(o, ps[0], raw);
    PacketsOfCons(ps[..m + 1]);
    SamePrefix(first, Records(o, ps[1..][..m]), raw);
  }

  lemma SamePrefix(first: bytes, a: bytes, b: bytes)
    ensures first + a <= first + b <==> a <= b
    ensures first + a == first + b <==> a == b
  {
    assert (first + a)[|first|..] == a && (first + b)[|first|..] == b;
    if first + a <= first + b {
      assert (first + b)[..|first + a|] == first + a;
      assert b[..|a|] == a;
    }
  }

  lemma {:induction false} CutRecords(o: Order, ps: seq<Stamped>, raw: bytes) returns (m: nat)
    requires AllPackable(ps) && raw <= Records(o, ps)
    ensures m <= |ps| && CutAt(o, ps, raw, m)
  {
    if ps == [] {
      m := 0;
      assert PacketsOf(ps[..0]) == [];
    } else {
      var first := RecordHeader(o, ps[0]) + ps[0].data;
      if |raw| < |first| {
        m := 0;
        assert raw == Records(o, ps)[..|raw|] == first[..|raw|];
        ReadCutRecord(o, ps[0], raw);
        assert PacketsOf(ps[..0]) == [];
      } else {
        assert raw[..|first|] == Records(o, ps)[..|first|] == first;
        var rest := raw[|first|..];
        assert raw == first + rest;
        SamePrefix(first, rest, Records(o, ps[1..]));
        m := CutRecords(o, ps[1..], rest);
        CutStep(o, ps, rest, m);
        m := m + 1;
      }
    }
  }

  lemma HeaderReadsBack(o: Order, linktype: uint32, snaplen: uint32, tail: bytes)
    ensures ReadFile(FileHeader(o, linktype, snaplen) + tail) == (linktype, ReadRecords(o, tail))
  {
    var h := FileHeader(o, linktype, snaplen);
    var raw := h + tail;
    assert raw[..4] == h[..4] == Word(o, MAGIC);
    assert raw[20..24] == h[20..24] == Word(o, linktype);
    assert raw[FILE_HEADER_SIZE..] == tail;
    WordRoundTrip(o, linktype);
    MagicTellsOrder(o);
  }

  lemma MagicTellsOrder(o: Order)
    ensures ReadWord(Little, Word(o, MAGIC)) == if o == Little then MAGIC else 0xD4C3_B2A1
  {
    WordRoundTrip(Little, MAGIC);
    assert Big32(MAGIC) == [0xA1, 0xB2, 0xC3, 0xD4];
    assert Reversed(Big32(MAGIC)) == [0xD4, 0xC3, 0xB2, 0xA1];
    assert ReadBig32([0xD4, 0xC3, 0xB2, 0xA1]) == 0xD4C3_B2A1 by {
      assert [0xD4, 0xC3, 0xB2, 0xA1][..2] == [0xD4, 0xC3] && [0xD4, 0xC3, 0xB2, 0xA1][2..] == [0xB2, 0xA1];
    }
  }

  /** A written file reads back to its packets; so does the file another machine writes in the
      opposite byte order. */
  lemma CaptureRoundTrip(o: Order, linktype: uint32, snaplen: uint32, ps: seq<Stamped>)
    requires AllPackable(ps)
    ensures ReadFile(FileOf(o, linktype, snaplen, ps)) == (linktype, Capture(PacketsOf(ps), None))
  {
    HeaderReadsBack(o, linktype, snaplen, Records(o, ps));
    ReadWholeRecords(o, ps);
  }

  /** A written file cut anywhere behind its header yields exactly the records wholly contained
      in the cut, and raises unless the cut falls between two records: for its header if the cut
      falls in one, and otherwise for its data. */
  lemma CutCapture(o: Order, linktype: uint32, snaplen: uint32, ps: seq<Stamped>, cut: nat) returns (m: nat)
    requires AllPackable(ps) && FILE_HEADER_SIZE <= cut <= |FileOf(o, linktype, snaplen, ps)|
    ensures m <= |ps|
    ensures |FileOf(o, linktype, snaplen, ps[..m])| <= cut
    ensures m < |ps| ==> cut < |FileOf(o, linktype, snaplen, ps[..m])| + RECORD_HEADER_SIZE + |ps[m].data|
    ensures var (l, c) := ReadFile(FileOf(o, linktype, snaplen, ps)[..cut]);
            l == linktype && c.packets == PacketsOf(ps[..m])
            && (c.error == None <==> cut == |FileOf(o, linktype, snaplen, ps[..m])|)
            && c.error == ErrorBehind(cut - |FileOf(o, linktype, snaplen, ps[..m])|)
  {
    var raw := Records(o, ps)[..cut - FILE_HEADER_SIZE];
    assert FileOf(o, linktype, snaplen, ps)[..cut] == FileHeader(o, linktype, snaplen) + raw;
    HeaderReadsBack(o, linktype, snaplen, raw);
    m := CutRecords(o, ps, raw);
  }

  /** A file without a whole header, or with another magic in either byte order, yields nothing. */
  lemma NotACapture(raw: bytes)
    ensures |raw| < 24 ==> ReadFile(raw) == (0, Capture([], Some(ShortFile)))
    ensures |raw| >= 24 && raw[..4] != [0xD4, 0xC3, 0xB2, 0xA1] && raw[..4] != [0xA1, 0xB2, 0xC3, 0xD4] ==>
              ReadFile(raw) == (0, Capture([], Some(UnknownMagic)))
  {
    if |raw| >= 24 {
      var m := raw[..4];
      Big32Inverse(Reversed(m));
      assert Reversed(Reversed(m)) == m;
      MagicBytes();
    }
  }

  lemma MagicBytes()
    ensures Big32(0xA1B2_C3D4) == [0xA1, 0xB2, 0xC3, 0xD4] && Big32(0xD4C3_B2A1) == [0xD4, 0xC3, 0xB2, 0xA1]
    ensures Reversed([0xA1, 0xB2, 0xC3, 0xD4]) == [0xD4, 0xC3, 0xB2, 0xA1]
  {
  }

  /** The file header, byte by byte: magic, version 2.4, no zone, no accuracy, then the snapshot
      length and the link type, each in the file's order. */
  lemma FileLayout(linktype: uint32, snaplen: uint32)
    ensures var h := FileHeader(Little, linktype, snaplen);
            && h[..8] == [0xD4, 0xC3, 0xB2, 0xA1, 2, 0, 4, 0] && h[8..16] == [0, 0, 0, 0, 0, 0, 0, 0]
            && BigEndian(Reversed(h[16..20])) == snaplen && BigEndian(Reversed(h[20..])) == linktype
  {
    var h := FileHeader(Little, linktype, snaplen);
    MagicBytes();
    assert h[..4] == Word(Little, MAGIC) && h[4..6] == Half(Little, 2) && h[6..8] == Half(Little, 4);
    assert h[..8] == h[..4] + h[4..6] + h[6..8];
    assert h[8..12] == Word(Little, 0) && h[12..16] == Word(Little, 0) && h[8..16] == h[8..12] + h[12..16];
    assert h[16..20] == Word(Little, snaplen) && h[20..] == Word(Little, linktype);
    assert Reversed(Word(Little, snaplen)) == Big32(snaplen) && Reversed(Word(Little, linktype)) == Big32(linktype);
    BigEndianFour(Big32(snaplen));
    BigEndianFour(Big32(linktype));
    Big32RoundTrip(snaplen);
    Big32RoundTrip(linktype);
  }

  function AnyHeader(o: Order, sec: uint32, usec: uint32, included: uint32, original: uint32): (h: bytes)
    ensures |h| == RECORD_HEADER_SIZE
  {
    Word(o, sec) + Word(o, usec) + Word(o, included) + Word(o, original)
  }

  lemma FourWords(a: bytes, b: bytes, c: bytes, d: bytes)
    requires |a| == |b| == |c| == |d| == 4
    ensures var h := a + b + c + d;
            h[..4] == a && h[4..8] == b && h[8..12] == c && h[12..] == d
  {
  }

  lemma AnyFields(o: Order, sec: uint32, usec: uint32, included: uint32, original: uint32)
    ensures Fields(o, AnyHeader(o, sec, usec, included, original)) == (sec * 1_000_000 + usec, included, original)
  {
    FourWords(Word(o, sec), Word(o, usec), Word(o, included), Word(o, original));
    WordRoundTrip(o, sec);
    WordRoundTrip(o, usec);
    WordRoundTrip(o, included);
    WordRoundTrip(o, original);
  }

  /** A record any other program wrote, such as one captured short, in a file of either order: its
      captured bytes, its time, and the length the packet had, which need not be theirs. */
  lemma AnyRecord(o: Order, sec: uint32, usec: uint32, original: uint32, data: bytes, tail: bytes)
    requires |data| < 0x1_0000_0000
    ensures ReadRecords(o, AnyHeader(o, sec, usec, |data|, original) + data + tail)
         == Before([Packet(sec * 1_000_000 + usec, data, original)], ReadRecords(o, tail))
  {
    var h := AnyHeader(o, sec, usec, |data|, original);
    var raw := h + data + tail;
    AnyFields(o, sec, usec, |data|, original);
    assert raw[..RECORD_HEADER_SIZE] == h;
    assert raw[RECORD_HEADER_SIZE..RECORD_HEADER_SIZE + |data|] == data;
    assert raw[RECORD_HEADER_SIZE + |data|..] == tail;
  }
}
