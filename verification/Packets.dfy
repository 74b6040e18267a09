/** Hand-built packet headers (`tools/make_pcap_fixture.py`) and the layer-by-layer dissection
    that has to read them (`sniff/dissect.py`). Addresses stay in their binary form. */
module Packets {
  import opened Bytes
  import opened Protocol
  import opened Parsers
  import opened Checksums

  const LINKTYPE_LOOPBACK := 0
  const LINKTYPE_ETHERNET := 1
  const LINKTYPE_RAW_IP := 101
  const ETHERTYPE_IPV4: uint16 := 0x0800
  const PROTO_TCP: byte := 6
  const PROTO_UDP: byte := 17

  type MacAddr = s: bytes | |s| == 6 witness [0, 0, 0, 0, 0, 0]
  type IpAddr = s: bytes | |s| == 4 witness [0, 0, 0, 0]

  // ---- builders ----

  function Ethernet(src: MacAddr, dst: MacAddr, payload: bytes): bytes
  {
    dst + src + Big16(ETHERTYPE_IPV4) + payload
  }

  function Ipv4Header(src: IpAddr, dst: IpAddr, proto: byte, total: uint16, ident: uint16, check: uint16): (h: bytes)
    ensures |h| == 20
  {
    [0x45, 0] + Big16(total) + Big16(ident) + Big16(0) + [64, proto] + Big16(check) + src + dst
  }

  /** `struct` refuses a total length of more than 16 bits. */
  function Ipv4(src: IpAddr, dst: IpAddr, proto: byte, payload: bytes, ident: uint16): (p: bytes)
    requires 20 + |payload| < 0x1_0000
  {
    var header := Ipv4Header(src, dst, proto, 20 + |payload|, ident, 0);
    header[..10] + Big16(ChecksumOf(header)) + header[12..] + payload
  }

  function Tcp(sport: uint16, dport: uint16, seqNo: uint32, ackNo: uint32, flags: byte, payload: bytes): (p: bytes)
    ensures |p| == 20 + |payload|
  {
    Big16(sport) + Big16(dport) + Big32(seqNo) + Big32(ackNo) + [0x50, flags]
    + Big16(0xFFFF) + Big16(0) + Big16(0) + payload
  }

  function Udp(sport: uint16, dport: uint16, payload: bytes): (p: bytes)
    requires 8 + |payload| < 0x1_0000
    ensures |p| == 8 + |payload|
  {
    Big16(sport) + Big16(dport) + Big16(8 + |payload|) + Big16(0) + payload
  }

  // ---- dissection ----

  datatype Transport = NoTransport | TcpSegment | UdpDatagram

  datatype Note = NoNote | NonIpv4(ethertype: uint16) | UnsupportedLink(linktype: int) | NotIpv4 | OtherProtocol(proto: byte)

  datatype Row = Row(
    l2Src: bytes, l2Dst: bytes,
    l3Src: bytes, l3Dst: bytes,
    l4Proto: Transport, l4Sport: uint16, l4Dport: uint16, l4Flags: Option<byte>,
    payload: bytes, l7: seq<Info>, note: Note)

  const EMPTY_ROW := Row([], [], [], [], NoTransport, 0, 0, None, [], [], NoNote)

  /** A Python slice: bounds past the end are the end, and an empty range is empty. */
  function Slice(s: bytes, lo: nat, hi: nat): bytes
  {
    var to := if hi < |s| then hi else |s|;
    if lo < to then s[lo..to] else []
  }

  /** The bytes of the network layer, and what the link layer says, when it has an answer. */
  function LinkOf(linktype: int, data: bytes): Option<(Row, Option<bytes>)>
  {
    if linktype == LINKTYPE_ETHERNET then
      if |data| < 14 then None
      else
        var row := EMPTY_ROW.(l2Dst := data[..6], l2Src := data[6..12]);
        var ethertype := ReadBig16(data[12..14]);
        if ethertype != ETHERTYPE_IPV4 then Some((row.(note := NonIpv4(ethertype)), None))
        else Some((row, Some(data[14..])))
    else if linktype == LINKTYPE_LOOPBACK then Some((EMPTY_ROW, Some(Slice(data, 4, |data|))))
    else if linktype != LINKTYPE_RAW_IP then Some((EMPTY_ROW.(note := UnsupportedLink(linktype)), None))
    else Some((EMPTY_ROW, Some(data)))
  }

  /** The network layer and, behind it, the transport layer and the payload scan. */
  function NetworkOf(row: Row, data: bytes): Row
  {
    if |data| < 20 || data[0] / 16 != 4 then row.(note := NotIpv4)
    else
      var ihl := data[0] % 16 * 4;
      var total := ReadBig16(data[2..4]);
      var row' := row.(l3Src := data[12..16], l3Dst := data[16..20]);
      TransportOf(row', data[9], if total != 0 then Slice(data, ihl, total) else Slice(data, ihl, |data|))
  }

  function TransportOf(row: Row, proto: byte, data: bytes): Row
  {
    if proto == PROTO_TCP then
      if |data| < 20 then row
      else
        var offset := data[12] / 16 * 4;
        Application(row.(l4Proto := TcpSegment, l4Sport := ReadBig16(data[..2]), l4Dport := ReadBig16(data[2..4]),
                         l4Flags := Some(data[13])),
                    Slice(data, offset, |data|))
    else if proto == PROTO_UDP then
      if |data| < 8 then row
      else
        var length := ReadBig16(data[4..6]);
        Application(row.(l4Proto := UdpDatagram, l4Sport := ReadBig16(data[..2]), l4Dport := ReadBig16(data[2..4])),
                    if length >= 8 then Slice(data, 8, length) else Slice(data, 8, |data|))
    else row.(note := OtherProtocol(proto))
  }

  function Application(row: Row, data: bytes): Row
  {
    row.(payload := data, l7 := ScanOf(data))
  }

  /** None for a packet too short to have a link header. */
  function DissectOf(linktype: int, data: bytes): Option<Row>
  {
    match LinkOf(linktype, data)
    case None => None
    case Some((row, None)) => Some(row)
    case Some((row, Some(rest))) => Some(NetworkOf(row, rest))
  }

  method DissectPacket(linktype: int, packet: bytes) returns (r: Option<Row>)
    ensures r == DissectOf(linktype, packet)
  {
    var row := EMPTY_ROW;
    var data := packet;

    if linktype == LINKTYPE_ETHERNET {
      if |data| < 14 {
        return None;
      }
      row := row.(l2Dst := data[..6], l2Src := data[6..12]);
      var ethertype := ReadBig16(data[12..14]);
      if ethertype != ETHERTYPE_IPV4 {
        row := row.(note := NonIpv4(ethertype));
        return Some(row);
      }
      data := data[14..];
    } else if linktype == LINKTYPE_LOOPBACK {
      data := Slice(data, 4, |data|);
    } else if linktype != LINKTYPE_RAW_IP {
      row := row.(note := UnsupportedLink(linktype));
      return Some(row);
    }

    if |data| < 20 || data[0] / 16 != 4 {
      row := row.(note := NotIpv4);
      return Some(row);
    }
    var ihl := data[0] % 16 * 4;
    var total := ReadBig16(data[2..4]);
    var proto := data[9];
    row := row.(l3Src := data[12..16], l3Dst := data[16..20]);
    data := if total != 0 then Slice(data, ihl, total) else Slice(data, ihl, |data|);

    if proto == PROTO_TCP {
      if |data| < 20 {
        return Some(row);
      }
      var offset := data[12] / 16 * 4;
      row := row.(l4Proto := TcpSegment, l4Sport := ReadBig16(data[..2]), l4Dport := ReadBig16(data[2..4]));
      row := row.(l4Flags := Some(data[13]));
      data := Slice(data, offset, |data|);
    } else if proto == PROTO_UDP {
      if |data| < 8 {
        return Some(row);
      }
      var length := ReadBig16(data[4..6]);
      row := row.(l4Proto := UdpDatagram, l4Sport := ReadBig16(data[..2]), l4Dport := ReadBig16(data[2..4]));
      data := if length >= 8 then Slice(data, 8, length) else Slice(data, 8, |data|);
    } else {
      row := row.(note := OtherProtocol(proto));
      return Some(row);
    }

    var found := TryParseWireline(data);
    row := row.(payload := data, l7 := found);
    r := Some(row);
  }

  // ---- what was built is what is read ----

  /** The header checksum of a built IPv4 packet verifies. */
  lemma Ipv4ChecksumVerifies(src: IpAddr, dst: IpAddr, proto: byte, payload: bytes, ident: uint16)
    requires 20 + |payload| < 0x1_0000
    ensures |Ipv4(src, dst, proto, payload, ident)| == 20 + |payload|
    ensures ChecksumOf(Ipv4(src, dst, proto, payload, ident)[..20]) == 0
  {
    var header := Ipv4Header(src, dst, proto, 20 + |payload|, ident, 0);
    assert header[10] == 0 && header[11] == 0;
    var sealed := header[..10] + Big16(ChecksumOf(header)) + header[12..];
    assert Ipv4(src, dst, proto, payload, ident)[..20] == sealed;
    InsertedChecksumVerifies(header, 10);
  }

  lemma HeaderFields(src: IpAddr, dst: IpAddr, proto: byte, total: uint16, ident: uint16, check: uint16)
    ensures var h := Ipv4Header(src, dst, proto, total, ident, check);
            && h[0] == 0x45 && h[9] == proto
            && h[2..4] == Big16(total) && h[12..16] == src && h[16..20] == dst
  {
  }

  /** The builder seals its header: the field is the only thing the checksum changes. */
  lemma SealedHeader(src: IpAddr, dst: IpAddr, proto: byte, payload: bytes, ident: uint16)
    requires 20 + |payload| < 0x1_0000
    ensures var check := ChecksumOf(Ipv4Header(src, dst, proto, 20 + |payload|, ident, 0));
            Ipv4(src, dst, proto, payload, ident) == Ipv4Header(src, dst, proto, 20 + |payload|, ident, check) + payload
  {
    var total := 20 + |payload|;
    var zeroed := Ipv4Header(src, dst, proto, total, ident, 0);
    var check := ChecksumOf(zeroed);
    assert zeroed[..10] + Big16(check) + zeroed[12..] == Ipv4Header(src, dst, proto, total, ident, check);
  }

  lemma HeaderThenBody(header: bytes, body: bytes, padding: bytes)
    requires |header| == 20
    ensures var data := header + body + padding;
            && data[0] == header[0] && data[9] == header[9]
            && data[2..4] == header[2..4] && data[12..16] == header[12..16] && data[16..20] == header[16..20]
            && Slice(data, 20, 20 + |body|) == body
  {
  }

  /** The network layer of a built packet is read back, whatever padding the link adds. */
  lemma NetworkRoundTrip(row: Row, src: IpAddr, dst: IpAddr, proto: byte, payload: bytes, ident: uint16, padding: bytes)
    requires 20 + |payload| < 0x1_0000
    ensures NetworkOf(row, Ipv4(src, dst, proto, payload, ident) + padding)
         == TransportOf(row.(l3Src := src, l3Dst := dst), proto, payload)
  {
    var total := 20 + |payload|;
    var check := ChecksumOf(Ipv4Header(src, dst, proto, total, ident, 0));
    SealedHeader(src, dst, proto, payload, ident);
    HeaderFields(src, dst, proto, total, ident, check);
    HeaderThenBody(Ipv4Header(src, dst, proto, total, ident, check), payload, padding);
    Big16RoundTrip(total);
  }

  lemma TcpRoundTrip(row: Row, sport: uint16, dport: uint16, seqNo: uint32, ackNo: uint32, flags: byte, payload: bytes)
    ensures TransportOf(row, PROTO_TCP, Tcp(sport, dport, seqNo, ackNo, flags, payload))
         == Application(row.(l4Proto := TcpSegment, l4Sport := sport, l4Dport := dport, l4Flags := Some(flags)), payload)
  {
    var data := Tcp(sport, dport, seqNo, ackNo, flags, payload);
    assert data[..2] == Big16(sport) && data[2..4] == Big16(dport);
    assert data[12] == 0x50 && data[13] == flags;
    Big16RoundTrip(sport);
    Big16RoundTrip(dport);
    assert Slice(data, 20, |data|) == payload;
  }

  lemma UdpRoundTrip(row: Row, sport: uint16, dport: uint16, payload: bytes)
    requires 8 + |payload| < 0x1_0000
    ensures TransportOf(row, PROTO_UDP, Udp(sport, dport, payload))
         == Application(row.(l4Proto := UdpDatagram, l4Sport := sport, l4Dport := dport), payload)
  {
    var data := Udp(sport, dport, payload);
    assert data[..2] == Big16(sport) && data[2..4] == Big16(dport) && data[4..6] == Big16(8 + |payload|);
    Big16RoundTrip(sport);
    Big16RoundTrip(dport);
    Big16RoundTrip(8 + |payload|);
    assert Slice(data, 8, 8 + |payload|) == payload;
  }

  lemma EthernetRoundTrip(src: MacAddr, dst: MacAddr, payload: bytes)
    ensures LinkOf(LINKTYPE_ETHERNET, Ethernet(src, dst, payload))
         == Some((EMPTY_ROW.(l2Dst := dst, l2Src := src), Some(payload)))
  {
    var data := Ethernet(src, dst, payload);
    assert data[..6] == dst && data[6..12] == src && data[12..14] == Big16(ETHERTYPE_IPV4) && data[14..] == payload;
    Big16RoundTrip(ETHERTYPE_IPV4);
  }

  lemma EthernetPadded(src: MacAddr, dst: MacAddr, payload: bytes, padding: bytes)
    ensures Ethernet(src, dst, payload) + padding == Ethernet(src, dst, payload + padding)
  {
  }

  /** A TCP segment built over IPv4 and Ethernet dissects back to its addresses, ports, flags
      and payload; padding behind the packet is not taken for payload. */
  lemma TcpPacketRoundTrip(
    srcMac: MacAddr, dstMac: MacAddr, src: IpAddr, dst: IpAddr, ident: uint16,
    sport: uint16, dport: uint16, seqNo: uint32, ackNo: uint32, flags: byte, payload: bytes, padding: bytes)
    requires 40 + |payload| < 0x1_0000
    ensures var packet := Ethernet(srcMac, dstMac, Ipv4(src, dst, PROTO_TCP, Tcp(sport, dport, seqNo, ackNo, flags, payload), ident));
            DissectOf(LINKTYPE_ETHERNET, packet + padding) ==
              Some(Row(srcMac, dstMac, src, dst, TcpSegment, sport, dport, Some(flags), payload, ScanOf(payload), NoNote))
  {
    var segment := Tcp(sport, dport, seqNo, ackNo, flags, payload);
    var ip := Ipv4(src, dst, PROTO_TCP, segment, ident);
    EthernetPadded(srcMac, dstMac, ip, padding);
    EthernetRoundTrip(srcMac, dstMac, ip + padding);
    var row := EMPTY_ROW.(l2Dst := dstMac, l2Src := srcMac);
    NetworkRoundTrip(row, src, dst, PROTO_TCP, segment, ident, padding);
    TcpRoundTrip(row.(l3Src := src, l3Dst := dst), sport, dport, seqNo, ackNo, flags, payload);
  }

  lemma UdpPacketRoundTrip(
    srcMac: MacAddr, dstMac: MacAddr, src: IpAddr, dst: IpAddr, ident: uint16,
    sport: uint16, dport: uint16, payload: bytes, padding: bytes)
    requires 28 + |payload| < 0x1_0000
    ensures var packet := Ethernet(srcMac, dstMac, Ipv4(src, dst, PROTO_UDP, Udp(sport, dport, payload), ident));
            DissectOf(LINKTYPE_ETHERNET, packet + padding) ==
              Some(Row(srcMac, dstMac, src, dst, UdpDatagram, sport, dport, None, payload, ScanOf(payload), NoNote))
  {
    var datagram := Udp(sport, dport, payload);
    var ip := Ipv4(src, dst, PROTO_UDP, datagram, ident);
    EthernetPadded(srcMac, dstMac, ip, padding);
    EthernetRoundTrip(srcMac, dstMac, ip + padding);
    var row := EMPTY_ROW.(l2Dst := dstMac, l2Src := srcMac);
    NetworkRoundTrip(row, src, dst, PROTO_UDP, datagram, ident, padding);
    UdpRoundTrip(row.(l3Src := src, l3Dst := dst), sport, dport, payload);
  }

  // ---- the builders, byte by byte ----

  lemma OtherFields(src: IpAddr, dst: IpAddr, proto: byte, total: uint16, ident: uint16, check: uint16)
    ensures var h := Ipv4Header(src, dst, proto, total, ident, check);
            h[1] == 0 && h[4..6] == Big16(ident) && h[6..8] == Big16(0) && h[8] == 64
  {
    var h := Ipv4Header(src, dst, proto, total, ident, check);
    assert h[4] == Big16(ident)[0] && h[5] == Big16(ident)[1];
    assert h[6] == Big16(0)[0] && h[7] == Big16(0)[1];
  }

  lemma HeaderThenAnything(src: IpAddr, dst: IpAddr, proto: byte, total: uint16, ident: uint16, check: uint16, body: bytes)
    ensures var p := Ipv4Header(src, dst, proto, total, ident, check) + body;
            && p[0] == 0x45 && p[1] == 0 && p[2..4] == Big16(total) && p[4..6] == Big16(ident) && p[6..8] == Big16(0)
            && p[8] == 64 && p[9] == proto && p[12..16] == src && p[16..20] == dst && p[20..] == body
  {
    var h := Ipv4Header(src, dst, proto, total, ident, check);
    var p := h + body;
    HeaderFields(src, dst, proto, total, ident, check);
    OtherFields(src, dst, proto, total, ident, check);
    assert p[2..4] == h[2..4] && p[4..6] == h[4..6] && p[6..8] == h[6..8];
    assert p[12..16] == h[12..16] && p[16..20] == h[16..20];
  }

  /** The IPv4 header of section 3.1 of RFC 791 as built here: no options, no fragments, 64 hops. */
  lemma Ipv4Layout(src: IpAddr, dst: IpAddr, proto: byte, payload: bytes, ident: uint16)
    requires 20 + |payload| < 0x1_0000
    ensures var p := Ipv4(src, dst, proto, payload, ident);
            && p[0] == 0x45 && p[1] == 0 && BigEndian(p[2..4]) == |p| && BigEndian(p[4..6]) == ident
            && BigEndian(p[6..8]) == 0 && p[8] == 64 && p[9] == proto
            && p[12..16] == src && p[16..20] == dst && p[20..] == payload
  {
    var total := 20 + |payload|;
    var check := ChecksumOf(Ipv4Header(src, dst, proto, total, ident, 0));
    SealedHeader(src, dst, proto, payload, ident);
    HeaderThenAnything(src, dst, proto, total, ident, check, payload);
    BigEndianOf16(total);
    BigEndianOf16(ident);
    BigEndianOf16(0);
  }

  lemma BigEndianOf16(n: uint16)
    ensures BigEndian(Big16(n)) == n
  {
    BigEndianTwo(Big16(n));
    Big16RoundTrip(n);
  }

  lemma BigEndianOf32(n: uint32)
    ensures BigEndian(Big32(n)) == n
  {
    BigEndianFour(Big32(n));
    Big32RoundTrip(n);
  }

  /** The TCP header of section 3.1 of RFC 9293 as built here: no options, full window. */
  lemma TcpLayout(sport: uint16, dport: uint16, seqNo: uint32, ackNo: uint32, flags: byte, payload: bytes)
    ensures var p := Tcp(sport, dport, seqNo, ackNo, flags, payload);
            && BigEndian(p[..2]) == sport && BigEndian(p[2..4]) == dport
            && BigEndian(p[4..8]) == seqNo && BigEndian(p[8..12]) == ackNo
            && p[12] == 0x50 && p[13] == flags && BigEndian(p[14..16]) == 0xFFFF
            && BigEndian(p[16..18]) == 0 && BigEndian(p[18..20]) == 0 && p[20..] == payload
  {
    var p := Tcp(sport, dport, seqNo, ackNo, flags, payload);
    assert p[..2] == Big16(sport) && p[2..4] == Big16(dport) && p[4..8] == Big32(seqNo) && p[8..12] == Big32(ackNo);
    assert p[14..16] == Big16(0xFFFF) && p[16..18] == Big16(0) && p[18..20] == Big16(0);
    BigEndianOf16(sport);
    BigEndianOf16(dport);
    BigEndianOf32(seqNo);
    BigEndianOf32(ackNo);
    BigEndianOf16(0xFFFF);
    BigEndianOf16(0);
  }

  /** The UDP header of RFC 768 as built here, without a checksum. */
  lemma UdpLayout(sport: uint16, dport: uint16, payload: bytes)
    requires 8 + |payload| < 0x1_0000
    ensures var p := Udp(sport, dport, payload);
            && BigEndian(p[..2]) == sport && BigEndian(p[2..4]) == dport
            && BigEndian(p[4..6]) == |p| && BigEndian(p[6..8]) == 0 && p[8..] == payload
  {
    var p := Udp(sport, dport, payload);
    assert p[..2] == Big16(sport) && p[2..4] == Big16(dport) && p[4..6] == Big16(|p|) && p[6..8] == Big16(0);
    BigEndianOf16(sport);
    BigEndianOf16(dport);
    BigEndianOf16(|p|);
    BigEndianOf16(0);
  }

  lemma EthernetLayout(src: MacAddr, dst: MacAddr, payload: bytes)
    ensures Ethernet(src, dst, payload) == dst + src + [8, 0] + payload
  {
  }

  // ---- packets from other machines ----

  /** A TCP segment with options: the data offset counts the header in words of four bytes. */
  function TcpWith(sport: uint16, dport: uint16, numbers: bytes, low: byte, flags: byte, rest: bytes, options: bytes, payload: bytes): bytes
    requires |numbers| == 8 && |rest| == 6 && low < 16 && |options| % 4 == 0 && |options| <= 40
  {
    Big16(sport) + Big16(dport) + numbers + [(5 + |options| / 4) * 16 + low, flags] + rest + options + payload
  }

  lemma TcpFields(sport: uint16, dport: uint16, numbers: bytes, low: byte, flags: byte, rest: bytes, options: bytes, payload: bytes)
    requires |numbers| == 8 && |rest| == 6 && low < 16 && |options| % 4 == 0 && |options| <= 40
    ensures var data := TcpWith(sport, dport, numbers, low, flags, rest, options, payload);
            && |data| == 20 + |options| + |payload|
            && data[..2] == Big16(sport) && data[2..4] == Big16(dport)
            && data[12] == (5 + |options| / 4) * 16 + low && data[13] == flags
            && data[20 + |options|..] == payload
  {
  }

  lemma NibbleOf(words: nat, low: byte)
    requires words < 16 && low < 16
    ensures (words * 16 + low) / 16 == words && (words * 16 + low) % 16 == low
  {
  }

  /** What a TCP header of any length reads as. */
  lemma TcpReads(row: Row, data: bytes, sport: uint16, dport: uint16, start: nat, flags: byte, payload: bytes)
    requires 20 <= start <= |data| && data[start..] == payload
    requires data[..2] == Big16(sport) && data[2..4] == Big16(dport) && data[12] / 16 * 4 == start && data[13] == flags
    ensures TransportOf(row, 6, data)
         == row.(l4Proto := TcpSegment, l4Sport := sport, l4Dport := dport, l4Flags := Some(flags),
                 payload := payload, l7 := ScanOf(payload))
  {
    Big16RoundTrip(sport);
    Big16RoundTrip(dport);
    assert Slice(data, start, |data|) == payload;
  }

  /** The payload starts behind the options, wherever that is. */
  lemma TcpOptionsAreSkipped(row: Row, sport: uint16, dport: uint16, numbers: bytes, low: byte, flags: byte, rest: bytes, options: bytes, payload: bytes)
    requires |numbers| == 8 && |rest| == 6 && low < 16 && |options| % 4 == 0 && |options| <= 40
    ensures TransportOf(row, 6, TcpWith(sport, dport, numbers, low, flags, rest, options, payload))
         == row.(l4Proto := TcpSegment, l4Sport := sport, l4Dport := dport, l4Flags := Some(flags),
                 payload := payload, l7 := ScanOf(payload))
  {
    var data := TcpWith(sport, dport, numbers, low, flags, rest, options, payload);
    TcpFields(sport, dport, numbers, low, flags, rest, options, payload);
    NibbleOf(5 + |options| / 4, low);
    TcpReads(row, data, sport, dport, 20 + |options|, flags, payload);
  }

  /** For any data offset, also one inside the fixed header or past the end: the payload is what
      lies behind it. */
  lemma TcpPayloadStart(row: Row, data: bytes)
    requires |data| >= 20
    ensures var start := data[12] / 16 * 4;
            TransportOf(row, 6, data).payload == if start <= |data| then data[start..] else []
  {
    var start := data[12] / 16 * 4;
    assert start < |data| ==> Slice(data, start, |data|) == data[start..];
  }

  lemma SliceOfTail(data: bytes, start: nat, body: bytes, excess: bytes, total: nat)
    requires 0 < start <= |data| && data[start..] == body + excess
    requires total == start + |body| || (excess == [] && (total == 0 || total > start + |body|))
    ensures (if total != 0 then Slice(data, start, total) else Slice(data, start, |data|)) == body
  {
    var to := if total != 0 && total < |data| then total else |data|;
    assert |data| == start + |body| + |excess| && to == start + |body|;
    assert data[start..to] == data[start..][..|body|] == body;
  }

  function UdpWith(sport: uint16, dport: uint16, length: uint16, check: bytes, body: bytes): bytes
    requires |check| == 2
  {
    Big16(sport) + Big16(dport) + Big16(length) + check + body
  }

  lemma UdpFields(sport: uint16, dport: uint16, length: uint16, check: bytes, body: bytes)
    requires |check| == 2
    ensures var data := UdpWith(sport, dport, length, check, body);
            && |data| == 8 + |body| && data[8..] == body
            && data[..2] == Big16(sport) && data[2..4] == Big16(dport) && data[4..6] == Big16(length)
  {
  }

  /** A UDP datagram as captured. A length field of less than 8, or one that promises more than
      was captured, gives everything behind the header; otherwise what exceeds it is cut. */
  lemma UdpLengthIsObeyed(row: Row, sport: uint16, dport: uint16, length: uint16, check: bytes, payload: bytes, excess: bytes)
    requires |check| == 2
    requires length == 8 + |payload| || (excess == [] && (length < 8 || length > 8 + |payload|))
    ensures TransportOf(row, 17, UdpWith(sport, dport, length, check, payload + excess))
         == row.(l4Proto := UdpDatagram, l4Sport := sport, l4Dport := dport, payload := payload, l7 := ScanOf(payload))
  {
    var data := UdpWith(sport, dport, length, check, payload + excess);
    UdpFields(sport, dport, length, check, payload + excess);
    Big16RoundTrip(sport);
    Big16RoundTrip(dport);
    Big16RoundTrip(length);
    SliceOfTail(data, 8, payload, excess, if length >= 8 then length else 0);
  }

  /** Too little for a transport header leaves the row as it is, and another protocol is noted. */
  lemma NoTransportHeader(row: Row, proto: byte, data: bytes)
    ensures proto == 6 && |data| < 20 ==> TransportOf(row, proto, data) == row
    ensures proto == 17 && |data| < 8 ==> TransportOf(row, proto, data) == row
    ensures proto != 6 && proto != 17 ==> TransportOf(row, proto, data) == row.(note := OtherProtocol(proto))
  {
  }

  /** An IPv4 packet with options: the header length counts words of four bytes. */
  function Ipv4With(tos: byte, total: uint16, middle: bytes, proto: byte, check: bytes, src: IpAddr, dst: IpAddr, options: bytes, body: bytes): bytes
    requires |middle| == 5 && |check| == 2 && |options| % 4 == 0 && |options| <= 40
  {
    [0x45 + |options| / 4, tos] + Big16(total) + middle + [proto] + check + src + dst + options + body
  }

  lemma Ipv4Fields(tos: byte, total: uint16, middle: bytes, proto: byte, check: bytes, src: IpAddr, dst: IpAddr, options: bytes, body: bytes)
    requires |middle| == 5 && |check| == 2 && |options| % 4 == 0 && |options| <= 40
    ensures var data := Ipv4With(tos, total, middle, proto, check, src, dst, options, body);
            && |data| == 20 + |options| + |body|
            && data[0] == 0x45 + |options| / 4 && data[2..4] == Big16(total) && data[9] == proto
            && data[12..16] == src && data[16..20] == dst && data[20 + |options|..] == body
  {
  }

  /** The body starts behind the options. A total length of zero, which offloading leaves, or one
      that promises more than was captured, gives everything there; otherwise what exceeds it,
      such as link padding, is cut. */
  lemma Ipv4LengthsAreObeyed(row: Row, tos: byte, total: uint16, middle: bytes, proto: byte, check: bytes, src: IpAddr, dst: IpAddr,
                             options: bytes, body: bytes, excess: bytes)
    requires |middle| == 5 && |check| == 2 && |options| % 4 == 0 && |options| <= 40
    requires total == 20 + |options| + |body| || (excess == [] && (total == 0 || total > 20 + |options| + |body|))
    ensures NetworkOf(row, Ipv4With(tos, total, middle, proto, check, src, dst, options, body + excess))
         == TransportOf(row.(l3Src := src, l3Dst := dst), proto, body)
  {
    var data, start := Ipv4With(tos, total, middle, proto, check, src, dst, options, body + excess), 20 + |options|;
    Ipv4Fields(tos, total, middle, proto, check, src, dst, options, body + excess);
    NibbleOf(4, 5 + |options| / 4);
    Big16RoundTrip(total);
    SliceOfTail(data, start, body, excess, total);
  }

  /** What is not IPv4 is noted and not looked into. */
  lemma NotIpv4IsNoted(row: Row, data: bytes)
    requires |data| < 20 || data[0] < 0x40 || data[0] > 0x4F
    ensures NetworkOf(row, data) == row.(note := NotIpv4)
  {
  }

  /** The link layers: Ethernet with its two addresses and type, a raw IP packet, a loopback packet
      behind any four bytes of address family, and everything else. */
  lemma LinkLayers(src: MacAddr, dst: MacAddr, ethertype: uint16, family: bytes, data: bytes, linktype: int)
    requires |family| == 4
    ensures DissectOf(1, dst + src + Big16(ethertype) + data) ==
              var row := EMPTY_ROW.(l2Src := src, l2Dst := dst);
              Some(if ethertype == 0x0800 then NetworkOf(row, data) else row.(note := NonIpv4(ethertype)))
    ensures |data| < 14 ==> DissectOf(1, data).None?
    ensures DissectOf(101, data) == Some(NetworkOf(EMPTY_ROW, data))
    ensures DissectOf(0, family + data) == Some(NetworkOf(EMPTY_ROW, data))
    ensures linktype != 0 && linktype != 1 && linktype != 101 ==>
              DissectOf(linktype, data) == Some(EMPTY_ROW.(note := UnsupportedLink(linktype)))
  {
    var packet := dst + src + Big16(ethertype) + data;
    assert packet[..6] == dst && packet[6..12] == src && packet[12..14] == Big16(ethertype) && packet[14..] == data;
    Big16RoundTrip(ethertype);
    assert Slice(family + data, 4, |family + data|) == data;
  }

  /** A TCP segment with any options, in an IPv4 packet with any options, over each link layer:
      addresses, ports, flags and the exact payload. */
  lemma TcpPacketWithOptions(
    srcMac: MacAddr, dstMac: MacAddr, family: bytes,
    tos: byte, total: uint16, middle: bytes, check: bytes, src: IpAddr, dst: IpAddr, ipOptions: bytes,
    sport: uint16, dport: uint16, numbers: bytes, low: byte, flags: byte, rest: bytes, options: bytes, payload: bytes, excess: bytes)
    requires |family| == 4
    requires |middle| == 5 && |check| == 2 && |ipOptions| % 4 == 0 && |ipOptions| <= 40
    requires |numbers| == 8 && |rest| == 6 && low < 16 && |options| % 4 == 0 && |options| <= 40
    requires total == 20 + |ipOptions| + 20 + |options| + |payload|
    ensures var segment := TcpWith(sport, dport, numbers, low, flags, rest, options, payload);
            var packet := Ipv4With(tos, total, middle, PROTO_TCP, check, src, dst, ipOptions, segment + excess);
            var row := Row([], [], src, dst, TcpSegment, sport, dport, Some(flags), payload, ScanOf(payload), NoNote);
            && DissectOf(101, packet) == Some(row)
            && DissectOf(0, family + packet) == Some(row)
            && DissectOf(1, dstMac + srcMac + Big16(0x0800) + packet) == Some(row.(l2Src := srcMac, l2Dst := dstMac))
  {
    var segment := TcpWith(sport, dport, numbers, low, flags, rest, options, payload);
    var packet := Ipv4With(tos, total, middle, PROTO_TCP, check, src, dst, ipOptions, segment + excess);
    var row := EMPTY_ROW.(l2Src := srcMac, l2Dst := dstMac);
    TcpFields(sport, dport, numbers, low, flags, rest, options, payload);
    LinkLayers(srcMac, dstMac, 0x0800, family, packet, 0);
    Ipv4LengthsAreObeyed(EMPTY_ROW, tos, total, middle, PROTO_TCP, check, src, dst, ipOptions, segment, excess);
    Ipv4LengthsAreObeyed(row, tos, total, middle, PROTO_TCP, check, src, dst, ipOptions, segment, excess);
    TcpOptionsAreSkipped(EMPTY_ROW.(l3Src := src, l3Dst := dst), sport, dport, numbers, low, flags, rest, options, payload);
    TcpOptionsAreSkipped(row.(l3Src := src, l3Dst := dst), sport, dport, numbers, low, flags, rest, options, payload);
  }
}
