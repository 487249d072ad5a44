/** Ethernet/IPv4/TCP/UDP frames of src/network/network.cpp: what the relay
    emits, what it decodes, and that one undoes the other. */
module FrameCodec {
  import opened Bytes
  import opened InternetChecksum

  const ETH_LEN := 14
  const IP_LEN := 20
  const TCP_LEN := 20
  const UDP_LEN := 8
  const FRAME_MAX := 2048

  const ETYPE_IP := 0x0800
  const ETYPE_ARP := 0x0806
  const IP_TCP: byte := 6
  const IP_UDP: byte := 17

  type mac = m: seq<byte> | |m| == 6 witness Zeros(6)

  // ----- decoding -----

  /** What `handle_frame` makes of a frame. `Overread` is a frame whose IP total
      length runs past the captured bytes, where the code would read beyond it. */
  datatype Decoded =
    | Ignored
    | Arp(from: mac, body: seq<byte>)
    | Ip4(from: mac, proto: byte, src: uint32, dst: uint32, payload: seq<byte>)
    | Overread

  function DecodeFrame(frame: seq<byte>): Decoded {
    if |frame| < ETH_LEN then Ignored else
    var body := frame[ETH_LEN..];
    var etype := ReadBe16(frame, 12);
    if etype == ETYPE_ARP then Arp(frame[6..12], body)
    else if etype != ETYPE_IP || |body| < IP_LEN then Ignored
    else
      var ihl := body[0] % 16 * 4;
      var ipLen := ReadBe16(body, 2);
      if |body| < ihl || ipLen < ihl then Ignored
      else if ipLen > |body| then Overread
      else Ip4(frame[6..12], body[9], ReadBe32(body, 12), ReadBe32(body, 16), body[ihl..ipLen])
  }

  datatype TcpSegment =
    TcpSegment(sport: uint16, dport: uint16, seqno: uint32, ackno: uint32, flags: byte, data: seq<byte>)

  datatype UdpDatagram = UdpDatagram(sport: uint16, dport: uint16, data: seq<byte>)

  function DecodeTcp(p: seq<byte>): Option<TcpSegment> {
    if |p| < TCP_LEN then None else
    var hlen := p[12] / 16 * 4;
    Some(TcpSegment(ReadBe16(p, 0), ReadBe16(p, 2), ReadBe32(p, 4), ReadBe32(p, 8), p[13],
                    if |p| > hlen then p[hlen..] else []))
  }

  function DecodeUdp(p: seq<byte>): Option<UdpDatagram> {
    if |p| < UDP_LEN then None
    else Some(UdpDatagram(ReadBe16(p, 0), ReadBe16(p, 2), p[UDP_LEN..]))
  }

  // ----- wire format -----

  function EthHeader(dst: mac, src: mac): (b: seq<byte>)
    ensures |b| == ETH_LEN
  {
    dst + src + Be16(ETYPE_IP)
  }

  function IpHeaderZeroed(total: uint16, proto: byte, sip: uint32, dip: uint32): (b: seq<byte>)
    ensures |b| == IP_LEN
  {
    [0x45, 0] + Be16(total) + [0, 0, 0, 0, 64, proto, 0, 0] + Be32(sip) + Be32(dip)
  }

  function IpHeader(total: uint16, proto: byte, sip: uint32, dip: uint32): (b: seq<byte>)
    ensures |b| == IP_LEN
  {
    var z := IpHeaderZeroed(total, proto, sip, dip);
    Splice(z, 10, Le16(Rfc1071(z)))
  }

  function TcpZeroed(s: TcpSegment): (b: seq<byte>)
    ensures |b| == TCP_LEN + |s.data|
  {
    Be16(s.sport) + Be16(s.dport) + Be32(s.seqno) + Be32(s.ackno)
    + [0x50, s.flags] + Be16(65535) + [0, 0, 0, 0] + s.data
  }

  function UdpZeroed(d: UdpDatagram): (b: seq<byte>)
    requires UDP_LEN + |d.data| < TWO_16
    ensures |b| == UDP_LEN + |d.data|
  {
    Be16(d.sport) + Be16(d.dport) + Be16(UDP_LEN + |d.data|) + [0, 0] + d.data
  }

  /** The segment with its transport checksum stored, in host order, at `at`. */
  function Checksummed(sip: uint32, dip: uint32, proto: byte, z: seq<byte>, at: nat): (b: seq<byte>)
    requires |z| < TWO_16 && at + 2 <= |z|
    ensures |b| == |z|
  {
    Splice(z, at, Le16(NonZero(proto, Rfc1071(PseudoHeader(sip, dip, proto, |z|) + z))))
  }

  /** RFC 768: a UDP checksum computed as zero is sent as all ones. */
  function NonZero(proto: byte, c: uint16): uint16 {
    if proto == IP_UDP && c == 0 then 0xffff else c
  }

  function IpFrame(dst: mac, src: mac, sip: uint32, dip: uint32, proto: byte, payload: seq<byte>): seq<byte>
    requires IP_LEN + |payload| < TWO_16
  {
    EthHeader(dst, src) + IpHeader(IP_LEN + |payload|, proto, sip, dip) + payload
  }

  predicate FitsTcp(s: TcpSegment) {
    ETH_LEN + IP_LEN + TCP_LEN + |s.data| <= FRAME_MAX
  }

  predicate FitsUdp(d: UdpDatagram) {
    |d.data| <= 1500
  }

  function TcpFrame(dst: mac, src: mac, sip: uint32, dip: uint32, s: TcpSegment): seq<byte>
    requires FitsTcp(s)
  {
    IpFrame(dst, src, sip, dip, IP_TCP, Checksummed(sip, dip, IP_TCP, TcpZeroed(s), 16))
  }

  function UdpFrame(dst: mac, src: mac, sip: uint32, dip: uint32, d: UdpDatagram): seq<byte>
    requires FitsUdp(d)
  {
    IpFrame(dst, src, sip, dip, IP_UDP, Checksummed(sip, dip, IP_UDP, UdpZeroed(d), 6))
  }

  // ----- encoding, in place -----

  /** Both headers, the IP checksum computed where the header lies. */
  method PutHeaders(buf: array<byte>, dst: mac, src: mac, total: uint16, proto: byte, sip: uint32, dip: uint32)
    requires buf.Length >= ETH_LEN + IP_LEN
    modifies buf
    ensures buf[..ETH_LEN + IP_LEN] == EthHeader(dst, src) + IpHeader(total, proto, sip, dip)
  {
    hide IpHeaderZeroed, EthHeader, Rfc1071, Le16, Splice;
    CopyInto(buf, 0, EthHeader(dst, src));
    CopyInto(buf, ETH_LEN, IpHeaderZeroed(total, proto, sip, dip));
    var ck := IpCksum(buf, ETH_LEN, IP_LEN);
    SpliceWithin(buf[..], ETH_LEN, ETH_LEN + IP_LEN, ETH_LEN + 10, Le16(ck));
    CopyInto(buf, ETH_LEN + 10, Le16(ck));
    assert buf[ETH_LEN..ETH_LEN + IP_LEN] == IpHeader(total, proto, sip, dip);
    assert buf[0..ETH_LEN] == EthHeader(dst, src);
    assert buf[..ETH_LEN + IP_LEN] == buf[0..ETH_LEN] + buf[ETH_LEN..ETH_LEN + IP_LEN];
  }

  /** Lays out both headers in a frame buffer, appends the payload, and hands the used part to
      the guest. */
  method EmitIp(dst: mac, src: mac, sip: uint32, dip: uint32, proto: byte, payload: array<byte>, plen: nat)
    returns (frame: seq<byte>)
    requires plen <= payload.Length && ETH_LEN + IP_LEN + plen <= FRAME_MAX
    ensures frame == IpFrame(dst, src, sip, dip, proto, payload[..plen])
  {
    hide IpHeader, EthHeader, Splice;
    var total := IP_LEN + plen;
    var buf := new byte[FRAME_MAX];
    PutHeaders(buf, dst, src, total, proto, sip, dip);
    ghost var headers := buf[0..ETH_LEN + IP_LEN];
    CopyInto(buf, ETH_LEN + IP_LEN, payload[..plen]);
    assert buf[0..ETH_LEN + IP_LEN] == headers;
    frame := buf[..ETH_LEN + total];
    assert frame == buf[0..ETH_LEN + IP_LEN] + buf[ETH_LEN + IP_LEN..ETH_LEN + total];
  }

  method SendTcp(dst: mac, src: mac, sip: uint32, dip: uint32, s: TcpSegment) returns (frame: seq<byte>)
    requires FitsTcp(s)
    ensures frame == TcpFrame(dst, src, sip, dip, s)
  {
    var len := TCP_LEN + |s.data|;
    var seg := new byte[TCP_LEN + 8192];
    CopyInto(seg, 0, TcpZeroed(s));
    assert seg[..len] == TcpZeroed(s);
    var ck := TransportCksum(sip, dip, IP_TCP, seg, len);
    SplicePrefix(seg[..], 16, Le16(ck), len);
    CopyInto(seg, 16, Le16(ck));
    assert seg[..len] == Checksummed(sip, dip, IP_TCP, TcpZeroed(s), 16);
    frame := EmitIp(dst, src, sip, dip, IP_TCP, seg, len);
  }

  method SendUdp(dst: mac, src: mac, sip: uint32, dip: uint32, d: UdpDatagram) returns (frame: seq<byte>)
    requires FitsUdp(d)
    ensures frame == UdpFrame(dst, src, sip, dip, d)
  {
    var len := UDP_LEN + |d.data|;
    var seg := new byte[UDP_LEN + 1500];
    CopyInto(seg, 0, UdpZeroed(d));
    assert seg[..len] == UdpZeroed(d);
    var ck := TransportCksum(sip, dip, IP_UDP, seg, len);
    if ck == 0 {
      ck := 0xffff;
    }
    SplicePrefix(seg[..], 6, Le16(ck), len);
    CopyInto(seg, 6, Le16(ck));
    assert seg[..len] == Checksummed(sip, dip, IP_UDP, UdpZeroed(d), 6);
    frame := EmitIp(dst, src, sip, dip, IP_UDP, seg, len);
  }

  // ----- emitted frames, byte by byte -----

  /** `f` holds exactly `d` at `at`. */
  predicate Holds(f: seq<byte>, at: nat, d: seq<byte>) {
    at + |d| <= |f| && f[at..at + |d|] == d
  }

  /** Ethernet II and IPv4 (RFC 791): version 4 with 5 words, unfragmented, TTL 64. */
  predicate IpLaid(f: seq<byte>, dst: mac, src: mac, sip: uint32, dip: uint32, proto: byte) {
    && 34 <= |f| < TWO_16
    && Holds(f, 0, dst) && Holds(f, 6, src) && Holds(f, 12, [0x08, 0x00])
    && Holds(f, 14, [0x45, 0]) && Holds(f, 16, Be16(|f| - 14)) && Holds(f, 18, [0, 0, 0, 0])
    && Holds(f, 22, [64, proto]) && Holds(f, 26, Be32(sip)) && Holds(f, 30, Be32(dip))
  }

  lemma IpLayout(dst: mac, src: mac, sip: uint32, dip: uint32, proto: byte, payload: seq<byte>)
    requires 34 + |payload| < TWO_16
    ensures var f := IpFrame(dst, src, sip, dip, proto, payload);
            |f| == 34 + |payload| && IpLaid(f, dst, src, sip, dip, proto) && Holds(f, 34, payload)
  {
    hide Rfc1071, Be16, Be32, Le16;
    EtypeBytes();
    var f, h := IpFrame(dst, src, sip, dip, proto, payload), IpHeader(20 + |payload|, proto, sip, dip);
    assert f[..14] == dst + src + Be16(ETYPE_IP) && f[14..34] == h && f[34..] == payload;
    HeaderBytes(20 + |payload|, proto, sip, dip);
    SlicesOf(f, 14, 34);
  }

  lemma EtypeBytes()
    ensures Be16(ETYPE_IP) == [0x08, 0x00]
  {}

  lemma HeaderBytes(total: uint16, proto: byte, sip: uint32, dip: uint32)
    ensures var h := IpHeader(total, proto, sip, dip);
            Holds(h, 0, [0x45, 0]) && Holds(h, 2, Be16(total)) && Holds(h, 4, [0, 0, 0, 0]) && Holds(h, 8, [64, proto])
            && Holds(h, 12, Be32(sip)) && Holds(h, 16, Be32(dip))
  {
    hide Rfc1071, Be16, Be32, Le16;
  }

  lemma SlicesOf(f: seq<byte>, lo: nat, hi: nat)
    requires lo <= hi <= |f|
    ensures forall at: nat, d: seq<byte> :: Holds(f[lo..hi], at, d) ==> Holds(f, lo + at, d)
  {
    forall at: nat, d: seq<byte> | Holds(f[lo..hi], at, d)
      ensures Holds(f, lo + at, d)
    {
      SliceOfSlice(f, lo, hi, at, at + |d|);
    }
  }

  /** An emitted TCP frame (RFC 9293): header of 5 words, full window, urgent pointer zero. */
  lemma TcpLayout(dst: mac, src: mac, sip: uint32, dip: uint32, s: TcpSegment)
    requires FitsTcp(s)
    ensures var f := TcpFrame(dst, src, sip, dip, s);
            && |f| == 54 + |s.data| && IpLaid(f, dst, src, sip, dip, 6)
            && Holds(f, 34, Be16(s.sport)) && Holds(f, 36, Be16(s.dport))
            && Holds(f, 38, Be32(s.seqno)) && Holds(f, 42, Be32(s.ackno))
            && Holds(f, 46, [0x50, s.flags]) && Holds(f, 48, [0xff, 0xff]) && Holds(f, 52, [0, 0])
            && Holds(f, 54, s.data)
  {
    var z := TcpZeroed(s);
    var p := Checksummed(sip, dip, IP_TCP, z, 16);
    var f := TcpFrame(dst, src, sip, dip, s);
    IpLayout(dst, src, sip, dip, IP_TCP, p);
    TcpBytes(s);
    FieldStored(z, p, 16);
    hide IpFrame, Checksummed, TcpZeroed, IpLaid, Be16, Be32;
    assert f[34..|f|] == p;
    SlicesOf(f, 34, |f|);
  }

  lemma TcpBytes(s: TcpSegment)
    ensures var z := TcpZeroed(s);
            && Holds(z, 0, Be16(s.sport)) && Holds(z, 2, Be16(s.dport)) && Holds(z, 4, Be32(s.seqno))
            && Holds(z, 8, Be32(s.ackno)) && Holds(z, 12, [0x50, s.flags]) && Holds(z, 14, [0xff, 0xff])
            && Holds(z, 18, [0, 0]) && Holds(z, 20, s.data)
  {
    assert Be16(65535) == [0xff, 0xff];
    hide Be16, Be32;
  }

  /** Storing two bytes at `at` leaves what lies before or behind. */
  lemma FieldStored(z: seq<byte>, p: seq<byte>, at: nat)
    requires |p| == |z| && at + 2 <= |z| && p[..at] == z[..at] && p[at + 2..] == z[at + 2..]
    ensures forall i: nat, d: seq<byte> :: Holds(z, i, d) && (i + |d| <= at || at + 2 <= i) ==> Holds(p, i, d)
  {
    forall i: nat, d: seq<byte> | Holds(z, i, d) && (i + |d| <= at || at + 2 <= i)
      ensures Holds(p, i, d)
    {
      if i + |d| <= at {
        assert p[i..i + |d|] == p[..at][i..i + |d|] == z[..at][i..i + |d|];
      } else {
        var j := i - at - 2;
        SliceOfSlice(p, at + 2, |p|, j, j + |d|);
        SliceOfSlice(z, at + 2, |z|, j, j + |d|);
        assert p[at + 2..|p|] == p[at + 2..] && z[at + 2..|z|] == z[at + 2..];
      }
    }
  }

  /** An emitted UDP frame (RFC 768). */
  lemma UdpLayout(dst: mac, src: mac, sip: uint32, dip: uint32, d: UdpDatagram)
    requires FitsUdp(d)
    ensures var f := UdpFrame(dst, src, sip, dip, d);
            && |f| == 42 + |d.data| && IpLaid(f, dst, src, sip, dip, 17)
            && Holds(f, 34, Be16(d.sport)) && Holds(f, 36, Be16(d.dport)) && Holds(f, 38, Be16(8 + |d.data|))
            && Holds(f, 42, d.data)
  {
    var z := UdpZeroed(d);
    var p := Checksummed(sip, dip, IP_UDP, z, 6);
    var f := UdpFrame(dst, src, sip, dip, d);
    IpLayout(dst, src, sip, dip, IP_UDP, p);
    UdpBytes(d);
    FieldStored(z, p, 6);
    hide IpFrame, Checksummed, UdpZeroed, IpLaid, Be16;
    assert f[34..|f|] == p;
    SlicesOf(f, 34, |f|);
  }

  lemma UdpBytes(d: UdpDatagram)
    requires FitsUdp(d)
    ensures var z := UdpZeroed(d);
            && Holds(z, 0, Be16(d.sport)) && Holds(z, 2, Be16(d.dport)) && Holds(z, 4, Be16(8 + |d.data|))
            && Holds(z, 8, d.data)
  {
    hide Be16;
  }

  // ----- decoding undoes encoding -----

  lemma HeaderFields(total: uint16, proto: byte, sip: uint32, dip: uint32)
    ensures var h := IpHeader(total, proto, sip, dip);
            h[0] == 0x45 && h[2..4] == Be16(total) && h[9] == proto && h[12..16] == Be32(sip) && h[16..20] == Be32(dip)
  {
    hide Rfc1071, Be16, Be32, Le16;
  }

  lemma IpRoundTrip(dst: mac, src: mac, sip: uint32, dip: uint32, proto: byte, payload: seq<byte>)
    requires IP_LEN + |payload| < TWO_16
    ensures DecodeFrame(IpFrame(dst, src, sip, dip, proto, payload)) == Ip4(src, proto, sip, dip, payload)
  {
    hide IpHeader, Be16, Be32, ReadBe16, ReadBe32;
    var frame := IpFrame(dst, src, sip, dip, proto, payload);
    var total := IP_LEN + |payload|;
    HeaderFields(total, proto, sip, dip);
    var header := IpHeader(total, proto, sip, dip);
    var body := frame[ETH_LEN..];
    assert frame[6..12] == src;
    assert frame[12..14] == Be16(ETYPE_IP);
    ReadBe16Inverse(frame, 12, ETYPE_IP);
    assert body == header + payload;
    assert body[2..4] == header[2..4] == Be16(total);
    ReadBe16Inverse(body, 2, total);
    assert body[12..16] == header[12..16] == Be32(sip);
    ReadBe32Inverse(body, 12, sip);
    assert body[16..20] == header[16..20] == Be32(dip);
    ReadBe32Inverse(body, 16, dip);
    assert body[20..total] == payload;
  }

  /** Only the checksum field, which decoding ignores, differs from the zeroed segment. */
  lemma TcpFields(p: seq<byte>, s: TcpSegment)
    requires |p| == TCP_LEN + |s.data| && p[..16] == TcpZeroed(s)[..16] && p[18..] == TcpZeroed(s)[18..]
    ensures DecodeTcp(p) == Some(s)
  {
    var z := TcpZeroed(s);
    assert p[..16][0..2] == z[0..2] == Be16(s.sport) && p[..16][2..4] == z[2..4] == Be16(s.dport);
    assert p[..16][4..8] == z[4..8] == Be32(s.seqno) && p[..16][8..12] == z[8..12] == Be32(s.ackno);
    assert p[..16][12] == z[12] == 0x50 && p[..16][13] == z[13] == s.flags;
    assert p[18..][2..] == z[18..][2..] == s.data;
    ReadBe16Inverse(p, 0, s.sport);
    ReadBe16Inverse(p, 2, s.dport);
    ReadBe32Inverse(p, 4, s.seqno);
    ReadBe32Inverse(p, 8, s.ackno);
  }

  lemma TcpRoundTrip(dst: mac, src: mac, sip: uint32, dip: uint32, s: TcpSegment)
    requires FitsTcp(s)
    ensures var d := DecodeFrame(TcpFrame(dst, src, sip, dip, s));
            d.Ip4? && d.from == src && d.proto == IP_TCP && d.src == sip && d.dst == dip
            && DecodeTcp(d.payload) == Some(s)
  {
    var p := Checksummed(sip, dip, IP_TCP, TcpZeroed(s), 16);
    IpRoundTrip(dst, src, sip, dip, IP_TCP, p);
    TcpFields(p, s);
  }

  lemma UdpFields(p: seq<byte>, d: UdpDatagram)
    requires FitsUdp(d)
    requires |p| == UDP_LEN + |d.data| && p[..6] == UdpZeroed(d)[..6] && p[8..] == UdpZeroed(d)[8..]
    ensures DecodeUdp(p) == Some(d)
  {
    var z := UdpZeroed(d);
    assert p[0..2] == p[..6][0..2] == z[0..2] == Be16(d.sport);
    assert p[2..4] == p[..6][2..4] == z[2..4] == Be16(d.dport);
    ReadBe16Inverse(p, 0, d.sport);
    ReadBe16Inverse(p, 2, d.dport);
    assert p[8..] == z[8..] == d.data;
  }

  lemma UdpRoundTrip(dst: mac, src: mac, sip: uint32, dip: uint32, d: UdpDatagram)
    requires FitsUdp(d)
    ensures var f := DecodeFrame(UdpFrame(dst, src, sip, dip, d));
            f.Ip4? && f.from == src && f.proto == IP_UDP && f.src == sip && f.dst == dip
            && DecodeUdp(f.payload) == Some(d)
  {
    var p := Checksummed(sip, dip, IP_UDP, UdpZeroed(d), 6);
    IpRoundTrip(dst, src, sip, dip, IP_UDP, p);
    UdpFields(p, d);
  }

  // ----- decoding a guest's frames, which may carry options and padding -----

  /** Whatever IP options follow the fixed header, and whatever pads the Ethernet frame, the
      payload comes out. */
  lemma IpOptionsSkipped(dst: mac, src: mac, h: seq<byte>, payload: seq<byte>, padding: seq<byte>)
    requires 20 <= |h| && h[0] % 16 * 4 == |h| && |h| + |payload| < TWO_16 && Holds(h, 2, Be16(|h| + |payload|))
    ensures DecodeFrame(dst + src + [0x08, 0x00] + h + payload + padding)
            == Ip4(src, h[9], ReadBe32(h, 12), ReadBe32(h, 16), payload)
  {
    hide Be16, Be32;
    EtypeBytes();
    var f := dst + src + [0x08, 0x00] + h + payload + padding;
    var body := f[14..];
    assert f[6..12] == src && f[12..14] == [0x08, 0x00];
    ReadBe16Inverse(f, 12, ETYPE_IP);
    assert body == h + payload + padding;
    assert body[2..4] == h[2..4];
    ReadBe16Inverse(body, 2, |h| + |payload|);
    assert body[|h|..|h| + |payload|] == payload;
  }

  /** Whatever TCP options follow the fixed header, the data comes out. */
  lemma TcpOptionsSkipped(h: seq<byte>, data: seq<byte>)
    requires 20 <= |h| && h[12] / 16 * 4 == |h|
    ensures DecodeTcp(h + data)
            == Some(TcpSegment(ReadBe16(h, 0), ReadBe16(h, 2), ReadBe32(h, 4), ReadBe32(h, 8), h[13], data))
  {
    assert (h + data)[|h|..] == data;
  }

  // ----- the receiver's checksum tests accept every emitted frame -----

  /** When the sum is already all ones it stays so once 65535 is stored. */
  lemma AllOnesVerifies(b: seq<byte>, at: nat)
    requires at + 2 <= |b| && at % 2 == 0 && b[at] == b[at + 1] == 0 && Rfc1071(b) == 0
    ensures Rfc1071(Splice(b, at, Le16(0xffff))) == 0
  {
    hide Splice, Le16;
    WordSumStore(b, at, 0xffff);
    CanonOfWordSum(b);
    CanonOfWordSum(Splice(b, at, Le16(0xffff)));
    CanonShift(WordSum(b), 1);
  }

  lemma SpliceAfterPrefix(p: seq<byte>, s: seq<byte>, at: nat, d: seq<byte>)
    requires at + |d| <= |s|
    ensures p + Splice(s, at, d) == Splice(p + s, |p| + at, d)
  {}

  lemma TransportVerifies(sip: uint32, dip: uint32, proto: byte, z: seq<byte>, at: nat)
    requires |z| < TWO_16 && at + 2 <= |z| && at % 2 == 0 && z[at] == z[at + 1] == 0
    ensures Rfc1071(PseudoHeader(sip, dip, proto, |z|) + Checksummed(sip, dip, proto, z, at)) == 0
  {
    hide Rfc1071, PseudoHeader, Splice, Le16;
    var ph := PseudoHeader(sip, dip, proto, |z|);
    var b := ph + z;
    var c := Rfc1071(b);
    var stored := NonZero(proto, c);
    SpliceAfterPrefix(ph, z, at, Le16(stored));
    StoredChecksumVerifies(b, 12 + at);
    if stored != c {
      AllOnesVerifies(b, 12 + at);
    }
  }

  /** An IP header's own checksum, and the transport checksum of what follows it. */
  lemma FrameVerifies(dst: mac, src: mac, sip: uint32, dip: uint32, proto: byte, z: seq<byte>, at: nat, f: seq<byte>)
    requires IP_LEN + |z| < TWO_16 && at + 2 <= |z| && at % 2 == 0 && z[at] == z[at + 1] == 0
    requires f == IpFrame(dst, src, sip, dip, proto, Checksummed(sip, dip, proto, z, at))
    ensures |f| == 34 + |z| && Rfc1071(f[14..34]) == 0
    ensures Rfc1071(PseudoHeader(sip, dip, proto, |z|) + f[34..]) == 0
  {
    hide Rfc1071, Checksummed, PseudoHeader, Splice, IpHeaderZeroed;
    TransportVerifies(sip, dip, proto, z, at);
    HeaderVerifies(IP_LEN + |z|, proto, sip, dip);
    assert f[14..34] == IpHeader(IP_LEN + |z|, proto, sip, dip);
    assert f[34..] == Checksummed(sip, dip, proto, z, at);
  }

  lemma HeaderVerifies(total: uint16, proto: byte, sip: uint32, dip: uint32)
    ensures Rfc1071(IpHeader(total, proto, sip, dip)) == 0
  {
    StoredChecksumVerifies(IpHeaderZeroed(total, proto, sip, dip), 10);
  }

  lemma EmittedChecksumsVerify(dst: mac, src: mac, sip: uint32, dip: uint32, s: TcpSegment, d: UdpDatagram)
    requires FitsTcp(s) && FitsUdp(d)
    ensures var f := TcpFrame(dst, src, sip, dip, s);
            Rfc1071(f[14..34]) == 0 && Rfc1071(PseudoHeader(sip, dip, IP_TCP, |f| - 34) + f[34..]) == 0
    ensures var f := UdpFrame(dst, src, sip, dip, d);
            Rfc1071(f[14..34]) == 0 && Rfc1071(PseudoHeader(sip, dip, IP_UDP, |f| - 34) + f[34..]) == 0
            && (f[40] != 0 || f[41] != 0)
  {
    var t, u := TcpZeroed(s), UdpZeroed(d);
    var ft, fu := TcpFrame(dst, src, sip, dip, s), UdpFrame(dst, src, sip, dip, d);
    hide Rfc1071;
    FrameVerifies(dst, src, sip, dip, IP_TCP, t, 16, ft);
    FrameVerifies(dst, src, sip, dip, IP_UDP, u, 6, fu);
    var p := Checksummed(sip, dip, IP_UDP, u, 6);
    assert fu[34..] == p;
    assert fu[40] == fu[34..][6] && fu[41] == fu[34..][7];
  }
}
