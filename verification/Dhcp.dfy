/** The DHCP server of src/network/network.cpp: its option scan as the inverse of
    the tag-length-value encoding of RFC 2132, and the reply it builds. */
module Dhcp {
  import opened Bytes
  import opened FrameCodec

  const PAD: byte := 0
  const MSG_TYPE: byte := 53
  const END: byte := 255
  const DISCOVER: byte := 1
  const OFFER: byte := 2
  const REQUEST: byte := 3
  const ACK: byte := 5

  // ----- RFC 2132, section 2: the option field as a list -----

  datatype AnyOption = Pad | Tlv(tag: byte, data: seq<byte>)

  type DhcpOption = o: AnyOption |
    o.Tlv? ==> o.tag != PAD && o.tag != END && |o.data| < 0x100
    witness Pad

  function EncodeOption(o: DhcpOption): seq<byte>
  {
    match o
    case Pad => [PAD]
    case Tlv(tag, data) => [tag, |data|] + data
  }

  function EncodeOptions(os: seq<DhcpOption>): seq<byte>
  {
    if os == [] then [] else EncodeOption(os[0]) + EncodeOptions(os[1..])
  }

  /** An option field ends at its buffer's end or at an end option, whatever follows it. */
  predicate Terminated(tail: seq<byte>) {
    tail == [] || tail[0] == END
  }

  /** The message type carried by the last option 53 that has a value; `default` if there is none. */
  function MessageType(os: seq<DhcpOption>, default: byte): byte {
    if os == [] then default else
    var last := os[|os| - 1];
    if last.Tlv? && last.tag == MSG_TYPE && last.data != [] then last.data[0]
    else MessageType(os[..|os| - 1], default)
  }

  // ----- the scan -----

  /** The scan of `opt[i..]` with `seen` found so far. `beyond` is the byte just past
      the buffer, which the code reads when a truncated option 53 ends the buffer. */
  function Scan(opt: seq<byte>, i: nat, seen: byte, beyond: byte): byte
    decreases |opt| - i
  {
    if i >= |opt| || opt[i] == END then seen
    else if opt[i] == PAD then Scan(opt, i + 1, seen, beyond)
    else if i + 1 >= |opt| then seen
    else
      var found := if opt[i] != MSG_TYPE || opt[i + 1] == 0 then seen
                   else if i + 2 < |opt| then opt[i + 2] else beyond;
      Scan(opt, i + 2 + opt[i + 1], found, beyond)
  }

  method ScanMessageType(opt: seq<byte>, beyond: byte) returns (msgType: byte)
    ensures msgType == Scan(opt, 0, 0, beyond)
  {
    msgType := 0;
    var i := 0;
    while i < |opt|
      invariant Scan(opt, i, msgType, beyond) == Scan(opt, 0, 0, beyond)
      decreases |opt| - i
    {
      if opt[i] == END {
        break;
      }
      if opt[i] == PAD {
        i := i + 1;
        continue;
      }
      if i + 1 >= |opt| {
        break;
      }
      var olen := opt[i + 1];
      if opt[i] == MSG_TYPE && olen >= 1 {
        msgType := if i + 2 < |opt| then opt[i + 2] else beyond;
      }
      i := i + 2 + olen;
    }
  }

  /** What one more option does to the message type found so far. */
  function Update(seen: byte, o: DhcpOption): byte {
    if o.Tlv? && o.tag == MSG_TYPE && o.data != [] then o.data[0] else seen
  }

  lemma ScanOne(opt: seq<byte>, i: nat, o: DhcpOption, rest: seq<byte>, seen: byte, beyond: byte)
    requires i <= |opt| && opt[i..] == EncodeOption(o) + rest
    ensures var j := i + |EncodeOption(o)|;
            j <= |opt| && opt[j..] == rest
            && Scan(opt, i, seen, beyond) == Scan(opt, j, Update(seen, o), beyond)
  {
    OptionAt(opt, i, o, rest);
  }

  lemma OptionAt(opt: seq<byte>, i: nat, o: DhcpOption, rest: seq<byte>)
    requires i <= |opt| && opt[i..] == EncodeOption(o) + rest
    ensures var n := |EncodeOption(o)|;
            0 < n && i + n <= |opt| && opt[i + n..] == rest && opt[i] == EncodeOption(o)[0]
    ensures o.Tlv? ==>
              && i + 1 < |opt| && opt[i + 1] == |o.data|
              && (o.data != [] ==> i + 2 < |opt| && opt[i + 2] == o.data[0])
  {
    var here := opt[i..];
    assert opt[i] == here[0] == EncodeOption(o)[0];
    if o.Tlv? {
      assert opt[i + 1] == here[1] == |o.data|;
      assert o.data != [] ==> opt[i + 2] == here[2] == o.data[0];
    }
    assert opt[i + |EncodeOption(o)|..] == here[|EncodeOption(o)|..] == rest;
  }

  function Latest(os: seq<DhcpOption>, seen: byte): byte {
    if os == [] then seen else Latest(os[1..], Update(seen, os[0]))
  }

  lemma {:induction false} ScanFolds(opt: seq<byte>, i: nat, os: seq<DhcpOption>, tail: seq<byte>,
                                     seen: byte, beyond: byte)
    requires Terminated(tail)
    requires i <= |opt| && opt[i..] == EncodeOptions(os) + tail
    ensures Scan(opt, i, seen, beyond) == Latest(os, seen)
    decreases |os|
  {
    hide EncodeOption;
    if os == [] {
      assert opt[i..] == tail;
      assert i < |opt| ==> opt[i] == tail[0];
    } else {
      hide Scan;
      var rest := EncodeOptions(os[1..]) + tail;
      Assoc(EncodeOption(os[0]), EncodeOptions(os[1..]), tail);
      ScanOne(opt, i, os[0], rest, seen, beyond);
      ScanFolds(opt, i + |EncodeOption(os[0])|, os[1..], tail, Update(seen, os[0]), beyond);
    }
  }

  lemma {:induction false} LatestIsMessageType(os: seq<DhcpOption>, seen: byte)
    ensures Latest(os, seen) == MessageType(os, seen)
    decreases |os|
  {
    if os != [] {
      LatestIsMessageType(os[1..], Update(seen, os[0]));
      MessageTypeFromFront(os, seen);
    }
  }

  lemma {:induction false} MessageTypeFromFront(os: seq<DhcpOption>, seen: byte)
    requires os != []
    ensures MessageType(os, seen) == MessageType(os[1..], Update(seen, os[0]))
    decreases |os|
  {
    var n := |os|;
    if n == 1 {
      assert os[..0] == [] && os[1..] == [];
      assert MessageType(os[..0], seen) == seen;
    } else {
      assert os[..n - 1][1..] == os[1..][..n - 2];
      MessageTypeFromFront(os[..n - 1], seen);
    }
  }

  /** On a well-formed option field the scan recovers the list's message type,
      and never looks past the buffer. */
  lemma ScanInvertsEncoding(os: seq<DhcpOption>, tail: seq<byte>, beyond: byte)
    requires Terminated(tail)
    ensures Scan(EncodeOptions(os) + tail, 0, 0, beyond) == MessageType(os, 0)
  {
    ScanFolds(EncodeOptions(os) + tail, 0, os, tail, 0, beyond);
    LatestIsMessageType(os, 0);
  }

  // ----- the reply -----

  datatype Config = Config(gwIp: uint32, dnsIp: uint32, guestIp: uint32)

  function ReplyOptions(kind: byte, cfg: Config): seq<DhcpOption> {
    [Tlv(53, [kind]), Tlv(54, Be32(cfg.gwIp)), Tlv(51, Be32(86400)), Tlv(1, Be32(0xFFFF_FF00)),
     Tlv(3, Be32(cfg.gwIp)), Tlv(6, Be32(cfg.dnsIp))]
  }

  /** Appends one option to the options already laid out in `reply[240..p]`. */
  method PutOption(reply: array<byte>, p: nat, o: DhcpOption, ghost done: seq<DhcpOption>)
    returns (next: nat, ghost done': seq<DhcpOption>)
    requires o.Tlv? && 240 <= p && p + 2 + |o.data| <= reply.Length
    requires reply[240..p] == EncodeOptions(done)
    modifies reply
    ensures next == p + 2 + |o.data|
    ensures reply[..240] == old(reply[..240])
    ensures forall i :: next <= i < reply.Length ==> reply[i] == old(reply[i])
    ensures done' == done + [o] && reply[240..next] == EncodeOptions(done')
  {
    hide Splice, EncodeOptions, Be32;
    CopyInto(reply, p, EncodeOption(o));
    next := p + 2 + |o.data|;
    done' := done + [o];
    EncodeAppend(done, o);
    assert reply[0..240] == old(reply[0..240]);
    assert reply[240..next] == reply[240..p] + reply[p..next];
    assert reply[next..reply.Length] == old(reply[next..reply.Length]);
  }

  /** The BOOTP part of the reply, all 240 bytes: the request's identity echoed, the configured
      addresses offered, the cookie that announces options, and zeros. */
  predicate FixedPart(b: seq<byte>, payload: seq<byte>, cfg: Config)
    requires |b| >= 240 && |payload| >= 240
  {
    b[0..3] == [2, 1, 6] && b[3] == 0 && b[4..8] == payload[4..8] && b[8..16] == Zeros(8)
    && b[16..20] == Be32(cfg.guestIp) && b[20..24] == Be32(cfg.gwIp) && b[24..28] == Zeros(4)
    && b[28..34] == payload[28..34] && b[34..236] == Zeros(202) && b[236..240] == [99, 130, 83, 99]
  }

  lemma SliceOfPrefix(b: seq<byte>, lo: nat, hi: nat, n: nat)
    requires lo <= hi <= n <= |b|
    ensures b[lo..hi] == b[..n][lo..hi]
  {}

  lemma FixedPartOfPrefix(b: seq<byte>, c: seq<byte>, payload: seq<byte>, cfg: Config)
    requires |b| >= 240 && |c| >= 240 && |payload| >= 240 && b[..240] == c[..240]
    requires FixedPart(b, payload, cfg)
    ensures FixedPart(c, payload, cfg)
  {
    forall lo, hi {:trigger c[lo..hi]} | 0 <= lo <= hi <= 240
      ensures b[lo..hi] == c[lo..hi]
    {
      SliceOfPrefix(b, lo, hi, 240);
      SliceOfPrefix(c, lo, hi, 240);
    }
    assert b[3] == b[..240][3] == c[..240][3] == c[3];
  }

  predicate IsReply(b: seq<byte>, payload: seq<byte>, cfg: Config, kind: byte) {
    |b| == 300 && |payload| >= 240 && FixedPart(b, payload, cfg)
    && b[240..273] == EncodeOptions(ReplyOptions(kind, cfg)) && b[273] == END && b[274..] == Zeros(26)
  }

  method FillFixedPart(reply: array<byte>, payload: seq<byte>, cfg: Config)
    requires reply.Length >= 240 && |payload| >= 240 && forall i :: 0 <= i < reply.Length ==> reply[i] == 0
    modifies reply
    ensures FixedPart(reply[..], payload, cfg) && reply[240..] == old(reply[240..])
  {
    hide Be32, Splice;
    ghost var zero := reply[..];
    assert zero[8..16] == Zeros(8) && zero[24..28] == Zeros(4) && zero[34..236] == Zeros(202);
    CopyInto(reply, 0, [2, 1, 6]);
    CopyInto(reply, 4, payload[4..8]);
    CopyInto(reply, 16, Be32(cfg.guestIp));
    CopyInto(reply, 20, Be32(cfg.gwIp));
    CopyInto(reply, 28, payload[28..34]);
    CopyInto(reply, 236, [99, 130, 83, 99]);
    ghost var b := reply[..];
    assert b[0..3] == reply[0..3];
    assert b[3..4] == reply[3..4] == zero[3..4];
    assert b[8..16] == reply[8..16] == zero[8..16];
    assert b[24..28] == reply[24..28] == zero[24..28];
    assert b[34..236] == reply[34..236] == zero[34..236];
    assert b[4..8] == reply[4..8];
    assert b[16..20] == reply[16..20];
    assert b[20..24] == reply[20..24];
    assert b[28..34] == reply[28..34];
    assert b[236..240] == reply[236..240];
  }

  method PutReplyOptions(reply: array<byte>, kind: byte, cfg: Config) returns (p: nat)
    requires reply.Length == 548
    modifies reply
    ensures p == 273 && reply[..240] == old(reply[..240])
    ensures forall i :: p <= i < reply.Length ==> reply[i] == old(reply[i])
    ensures reply[240..p] == EncodeOptions(ReplyOptions(kind, cfg))
  {
    assert reply[240..240] == EncodeOptions([]);
    hide EncodeOptions, EncodeOption, Be32, ReplyOptions;
    ghost var os;
    p, os := PutOption(reply, 240, Tlv(53, [kind]), []);
    p, os := PutOption(reply, p, Tlv(54, Be32(cfg.gwIp)), os);
    p, os := PutOption(reply, p, Tlv(51, Be32(86400)), os);
    p, os := PutOption(reply, p, Tlv(1, Be32(0xFFFF_FF00)), os);
    p, os := PutOption(reply, p, Tlv(3, Be32(cfg.gwIp)), os);
    p, os := PutOption(reply, p, Tlv(6, Be32(cfg.dnsIp)), os);
    OneByOne(kind, cfg);
  }

  lemma OneByOne(kind: byte, cfg: Config)
    ensures [] + [Tlv(53, [kind])] + [Tlv(54, Be32(cfg.gwIp))] + [Tlv(51, Be32(86400))]
            + [Tlv(1, Be32(0xFFFF_FF00))] + [Tlv(3, Be32(cfg.gwIp))] + [Tlv(6, Be32(cfg.dnsIp))]
            == ReplyOptions(kind, cfg)
  {
    hide Be32;
  }

  method BuildReply(payload: seq<byte>, kind: byte, cfg: Config) returns (b: seq<byte>)
    requires |payload| >= 240
    ensures IsReply(b, payload, cfg, kind)
  {
    hide FixedPart, EncodeOptions, ReplyOptions;
    var reply := new byte[548](_ => 0);
    FillFixedPart(reply, payload, cfg);
    ghost var before := reply[..];
    var p := PutReplyOptions(reply, kind, cfg);
    ghost var filled := reply[..p];
    assert filled == reply[..240] + reply[240..p];
    reply[p] := END;
    p := p + 1;
    b := reply[..if p > 300 then p else 300];
    assert b[..273] == filled;
    assert b[..240] == filled[..240] == before[..240];
    assert b[240..273] == filled[240..];
    assert forall i :: 274 <= i < 300 ==> b[i] == before[i] == before[240..][i - 240];
    FixedPartOfPrefix(before, b, payload, cfg);
  }

  const BROADCAST: mac := [0xff, 0xff, 0xff, 0xff, 0xff, 0xff]

  /** The frame is this reply, broadcast from the server's port to the client's. */
  ghost predicate Sends(frame: seq<byte>, gwMac: mac, cfg: Config, payload: seq<byte>, kind: byte) {
    exists b | IsReply(b, payload, cfg, kind) ::
      frame == UdpFrame(BROADCAST, gwMac, cfg.gwIp, 0xFFFF_FFFF, UdpDatagram(67, 68, b))
  }

  /** Reads a request's transaction id, hardware address and message type; answers a
      DISCOVER with an OFFER and a REQUEST with an ACK, and nothing else. */
  method HandleDhcp(payload: seq<byte>, beyond: byte, cfg: Config, gwMac: mac) returns (answer: Option<seq<byte>>)
    ensures var t := if |payload| < 240 then 0 else Scan(payload[240..], 0, 0, beyond);
            (t != DISCOVER && t != REQUEST ==> answer == None) &&
            (t == DISCOVER || t == REQUEST ==>
               answer.Some? && Sends(answer.value, gwMac, cfg, payload, if t == DISCOVER then OFFER else ACK))
  {
    hide UdpFrame, Scan;
    if |payload| < 240 {
      return None;
    }
    var msgType := ScanMessageType(payload[240..], beyond);
    if msgType != DISCOVER && msgType != REQUEST {
      return None;
    }
    var reply := BuildReply(payload, if msgType == DISCOVER then OFFER else ACK, cfg);
    var frame := SendUdp(BROADCAST, gwMac, cfg.gwIp, 0xFFFF_FFFF, UdpDatagram(67, 68, reply));
    answer := Some(frame);
  }

  lemma {:induction false} EncodeAppend(os: seq<DhcpOption>, o: DhcpOption)
    ensures EncodeOptions(os + [o]) == EncodeOptions(os) + EncodeOption(o)
    decreases |os|
  {
    if os == [] {
      assert EncodeOptions([o]) == EncodeOption(o) + EncodeOptions([o][1..]);
    } else {
      assert (os + [o])[1..] == os[1..] + [o];
      EncodeAppend(os[1..], o);
    }
  }

  /** A client scanning the reply with the same algorithm reads back its kind. */
  lemma ReplyScansBack(b: seq<byte>, payload: seq<byte>, cfg: Config, kind: byte, beyond: byte)
    requires IsReply(b, payload, cfg, kind)
    ensures Scan(b[240..], 0, 0, beyond) == kind
  {
    var os := ReplyOptions(kind, cfg);
    assert b[240..] == EncodeOptions(os) + b[273..];
    ScanInvertsEncoding(os, b[273..], beyond);
    MessageTypeFromFront(os, 0);
    OnlyFirstIsMessageType(os[1..], kind);
  }

  lemma OnlyFirstIsMessageType(os: seq<DhcpOption>, seen: byte)
    requires forall o :: o in os ==> o.Tlv? && o.tag != MSG_TYPE
    ensures MessageType(os, seen) == seen
  {}

  // ----- the answer on the wire -----

  /** What a client finds in a reply (RFC 2131 and RFC 2132), `at` bytes into `f`: its own
      transaction and hardware address, the address offered, and the lease: server, a day,
      netmask 255.255.255.0, router and name server. */
  predicate OffersLease(f: seq<byte>, at: nat, request: seq<byte>, cfg: Config, kind: byte)
    requires |request| >= 240
  {
    && |f| == at + 300
    && Holds(f, at, [2, 1, 6, 0]) && Holds(f, at + 4, request[4..8]) && Holds(f, at + 16, Be32(cfg.guestIp))
    && Holds(f, at + 20, Be32(cfg.gwIp)) && Holds(f, at + 28, request[28..34])
    && Holds(f, at + 236, [99, 130, 83, 99]) && Holds(f, at + 240, [53, 1, kind])
    && Holds(f, at + 243, [54, 4] + Be32(cfg.gwIp)) && Holds(f, at + 249, [51, 4] + Be32(86400))
    && Holds(f, at + 255, [1, 4, 255, 255, 255, 0]) && Holds(f, at + 261, [3, 4] + Be32(cfg.gwIp))
    && Holds(f, at + 267, [6, 4] + Be32(cfg.dnsIp)) && Holds(f, at + 273, [255])
  }

  lemma OptionsLaid(kind: byte, cfg: Config)
    ensures var b := EncodeOptions(ReplyOptions(kind, cfg));
            && |b| == 33 && Holds(b, 0, [53, 1, kind]) && Holds(b, 3, [54, 4] + Be32(cfg.gwIp))
            && Holds(b, 9, [51, 4] + Be32(86400)) && Holds(b, 15, [1, 4, 255, 255, 255, 0])
            && Holds(b, 21, [3, 4] + Be32(cfg.gwIp)) && Holds(b, 27, [6, 4] + Be32(cfg.dnsIp))
  {
    hide EncodeOptions, EncodeOption, Be32;
    var gw, lease, mask, dns := Be32(cfg.gwIp), Be32(86400), Be32(0xFFFF_FF00), Be32(cfg.dnsIp);
    SixOptions(Tlv(53, [kind]), Tlv(54, gw), Tlv(51, lease), Tlv(1, mask), Tlv(3, gw), Tlv(6, dns));
    Encoded(53, [kind]);
    Encoded(54, gw);
    Encoded(51, lease);
    Encoded(1, mask);
    Encoded(3, gw);
    Encoded(6, dns);
    NetmaskBytes();
    SixPieces([53, 1, kind], [54, 4] + gw, [51, 4] + lease, [1, 4] + mask, [3, 4] + gw, [6, 4] + dns);
  }

  lemma NetmaskBytes()
    ensures [1, 4] + Be32(0xFFFF_FF00) == [1, 4, 255, 255, 255, 0]
  {}

  lemma Encoded(tag: byte, data: seq<byte>)
    requires tag != PAD && tag != END && |data| < 0x100
    ensures EncodeOption(Tlv(tag, data)) == [tag, |data|] + data
  {}

  lemma SixPieces(a: seq<byte>, b: seq<byte>, c: seq<byte>, d: seq<byte>, e: seq<byte>, f: seq<byte>)
    requires |a| == 3 && |b| == |c| == |d| == |e| == |f| == 6
    ensures var all := a + (b + (c + (d + (e + (f + [])))));
            Holds(all, 0, a) && Holds(all, 3, b) && Holds(all, 9, c) && Holds(all, 15, d) && Holds(all, 21, e)
            && Holds(all, 27, f)
  {}

  lemma EncodeCons(o: DhcpOption, os: seq<DhcpOption>)
    ensures EncodeOptions([o] + os) == EncodeOption(o) + EncodeOptions(os)
  {
    assert ([o] + os)[1..] == os;
  }

  lemma SixOptions(a: DhcpOption, b: DhcpOption, c: DhcpOption, d: DhcpOption, e: DhcpOption, f: DhcpOption)
    ensures EncodeOptions([a, b, c, d, e, f])
            == EncodeOption(a) + (EncodeOption(b) + (EncodeOption(c)
               + (EncodeOption(d) + (EncodeOption(e) + (EncodeOption(f) + [])))))
  {
    assert EncodeOptions([]) == [];
    hide EncodeOption, EncodeOptions;
    EncodeCons(f, []);
    EncodeCons(e, [f]);
    EncodeCons(d, [e, f]);
    EncodeCons(c, [d, e, f]);
    EncodeCons(b, [c, d, e, f]);
    EncodeCons(a, [b, c, d, e, f]);
    assert [a] + [b, c, d, e, f] == [a, b, c, d, e, f] && [b] + [c, d, e, f] == [b, c, d, e, f];
    assert [c] + [d, e, f] == [c, d, e, f] && [d] + [e, f] == [d, e, f] && [e] + [f] == [e, f] && [f] + [] == [f];
  }

  lemma ReplyOffersLease(b: seq<byte>, request: seq<byte>, cfg: Config, kind: byte)
    requires IsReply(b, request, cfg, kind)
    ensures OffersLease(b, 0, request, cfg, kind)
  {
    hide Be32, EncodeOptions, ReplyOptions;
    OptionsLaid(kind, cfg);
    SlicesOf(b, 240, 273);
  }

  /** The frame that answers a client: a broadcast from port 67 to port 68 with the lease. */
  lemma AnswerOnTheWire(frame: seq<byte>, gwMac: mac, cfg: Config, request: seq<byte>, kind: byte)
    requires Sends(frame, gwMac, cfg, request, kind)
    ensures |request| >= 240 && IpLaid(frame, [255, 255, 255, 255, 255, 255], gwMac, cfg.gwIp, 0xFFFF_FFFF, 17)
    ensures Holds(frame, 34, Be16(67)) && Holds(frame, 36, Be16(68)) && OffersLease(frame, 42, request, cfg, kind)
  {
    hide UdpFrame, IpLaid, Be16, Be32;
    var b :| IsReply(b, request, cfg, kind)
             && frame == UdpFrame(BROADCAST, gwMac, cfg.gwIp, 0xFFFF_FFFF, UdpDatagram(67, 68, b));
    ReplyOffersLease(b, request, cfg, kind);
    UdpLayout(BROADCAST, gwMac, cfg.gwIp, 0xFFFF_FFFF, UdpDatagram(67, 68, b));
    hide IsReply;
    assert frame[42..342] == b;
    SlicesOf(frame, 42, 342);
  }
}
