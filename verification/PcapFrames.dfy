/** Playing records of other tools back: what comes of IPv4, IPv6 and VLAN frames with UDP or TCP in
    them, taken apart by the fields of their headers. */
module PcapFrames {
  import opened Bytes
  import opened Options
  import opened PcapFile
  import opened PcapReplay

  /** A frame: two addresses of six bytes, the type, the headers behind it, and the payload */
  function Frame(addresses: seq<byte>, kind: seq<byte>, ip: seq<byte>, transport: seq<byte>, payload: seq<byte>):
    (r: seq<byte>)
    ensures |r| == |addresses| + |kind| + |ip| + |transport| + |payload|
  {
    addresses + (kind + (ip + (transport + payload)))
  }

  lemma FrameParts(addresses: seq<byte>, kind: seq<byte>, ip: seq<byte>, transport: seq<byte>, payload: seq<byte>)
    requires |addresses| == 12 && |kind| == 2
    ensures var f := Frame(addresses, kind, ip, transport, payload);
            var n := 14 + |ip|;
            && f[12..14] == kind && f[14..n] == ip && f[n..n + |transport|] == transport
            && f[n + |transport|..] == payload
  {
  }

  /** A record: eight bytes of time stamp, the length, the original length, and the frame */
  function RecordOf(stamp: seq<byte>, original: seq<byte>, frame: seq<byte>): seq<byte>
    requires |frame| < U32
  {
    stamp + (Le32(|frame|) + (original + frame))
  }

  /** What the source is when the frame at the cursor has been read into the record buffer */
  predicate Loaded(s: Source, t: Source, frame: seq<byte>) {
    && |frame| <= BUFFER && t.payload[..|frame|] == frame
    && t == s.(pos := s.pos + 16 + |frame|, payload := t.payload)
  }

  /** A record whose frame fits the record buffer is read whole, whatever its kind. */
  lemma FrameLoaded(s: Source, buffer: Buffer, stamp: seq<byte>, original: seq<byte>, frame: seq<byte>)
    returns (t: Source)
    requires |stamp| == 8 && |original| == 4 && 14 < |frame| <= 1500
    requires Stands(s.data, s.pos, RecordOf(stamp, original, frame))
    ensures Loaded(s, t, frame) && Advance(s, buffer) == Unwrap(t, |frame|, buffer)
  {
    StandsInTwo(s.data, s.pos, stamp, Le32(|frame|) + (original + frame));
    StandsInTwo(s.data, s.pos + 8, Le32(|frame|), original + frame);
    StandsInTwo(s.data, s.pos + 12, original, frame);
    Le32RoundTrip(|frame|);
    t := Filled(s.(pos := s.pos + 16), |frame|);
  }

  lemma NetworkPort(lo: byte, hi: byte)
    ensures Swap16(FromLe16(lo, hi)) == FromBe16(lo, hi)
  {
  }

  /** The field of an eight-byte UDP header that says the destination port, by RFC 768 */
  function PortField(udp: seq<byte>): nat
    requires |udp| == 8
  {
    FromBe16(udp[2], udp[3])
  }

  /** The frame's payload is in the packet's buffer, its length is returned, and the port is `port`. */
  predicate PlaysBack(r: Played, t: Source, payload: seq<byte>, buffer: Buffer, port: nat) {
    && |payload| <= BUFFER
    && r.ret == |payload| && r.buffer == Over(payload, buffer) && DestinationPort(r.source) == port
    && r.source == t.(udp := r.source.udp)
  }

  /** Nothing is copied and no port is noted. */
  predicate PassesBy(r: Played, t: Source, buffer: Buffer, ret: int) {
    r == Played(ret, buffer, t)
  }

  lemma InBuffer(p: Buffer, frame: seq<byte>, i: nat, j: nat)
    requires |frame| <= BUFFER && p[..|frame|] == frame && i <= j <= |frame|
    ensures p[i..j] == frame[i..j] && forall k :: i <= k < j ==> p[k] == frame[i..j][k - i]
  {
    forall k | i <= k < j
      ensures p[k] == frame[k]
    {
      assert p[..|frame|][k] == p[k];
    }
  }

  /** By RFC 791 the protocol is byte 9 of an IPv4 header, here of twenty bytes; 17 is UDP. */
  lemma Ip4UdpPlays(s: Source, t: Source, buffer: Buffer, addresses: seq<byte>, ip: seq<byte>, udp: seq<byte>,
                    payload: seq<byte>)
    requires |addresses| == 12 && |ip| == 20 && ip[9] == 17 && |udp| == 8
    requires Loaded(s, t, Frame(addresses, [0x08, 0x00], ip, udp, payload))
    ensures PlaysBack(Unwrap(t, 42 + |payload|, buffer), t, payload, buffer, PortField(udp))
  {
    var f := Frame(addresses, [0x08, 0x00], ip, udp, payload);
    FrameParts(addresses, [0x08, 0x00], ip, udp, payload);
    InBuffer(t.payload, f, 12, 14);
    InBuffer(t.payload, f, 14, 34);
    InBuffer(t.payload, f, 34, 42);
    InBuffer(t.payload, f, 42, |f|);
    UnwrapUdp(t, buffer, |f|);
    NetworkPort(udp[2], udp[3]);
  }

  /** By RFC 8200 the next header is byte 6 of the forty of an IPv6 header. */
  lemma Ip6UdpPlays(s: Source, t: Source, buffer: Buffer, addresses: seq<byte>, ip: seq<byte>, udp: seq<byte>,
                    payload: seq<byte>)
    requires |addresses| == 12 && |ip| == 40 && ip[6] == 17 && |udp| == 8
    requires Loaded(s, t, Frame(addresses, [0x86, 0xdd], ip, udp, payload))
    ensures PlaysBack(Unwrap(t, 62 + |payload|, buffer), t, payload, buffer, PortField(udp))
  {
    var f := Frame(addresses, [0x86, 0xdd], ip, udp, payload);
    FrameParts(addresses, [0x86, 0xdd], ip, udp, payload);
    InBuffer(t.payload, f, 12, 14);
    InBuffer(t.payload, f, 14, 54);
    InBuffer(t.payload, f, 54, 62);
    InBuffer(t.payload, f, 62, |f|);
    UnwrapUdp6(t, buffer, |f|);
    NetworkPort(udp[2], udp[3]);
  }

  lemma UnwrapUdp6(s: Source, buffer: Buffer, incl: nat)
    requires 62 <= incl <= BUFFER && s.payload[12] == 0x86 && s.payload[13] == 0xdd && s.payload[20] == 17
    ensures Unwrap(s, incl, buffer)
            == Played(incl - 62, Over(s.payload[62..incl], buffer), s.(udp := s.payload[54..62]))
  {
  }

  /** A TCP frame is passed by: its payload's length is returned if someone asks for TCP, else 2. */
  lemma TcpPassesBy(s: Source, t: Source, buffer: Buffer, addresses: seq<byte>, v6: bool, ip: seq<byte>,
                    tcp: seq<byte>, payload: seq<byte>)
    requires |addresses| == 12 && |tcp| == 20
    requires if v6 then |ip| == 40 && ip[6] == 6 else |ip| == 20 && ip[9] == 6
    requires Loaded(s, t, Frame(addresses, if v6 then [0x86, 0xdd] else [0x08, 0x00], ip, tcp, payload))
    ensures PassesBy(Unwrap(t, 34 + |ip| + |payload|, buffer), t, buffer, if s.tcp then |payload| else 2)
  {
    var kind: seq<byte> := if v6 then [0x86, 0xdd] else [0x08, 0x00];
    var f := Frame(addresses, kind, ip, tcp, payload);
    FrameParts(addresses, kind, ip, tcp, payload);
    InBuffer(t.payload, f, 12, 14);
    InBuffer(t.payload, f, 14, 14 + |ip|);
  }

  /** Any other protocol over IPv4 or IPv6 gives 2. */
  lemma OtherPassesBy(s: Source, t: Source, buffer: Buffer, addresses: seq<byte>, v6: bool, ip: seq<byte>,
                      payload: seq<byte>)
    requires |addresses| == 12
    requires if v6 then |ip| == 40 && ip[6] != 17 && ip[6] != 6 else |ip| == 20 && ip[9] != 17 && ip[9] != 6
    requires Loaded(s, t, Frame(addresses, if v6 then [0x86, 0xdd] else [0x08, 0x00], ip, [], payload))
    ensures PassesBy(Unwrap(t, 14 + |ip| + |payload|, buffer), t, buffer, 2)
  {
    var kind: seq<byte> := if v6 then [0x86, 0xdd] else [0x08, 0x00];
    var f := Frame(addresses, kind, ip, [], payload);
    FrameParts(addresses, kind, ip, [], payload);
    InBuffer(t.payload, f, 12, 14);
    InBuffer(t.payload, f, 14, 14 + |ip|);
  }

  /** Behind a VLAN tag an IPv4 frame's payload plays back. But the UDP header is taken from where it
      would be without the tag: the port noted is in truth the end of the destination address. */
  lemma VlanUdpPlays(s: Source, t: Source, buffer: Buffer, addresses: seq<byte>, tag: seq<byte>, ip: seq<byte>,
                     udp: seq<byte>, payload: seq<byte>)
    requires |addresses| == 12 && |tag| == 2 && |ip| == 20 && ip[9] == 17 && |udp| == 8
    requires Loaded(s, t, Frame(addresses, [0x81, 0x00], tag + [0x08, 0x00] + ip, udp, payload))
    ensures PlaysBack(Unwrap(t, 46 + |payload|, buffer), t, payload, buffer, FromBe16(ip[18], ip[19]))
  {
    var tagged := tag + [0x08, 0x00] + ip;
    var f := Frame(addresses, [0x81, 0x00], tagged, udp, payload);
    FrameParts(addresses, [0x81, 0x00], tagged, udp, payload);
    InBuffer(t.payload, f, 12, 14);
    InBuffer(t.payload, f, 14, 38);
    InBuffer(t.payload, f, 46, |f|);
    assert tagged[2] == 0x08 && tagged[3] == 0x00 && tagged[13] == 17 && tagged[22] == ip[18] && tagged[23] == ip[19];
    UnwrapVlan(t, buffer, |f|);
    assert t.payload[36] == tagged[22] && t.payload[37] == tagged[23];
    assert t.payload[34..42][2] == t.payload[36] && t.payload[34..42][3] == t.payload[37];
    NetworkPort(ip[18], ip[19]);
  }

  lemma UnwrapVlan(s: Source, buffer: Buffer, incl: nat)
    requires 46 <= incl <= BUFFER && s.payload[12] == 0x81 && s.payload[13] == 0x00
    requires s.payload[16] == 0x08 && s.payload[17] == 0x00 && s.payload[27] == 17
    ensures Unwrap(s, incl, buffer)
            == Played(incl - 46, Over(s.payload[46..incl], buffer), s.(udp := s.payload[34..42]))
  {
  }

  /** So the port is right exactly if the destination address happens to end on it. */
  lemma VlanPortExactly(s: Source, t: Source, buffer: Buffer, addresses: seq<byte>, tag: seq<byte>, ip: seq<byte>,
                        udp: seq<byte>, payload: seq<byte>)
    requires |addresses| == 12 && |tag| == 2 && |ip| == 20 && ip[9] == 17 && |udp| == 8
    requires Loaded(s, t, Frame(addresses, [0x81, 0x00], tag + [0x08, 0x00] + ip, udp, payload))
    ensures PlaysBack(Unwrap(t, 46 + |payload|, buffer), t, payload, buffer, PortField(udp))
            <==> ip[18] == udp[2] && ip[19] == udp[3]
  {
    VlanUdpPlays(s, t, buffer, addresses, tag, ip, udp, payload);
  }

  /** Behind a VLAN tag, TCP over IPv4 and other protocols are passed by as without it. */
  lemma VlanOtherPassesBy(s: Source, t: Source, buffer: Buffer, addresses: seq<byte>, tag: seq<byte>, ip: seq<byte>,
                          tcp: seq<byte>, payload: seq<byte>)
    requires |addresses| == 12 && |tag| == 2 && |ip| == 20 && ip[9] != 17 && |tcp| == 20
    requires Loaded(s, t, Frame(addresses, [0x81, 0x00], tag + [0x08, 0x00] + ip, tcp, payload))
    ensures PassesBy(Unwrap(t, 58 + |payload|, buffer), t, buffer, if s.tcp && ip[9] == 6 then |payload| else 2)
  {
    var tagged := tag + [0x08, 0x00] + ip;
    var f := Frame(addresses, [0x81, 0x00], tagged, tcp, payload);
    FrameParts(addresses, [0x81, 0x00], tagged, tcp, payload);
    InBuffer(t.payload, f, 12, 14);
    InBuffer(t.payload, f, 14, 38);
    assert tagged[2] == 0x08 && tagged[3] == 0x00 && tagged[13] == ip[9];
  }

  lemma KindTells(first: byte, second: byte)
    ensures FromLe16(first, second) == 0x0008 <==> first == 0x08 && second == 0x00
    ensures FromLe16(first, second) == 0xdd86 <==> first == 0x86 && second == 0xdd
    ensures FromLe16(first, second) == 0x0081 <==> first == 0x81 && second == 0x00
  {
  }

  predicate KnownKind(first: byte, second: byte) {
    (first == 0x08 && second == 0x00) || (first == 0x86 && second == 0xdd) || (first == 0x81 && second == 0x00)
  }

  /** Frames of any other kind give 1. */
  lemma UnknownKind(s: Source, t: Source, buffer: Buffer, addresses: seq<byte>, first: byte, second: byte,
                    payload: seq<byte>)
    requires |addresses| == 12 && payload != [] && !KnownKind(first, second)
    requires Loaded(s, t, Frame(addresses, [first, second], [], [], payload))
    ensures PassesBy(Unwrap(t, 14 + |payload|, buffer), t, buffer, 1)
  {
    var f := Frame(addresses, [first, second], [], [], payload);
    FrameParts(addresses, [first, second], [], [], payload);
    InBuffer(t.payload, f, 12, 14);
    KindTells(first, second);
  }

  /** An IPv4 frame of UDP that ends before the UDP header does gives 1, and nothing is copied. */
  lemma ShortUdpNotCopied(s: Source, t: Source, buffer: Buffer, addresses: seq<byte>, ip: seq<byte>, udp: seq<byte>)
    requires |addresses| == 12 && |ip| == 20 && ip[9] == 17 && |udp| < 8
    requires Loaded(s, t, Frame(addresses, [0x08, 0x00], ip, udp, []))
    ensures var r := Unwrap(t, 34 + |udp|, buffer); r.ret == 1 && r.buffer == buffer
  {
    var f := Frame(addresses, [0x08, 0x00], ip, udp, []);
    FrameParts(addresses, [0x08, 0x00], ip, udp, []);
    InBuffer(t.payload, f, 12, 14);
    InBuffer(t.payload, f, 14, 34);
  }

  /** Behind a VLAN tag no IPv6 frame plays back: nothing is copied, whatever is in it. What is returned
      goes by a byte of the source address, where an IPv4 header would have its protocol. */
  lemma VlanIp6NotCopied(s: Source, t: Source, buffer: Buffer, addresses: seq<byte>, tag: seq<byte>, ip: seq<byte>,
                         transport: seq<byte>, payload: seq<byte>)
    requires |addresses| == 12 && |tag| == 2 && |ip| == 40
    requires Loaded(s, t, Frame(addresses, [0x81, 0x00], tag + [0x86, 0xdd] + ip, transport, payload))
    ensures var n := |Frame(addresses, [0x81, 0x00], tag + [0x86, 0xdd] + ip, transport, payload)|;
            var r := Unwrap(t, n, buffer);
            && r.buffer == buffer
            && (ip[9] != 6 && ip[9] != 17 ==> r.ret == 2)
            && (ip[9] == 17 && n >= 66 ==> r.ret == n - 66)
  {
    var tagged := tag + [0x86, 0xdd] + ip;
    var f := Frame(addresses, [0x81, 0x00], tagged, transport, payload);
    FrameParts(addresses, [0x81, 0x00], tagged, transport, payload);
    InBuffer(t.payload, f, 12, 14);
    InBuffer(t.payload, f, 14, 58);
    assert tagged[2] == 0x86 && tagged[3] == 0xdd && tagged[13] == ip[9];
  }

  /** A record whose frame does not fit the buffer, or has no more than the Ethernet header, is skipped. */
  lemma OddRecordSkipped(s: Source, buffer: Buffer, stamp: seq<byte>, original: seq<byte>, frame: seq<byte>)
    requires |stamp| == 8 && |original| == 4 && (|frame| <= 14 || 1500 < |frame| < U32)
    requires Stands(s.data, s.pos, RecordOf(stamp, original, frame))
    ensures Advance(s, buffer) == Played(1, buffer, s.(pos := s.pos + 16 + |frame|))
  {
    StandsInTwo(s.data, s.pos, stamp, Le32(|frame|) + (original + frame));
    StandsInTwo(s.data, s.pos + 8, Le32(|frame|), original + frame);
    Le32RoundTrip(|frame|);
  }

  /** A record header cut short gives an error, and nothing moves. */
  lemma CutHeaderFails(s: Source, buffer: Buffer)
    requires s.pos < |s.data| < s.pos + 16
    ensures Advance(s, buffer) == Played(-1, buffer, s)
  {
  }

  /** So does a frame cut short, but the cursor is left behind the record header. */
  lemma CutFrameFails(s: Source, buffer: Buffer, stamp: seq<byte>, length: nat, original: seq<byte>)
    requires |stamp| == 8 && |original| == 4 && length < U32 && s.pos + 16 + length > |s.data|
    requires Stands(s.data, s.pos, stamp + (Le32(length) + original))
    ensures Advance(s, buffer) == Played(-1, buffer, s.(pos := s.pos + 16))
  {
    StandsInTwo(s.data, s.pos, stamp, Le32(length) + original);
    StandsInTwo(s.data, s.pos + 8, Le32(length), original);
    Le32RoundTrip(length);
  }

  /** The file header says version 2.4, no time zone, snap length 65535 and Ethernet as link type. */
  lemma FileHeaderRead()
    ensures var h := FileHeader();
            && FromLe32(h[0..4]) == 0xa1b2c3d4 && FromLe16(h[4], h[5]) == 2 && FromLe16(h[6], h[7]) == 4
            && FromLe32(h[8..12]) == 0 && FromLe32(h[12..16]) == 0
            && FromLe32(h[16..20]) == 65535 && FromLe32(h[20..24]) == 1
  {
    var h := FileHeader();
    var version := Le32(MAGIC) + Le16(2) + Le16(4);
    HeaderSlices(h, version, Le32(0), Le32(0), Le32(0xffff), Le32(1));
    Le32RoundTrip(0);
    Le32RoundTrip(0xffff);
    Le32RoundTrip(1);
    Le32RoundTrip(MAGIC);
    Le16RoundTrip(2);
    Le16RoundTrip(4);
    VersionSlices(h, Le32(MAGIC), Le16(2), Le16(4));
  }

  lemma HeaderSlices(h: seq<byte>, version: seq<byte>, zone: seq<byte>, figures: seq<byte>, snap: seq<byte>,
                     link: seq<byte>)
    requires |version| == 8 && |zone| == |figures| == |snap| == |link| == 4
    requires h == version + zone + figures + snap + link
    ensures Stands(h, 0, version) && h[8..12] == zone && h[12..16] == figures && h[16..20] == snap && h[20..24] == link
  {
    assert h[0..|h|] == h;
    StandsInTwo(h, 0, version + zone + figures + snap, link);
    StandsInTwo(h, 0, version + zone + figures, snap);
    StandsInTwo(h, 0, version + zone, figures);
    StandsInTwo(h, 0, version, zone);
  }

  lemma VersionSlices(h: seq<byte>, magic: seq<byte>, major: seq<byte>, minor: seq<byte>)
    requires |magic| == 4 && |major| == |minor| == 2 && Stands(h, 0, magic + major + minor)
    ensures h[0..4] == magic
    ensures h[4] == major[0] && h[5] == major[1] && h[6] == minor[0] && h[7] == minor[1]
  {
    StandsInTwo(h, 0, magic + major, minor);
    StandsInTwo(h, 0, magic, major);
    assert h[4..6][0] == h[4] && h[4..6][1] == h[5] && h[6..8][0] == h[6] && h[6..8][1] == h[7];
  }
}
