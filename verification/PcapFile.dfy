/** Saving UDP packets to a capture file and playing the file back. The saver wraps each
    packet in made-up Ethernet, IPv4 and UDP headers; the source unwraps them. Structures are
    packed and little-endian, as on the machines the code runs on. */
module PcapFile {
  import opened Bytes
  import opened Options

  const MAGIC: nat := 0xa1b2c3d4
  const BUFFER: nat := 1500
  const FILE_HEADER: nat := 24
  const RECORD_HEADER: nat := 16
  /** sizeof Ethernet, PcapIPHeader, PcapUDPHeader, PcapTCPHeader and their IPv6 kin */
  const ETHERNET: nat := 14
  const IP: nat := 34
  const UDP: nat := 42
  const TCP: nat := 54
  const IP6: nat := 54
  const UDP6: nat := 62
  const TCP6: nat := 74

  // ---------------------------------------------------------------- what the saver writes

  /** `((v & 0xff) << 8) | (v >> 8)` */
  function Swap16(v: nat): (r: nat)
    requires v < U16
    ensures r < U16
  {
    v % 256 * 256 + v / 256
  }

  /** A swapped number stored little-endian is the number in network order. */
  lemma SwappedIsNetworkOrder(v: nat)
    requires v < U16
    ensures Le16(Swap16(v)) == Be16(v)
  {
    assert Swap16(v) / 256 == v % 256 && Swap16(v) % 256 == v / 256;
  }

  function FileHeader(): (r: seq<byte>)
    ensures |r| == FILE_HEADER
  {
    Le32(MAGIC) + Le16(2) + Le16(4) + Le32(0) + Le32(0) + Le32(0xffff) + Le32(1)
  }

  /** `PcapUDPHeader(length, port)` */
  function UdpHeader(length: nat, port: nat): (r: seq<byte>)
    requires length + 28 < U16 && port < U16
    ensures |r| == UDP
  {
    var total := Le16(Swap16(length + 8 + 20));
    var destination := Le16(Swap16(port));
    var udpLength := Le16(Swap16(length + 8));
    [0xff, 0xff, 0xff, 0xff, 0xff, 0xff, 0x00, 0x0a, 0x35, 0x00, 0x1e, 0x53, 0x08, 0x00,
     0x45, 0x00, total[0], total[1], 0x7a, 0xf1, 0x40, 0x00, 0x40, 0x11, 0xf8, 0x80,
     0xc0, 0xa8, 0x01, 0xc9, 0xff, 0xff, 0xff, 0xff,
     0x27, 0x10, destination[0], destination[1], udpLength[0], udpLength[1], 0x00, 0x00]
  }

  /** A packet to save, and the eight bytes that the record's two time fields, which the saver
      never sets, happen to hold. */
  datatype Packet = Packet(payload: seq<byte>, stamp: seq<byte>)

  /** The saver builds each record in a buffer of 1500 bytes. */
  predicate Fits(p: Packet) {
    |p.payload| + UDP <= BUFFER && |p.stamp| == 8
  }

  function Length(p: Packet): (r: seq<byte>)
    requires Fits(p)
    ensures |r| == 4
  {
    Le32(|p.payload| + UDP)
  }

  function Record(p: Packet, port: nat): (r: seq<byte>)
    requires Fits(p) && port < U16
    ensures |r| == RECORD_HEADER + UDP + |p.payload|
  {
    (p.stamp + Length(p) + Length(p)) + (UdpHeader(|p.payload|, port) + p.payload)
  }

  predicate AllFit(packets: seq<Packet>) {
    forall i :: 0 <= i < |packets| ==> Fits(packets[i])
  }

  function Records(packets: seq<Packet>, port: nat): seq<byte>
    requires AllFit(packets) && port < U16
    decreases |packets|
  {
    if packets == [] then []
    else Records(packets[..|packets| - 1], port) + Record(packets[|packets| - 1], port)
  }

  /** The port is an `int` that ends up in 16 bits. */
  function Port(port: int): (r: nat)
    ensures r < U16
  {
    port % U16
  }

  /** `Save`: a new file gets a header, an old one is appended to. */
  function Saved(existing: Option<seq<byte>>, packets: seq<Packet>, port: int): seq<byte>
    requires AllFit(packets)
  {
    (if existing.None? then FileHeader() else existing.value) + Records(packets, Port(port))
  }

  method Save(existing: Option<seq<byte>>, packets: seq<Packet>, port: int) returns (file: seq<byte>)
    requires AllFit(packets)
    ensures file == Saved(existing, packets, port)
  {
    if existing.None? {
      file := FileHeader();
    } else {
      file := existing.value;
    }
    ghost var start := file;
    assert Records(packets[..0], Port(port)) == [] && start + [] == start;
    for i := 0 to |packets|
      invariant file == start + Records(packets[..i], Port(port))
    {
      assert packets[..i + 1][..i] == packets[..i];
      file := file + Record(packets[i], Port(port));
      Associative(start, Records(packets[..i], Port(port)), Record(packets[i], Port(port)));
    }
    assert packets[..|packets|] == packets;
  }

  function Flatten(frames: seq<seq<Packet>>): seq<Packet>
    decreases |frames|
  {
    if frames == [] then [] else Flatten(frames[..|frames| - 1]) + frames[|frames| - 1]
  }

  lemma RecordsMore(packets: seq<Packet>, p: Packet, port: nat)
    requires AllFit(packets) && Fits(p) && port < U16
    ensures AllFit(packets + [p]) && Records(packets + [p], port) == Records(packets, port) + Record(p, port)
  {
    var more := packets + [p];
    assert more[..|more| - 1] == packets && more[|more| - 1] == p;
  }

  lemma {:induction false} RecordsConcat(a: seq<Packet>, b: seq<Packet>, port: nat)
    requires AllFit(a) && AllFit(b) && port < U16
    ensures AllFit(a + b) && Records(a + b, port) == Records(a, port) + Records(b, port)
    decreases |b|
  {
    if b == [] {
      assert a + b == a && Records(a, port) + [] == Records(a, port);
    } else {
      var n := |b| - 1;
      assert a + b == (a + b[..n]) + [b[n]];
      RecordsConcat(a, b[..n], port);
      RecordsMore(a + b[..n], b[n], port);
      Associative(Records(a, port), Records(b[..n], port), Record(b[n], port));
    }
  }

  /** Saving twice is saving everything at once. */
  lemma SavedTwice(existing: Option<seq<byte>>, a: seq<Packet>, b: seq<Packet>, port: int)
    requires AllFit(a) && AllFit(b)
    ensures AllFit(a + b)
    ensures Saved(Some(Saved(existing, a, port)), b, port) == Saved(existing, a + b, port)
  {
    RecordsConcat(a, b, Port(port));
    Associative(if existing.None? then FileHeader() else existing.value,
                Records(a, Port(port)), Records(b, Port(port)));
  }

  /** Several frames, one after the other; with no frame at all no file is made. */
  function SavedFrames(existing: Option<seq<byte>>, frames: seq<seq<Packet>>, port: int): Option<seq<byte>>
    requires forall i :: 0 <= i < |frames| ==> AllFit(frames[i])
    decreases |frames|
  {
    if frames == [] then existing
    else Some(Saved(SavedFrames(existing, frames[..|frames| - 1], port), frames[|frames| - 1], port))
  }

  method SaveFrames(existing: Option<seq<byte>>, frames: seq<seq<Packet>>, port: int)
    returns (file: Option<seq<byte>>)
    requires forall i :: 0 <= i < |frames| ==> AllFit(frames[i])
    ensures file == SavedFrames(existing, frames, port)
  {
    file := existing;
    for i := 0 to |frames|
      invariant file == SavedFrames(existing, frames[..i], port)
    {
      assert frames[..i + 1][..i] == frames[..i];
      var next := Save(file, frames[i], port);
      file := Some(next);
    }
    assert frames[..|frames|] == frames;
  }

  lemma {:induction false} SavedFramesFlat(existing: Option<seq<byte>>, frames: seq<seq<Packet>>, port: int)
    requires frames != [] && forall i :: 0 <= i < |frames| ==> AllFit(frames[i])
    ensures AllFit(Flatten(frames))
    ensures SavedFrames(existing, frames, port) == Some(Saved(existing, Flatten(frames), port))
    decreases |frames|
  {
    var most, last := frames[..|frames| - 1], frames[|frames| - 1];
    if most == [] {
      assert Flatten(frames) == [] + last == last;
    } else {
      SavedFramesFlat(existing, most, port);
      SavedTwice(existing, Flatten(most), last, port);
    }
  }

  /** The written lengths: IPv4 total length, by section 3.1 of RFC 791 the header of
      4 * IHL bytes and the data, and UDP length, by RFC 768 its header and its data. */
  lemma WrittenLengths(length: nat, port: nat)
    requires length + 28 < U16 && port < U16
    ensures var h := UdpHeader(length, port);
            var version, ihl := h[14] as nat / 16, h[14] as nat % 16;
            && version == 4 && h[23] == 17
            && FromBe16(h[16], h[17]) == 4 * ihl + FromBe16(h[38], h[39])
            && FromBe16(h[38], h[39]) == 8 + length
            && ETHERNET + 4 * ihl + 8 == |h|
            && FromBe16(h[34], h[35]) == 10000 && FromBe16(h[36], h[37]) == port
            && FromBe16(h[12], h[13]) == 0x0800
  {
    SwappedIsNetworkOrder(length + 28);
    SwappedIsNetworkOrder(length + 8);
    SwappedIsNetworkOrder(port);
    Le16RoundTrip(length + 28);
    Le16RoundTrip(length + 8);
    Le16RoundTrip(port);
  }

  /** A record says twice how long its frame is. */
  lemma RecordLengths(p: Packet, port: nat)
    requires Fits(p) && port < U16
    ensures var r := Record(p, port);
            && r[..8] == p.stamp && FromLe32(r[8..12]) == FromLe32(r[12..16]) == 42 + |p.payload| == |r| - 16
  {
    var r := Record(p, port);
    var frame := UdpHeader(|p.payload|, port) + p.payload;
    var n := Length(p);
    assert r == (p.stamp + n + n) + frame && r[0..|r|] == r;
    StandsInTwo(r, 0, p.stamp + n + n, frame);
    StandsInTwo(r, 0, p.stamp + n, n);
    StandsInTwo(r, 0, p.stamp, n);
    Le32RoundTrip(|p.payload| + UDP);
  }
}
