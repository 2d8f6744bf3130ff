/** Playing a capture file back, packet by packet. */
module PcapReplay {
  import opened Bytes
  import opened Options
  import opened PcapFile

  function Zeros(n: nat): (r: seq<byte>)
    ensures |r| == n
  {
    if n == 0 then [] else Zeros(n - 1) + [0]
  }

  /** `buffer` and `payload_`: arrays of 1500 bytes */
  type Buffer = b: seq<byte> | |b| == BUFFER ghost witness Zeros(BUFFER)

  type Header = b: seq<byte> | |b| == 8 ghost witness Zeros(8)

  /** The source between two calls. `payload` is the record buffer, `udp` the last UDP header
      copied out of it; both keep old bytes. `tcp` tells whether a TCP callback is set. */
  datatype Source = Source(data: seq<byte>, pos: nat, end: bool, payload: Buffer, udp: Header, tcp: bool)

  /** What to do with a record: which UDP header to keep, from where to copy the payload, and
      what to return. */
  datatype Verdict = Verdict(udpAt: Option<nat>, copyFrom: Option<nat>, ret: int)

  /** The `switch` over the TCP cases. */
  function TcpVerdict(incl: nat, header: nat, tcp: bool): Verdict {
    if incl < header then Verdict(None, None, 1) else Verdict(None, None, if tcp then incl - header else 2)
  }

  /** The `switch` over a record of `incl` bytes in the buffer `p`. */
  function Classify(p: Buffer, incl: nat, tcp: bool): (v: Verdict)
    requires ETHERNET < incl <= BUFFER
    ensures v.copyFrom.Some? ==> v.copyFrom.value + v.ret == incl && v.ret >= 0
    ensures v.udpAt.Some? ==> v.udpAt.value + 8 <= BUFFER
  {
    var etherType := FromLe16(p[12], p[13]);
    if etherType == 0x0008 then
      if p[23] == 17 then
        if incl < UDP then Verdict(Some(IP), None, 1) else Verdict(Some(IP), Some(UDP), incl - UDP)
      else if p[23] == 6 then TcpVerdict(incl, TCP, tcp)
      else Verdict(None, None, 2)
    else if etherType == 0xdd86 then
      if p[20] == 17 then
        if incl < UDP6 then Verdict(Some(IP6), None, 1) else Verdict(Some(IP6), Some(UDP6), incl - UDP6)
      else if p[20] == 6 then TcpVerdict(incl, TCP6, tcp)
      else Verdict(None, None, 2)
    else if etherType == 0x0081 then
      var inner := FromLe16(p[16], p[17]);
      if inner == 0x0008 then
        if p[27] == 17 then
          if incl < UDP + 4 then Verdict(Some(IP), None, 1) else Verdict(Some(IP), Some(UDP + 4), incl - UDP - 4)
        else if p[27] == 6 then TcpVerdict(incl, TCP + 4, tcp)
        else Verdict(None, None, 2)
      else if inner == 0xdd86 then
        if p[27] == 17 then
          if incl < UDP6 + 4 then Verdict(None, None, 1) else Verdict(Some(IP6), None, incl - UDP6 - 4)
        else if p[27] == 6 then TcpVerdict(incl, TCP6 + 4, tcp)
        else Verdict(None, None, 2)
      else Verdict(None, None, 2)
    else Verdict(None, None, 1)
  }

  datatype Played = Played(ret: int, buffer: Buffer, source: Source)

  /** Overwrites the front of a buffer. */
  function Over(front: seq<byte>, under: Buffer): (r: Buffer)
    requires |front| <= BUFFER
    ensures r[..|front|] == front && r[|front|..] == under[|front|..]
  {
    front + under[|front|..]
  }

  /** The body length in the record header at the cursor. */
  function InclLen(s: Source): nat
    requires s.pos + RECORD_HEADER <= |s.data|
  {
    FromLe32(s.data[s.pos + 8..s.pos + 12])
  }

  /** What `next` does once a record of `incl` bytes has been read over the record buffer. */
  function Unwrap(s: Source, incl: nat, buffer: Buffer): (r: Played)
    requires ETHERNET < incl <= BUFFER
    ensures r.source.data == s.data
  {
    var v := Classify(s.payload, incl, s.tcp);
    Played(v.ret,
           if v.copyFrom.Some? then Over(s.payload[v.copyFrom.value..incl], buffer) else buffer,
           if v.udpAt.Some? then s.(udp := s.payload[v.udpAt.value..v.udpAt.value + 8]) else s)
  }

  /** The `incl` bytes at the cursor, read over the record buffer. */
  function Filled(s: Source, incl: nat): Source
    requires incl <= BUFFER && s.pos + incl <= |s.data|
  {
    s.(pos := s.pos + incl, payload := Over(s.data[s.pos..s.pos + incl], s.payload))
  }

  /** What `next` does behind a record header: records of odd size are skipped. */
  function Carry(s: Source, incl: nat, buffer: Buffer): (r: Played)
    ensures r.source.data == s.data
  {
    if s.pos + incl > |s.data| then Played(-1, buffer, s)
    else if ETHERNET < incl <= BUFFER then Unwrap(Filled(s, incl), incl, buffer)
    else Played(1, buffer, s.(pos := s.pos + incl))
  }

  /** `next`: `buffer` is the packet's buffer before and after. */
  function Advance(s: Source, buffer: Buffer): (r: Played)
    ensures r.source.data == s.data
  {
    if s.pos == |s.data| then Played(-1, buffer, s.(end := true))
    else if s.pos + RECORD_HEADER > |s.data| then Played(-1, buffer, s)
    else Carry(s.(pos := s.pos + RECORD_HEADER), InclLen(s), buffer)
  }

  /** `distinationPort` */
  function DestinationPort(s: Source): nat
  {
    Swap16(FromLe16(s.udp[2], s.udp[3]))
  }

  class PcapSource {
    var data: seq<byte>
    var pos: nat
    var end: bool
    var payload: Buffer
    var udp: Header
    var magic: nat
    const tcp: bool

    ghost function State(): Source
      reads this
    {
      Source(data, pos, end, payload, udp, tcp)
    }

    constructor (tcp: bool)
      ensures this.tcp == tcp && !end && magic == 0
    {
      this.tcp := tcp;
      data, pos, end, magic := [], 0, false, 0;
      payload := Zeros(BUFFER);
      udp := Zeros(8);
    }

    /** `read` of a structure or of raw bytes */
    method Read(length: nat) returns (ok: bool, bytes: seq<byte>)
      modifies `pos
      ensures ok == (old(pos) + length <= |data|)
      ensures pos == if ok then old(pos) + length else old(pos)
      ensures bytes == if ok then data[old(pos)..old(pos) + length] else []
    {
      if pos + length > |data| {
        return false, [];
      }
      bytes := data[pos..pos + length];
      pos := pos + length;
      return true, bytes;
    }

    method Move(length: nat) returns (ok: bool)
      modifies `pos
      ensures ok == (old(pos) + length <= |data|)
      ensures pos == if ok then old(pos) + length else old(pos)
    {
      if pos + length > |data| {
        return false;
      }
      pos := pos + length;
      return true;
    }

    /** `Open`, of a file that exists or not. A file too short for a header is judged by the
        magic number read last. */
    method Open(file: Option<seq<byte>>) returns (ok: bool)
      modifies `data, `pos, `magic
      ensures file.None? ==> !ok
      ensures file.Some? ==>
                && data == file.value
                && pos == (if |data| >= FILE_HEADER then FILE_HEADER else 0)
                && magic == (if |data| >= FILE_HEADER then FromLe32(data[..4]) else old(magic))
                && ok == (magic == MAGIC)
    {
      pos := 0;
      if file.None? {
        return false;
      }
      data := file.value;
      var read, header := Read(FILE_HEADER);
      if read {
        assert header[..4] == data[..4];
        magic := FromLe32(header[..4]);
      }
      return magic == MAGIC;
    }

    method Deliver(incl: nat, buffer: array<byte>) returns (ret: int)
      requires buffer.Length == BUFFER && ETHERNET < incl <= BUFFER
      modifies `udp, buffer
      ensures Played(ret, buffer[..], State()) == Unwrap(old(State()), incl, old(buffer[..]))
    {
      var verdict := Classify(payload, incl, tcp);
      if verdict.udpAt.Some? {
        udp := payload[verdict.udpAt.value..verdict.udpAt.value + 8];
      }
      if verdict.copyFrom.Some? {
        var from := payload[verdict.copyFrom.value..incl];
        forall i | 0 <= i < |from| {
          buffer[i] := from[i];
        }
        assert buffer[..] == Over(from, old(buffer[..]));
      }
      return verdict.ret;
    }

    method ReadBody(incl: nat, buffer: array<byte>) returns (ret: int)
      requires buffer.Length == BUFFER
      modifies `pos, `payload, `udp, buffer
      ensures Played(ret, buffer[..], State()) == Carry(old(State()), incl, old(buffer[..]))
    {
      if incl <= BUFFER && incl > ETHERNET {
        var ok, body := Read(incl);
        if !ok {
          return -1;
        }
        payload := Over(body, payload);
        assert State() == Filled(old(State()), incl);
        ret := Deliver(incl, buffer);
      } else {
        var ok := Move(incl);
        return if ok then 1 else -1;
      }
    }

    method Next(buffer: array<byte>) returns (ret: int)
      requires buffer.Length == BUFFER
      modifies `pos, `end, `payload, `udp, buffer
      ensures Played(ret, buffer[..], State()) == Advance(old(State()), old(buffer[..]))
    {
      if pos == |data| {
        end := true;
        return -1;
      }
      var ok, record := Read(RECORD_HEADER);
      if !ok {
        return -1;
      }
      assert record[8..12] == data[old(pos) + 8..old(pos) + 12];
      ret := ReadBody(FromLe32(record[8..12]), buffer);
    }
  }

  // ---------------------------------------------------------------- save, then play

  lemma SwapTwice(v: nat)
    requires v < U16
    ensures Swap16(FromLe16(Le16(Swap16(v))[0], Le16(Swap16(v))[1])) == v
  {
    Le16RoundTrip(Swap16(v));
    assert Swap16(v) / 256 == v % 256 && Swap16(v) % 256 == v / 256;
  }

  /** An IPv4 record with UDP in it is copied from behind its headers. */
  lemma UnwrapUdp(s: Source, buffer: Buffer, incl: nat)
    requires UDP <= incl <= BUFFER && s.payload[12] == 0x08 && s.payload[13] == 0x00 && s.payload[23] == 17
    ensures Unwrap(s, incl, buffer)
            == Played(incl - UDP, Over(s.payload[UDP..incl], buffer), s.(udp := s.payload[IP..IP + 8]))
  {
  }

  lemma HeaderOf(p: seq<byte>, payload: seq<byte>, port: nat)
    requires |payload| + 28 < U16 && port < U16 && UDP + |payload| <= |p|
    requires p[..UDP + |payload|] == UdpHeader(|payload|, port) + payload
    ensures p[12] == 0x08 && p[13] == 0x00 && p[23] == 17
    ensures p[UDP..UDP + |payload|] == payload
    ensures Swap16(FromLe16(p[36], p[37])) == port
  {
    var front, n := p[..UDP + |payload|], UDP + |payload|;
    assert p[12] == front[12] && p[13] == front[13] && p[23] == front[23] && p[36] == front[36] && p[37] == front[37];
    assert front[UDP..n] == payload;
    SwapTwice(port);
  }

  /** The UDP record that the saver makes is unwrapped to its payload. */
  lemma Unwrapped(s: Source, buffer: Buffer, payload: seq<byte>, port: nat)
    requires |payload| + UDP <= BUFFER && port < U16
    requires s.payload[..UDP + |payload|] == UdpHeader(|payload|, port) + payload
    ensures var r := Unwrap(s, UDP + |payload|, buffer);
            && r.ret == |payload| && r.buffer == Over(payload, buffer)
            && r.source.pos == s.pos && r.source.end == s.end && DestinationPort(r.source) == port
  {
    HeaderOf(s.payload, payload, port);
    UnwrapUdp(s, buffer, UDP + |payload|);
  }

  lemma RecordParts(p: Packet, port: nat)
    requires Fits(p) && port < U16
    ensures Record(p, port)[8..12] == Length(p)
    ensures Record(p, port)[RECORD_HEADER..|Record(p, port)|] == UdpHeader(|p.payload|, port) + p.payload
  {
    var front, body := p.stamp + Length(p) + Length(p), UdpHeader(|p.payload|, port) + p.payload;
    assert Record(p, port) == front + body;
    assert front[8..12] == Length(p);
  }

  /** A record the saver wrote, met at the cursor, is read whole. */
  lemma RecordFills(s: Source, p: Packet, port: nat)
    requires Fits(p) && port < U16
    requires Stands(s.data, s.pos, Record(p, port))
    ensures s.pos + RECORD_HEADER + UDP + |p.payload| <= |s.data|
    ensures InclLen(s) == UDP + |p.payload|
    ensures Filled(s.(pos := s.pos + RECORD_HEADER), UDP + |p.payload|).payload[..UDP + |p.payload|]
            == UdpHeader(|p.payload|, port) + p.payload
  {
    var record := Record(p, port);
    RecordParts(p, port);
    Part(s.data, s.pos, record, 8, 12);
    Part(s.data, s.pos, record, RECORD_HEADER, |record|);
    Le32RoundTrip(UDP + |p.payload|);
  }

  /** A record the saver wrote, met at the cursor, plays back as the packet it was made from. */
  lemma RecordPlays(s: Source, buffer: Buffer, p: Packet, port: nat)
    requires Fits(p) && port < U16
    requires Stands(s.data, s.pos, Record(p, port))
    ensures var r := Advance(s, buffer);
            && r.ret == |p.payload| && r.buffer == Over(p.payload, buffer)
            && r.source.pos == s.pos + |Record(p, port)| && r.source.end == s.end
            && DestinationPort(r.source) == port
  {
    RecordFills(s, p, port);
    Unwrapped(Filled(s.(pos := s.pos + RECORD_HEADER), UDP + |p.payload|), buffer, p.payload, port);
  }

  /** What has been played so far: the packets, their ports, and where that left things. */
  datatype Session = Session(payloads: seq<seq<byte>>, ports: seq<nat>, buffer: Buffer, source: Source)

  /** One more call of `next`, keeping the packet it gave and its port. */
  function PlayOne(r: Session): Session {
    var p := Advance(r.source, r.buffer);
    Session(r.payloads + [if 0 <= p.ret <= BUFFER then p.buffer[..p.ret] else []],
            r.ports + [DestinationPort(p.source)], p.buffer, p.source)
  }

  function Repeat<S>(step: S -> S, s: S, n: nat): S {
    if n == 0 then s else step(Repeat(step, s, n - 1))
  }

  /** `n` calls of `next` */
  function Play(r: Session, n: nat): Session {
    Repeat(PlayOne, r, n)
  }

  function Payloads(packets: seq<Packet>): (r: seq<seq<byte>>)
    ensures |r| == |packets|
  {
    seq(|packets|, i requires 0 <= i < |packets| => packets[i].payload)
  }

  function Ports(n: nat, port: nat): (r: seq<nat>)
    ensures |r| == n
  {
    seq(n, _ => port)
  }

  /** `q` is `r` after the packets have been played, all with this port, up to `pos`. */
  predicate Heard(r: Session, q: Session, packets: seq<Packet>, port: nat, pos: nat) {
    && q.payloads == r.payloads + Payloads(packets)
    && q.ports == r.ports + Ports(|packets|, port)
    && q.source.pos == pos && q.source.end == r.source.end && q.source.data == r.source.data
  }

  /** A step that plays a saved record when one stands at the cursor. */
  ghost predicate Faithful(step: Session -> Session) {
    forall r: Session, p: Packet, port: nat {:trigger Stands(r.source.data, r.source.pos, Record(p, port))} ::
      Fits(p) && port < U16 && Stands(r.source.data, r.source.pos, Record(p, port))
      ==> Heard(r, step(r), [p], port, r.source.pos + |Record(p, port)|)
  }

  lemma PlayOneFaithful()
    ensures Faithful(PlayOne)
  {
    forall r: Session, p: Packet, port: nat
      | Fits(p) && port < U16 && Stands(r.source.data, r.source.pos, Record(p, port))
      ensures Heard(r, PlayOne(r), [p], port, r.source.pos + |Record(p, port)|)
    {
      RecordPlays(r.source, r.buffer, p, port);
      assert Payloads([p]) == [p.payload] && Ports(1, port) == [port];
    }
  }

  lemma StepHears(step: Session -> Session, q: Session, p: Packet, port: nat)
    requires Faithful(step) && Fits(p) && port < U16 && Stands(q.source.data, q.source.pos, Record(p, port))
    ensures Heard(q, step(q), [p], port, q.source.pos + |Record(p, port)|)
  {
  }

  lemma HeardMore(r: Session, q: Session, t: Session, a: seq<Packet>, b: seq<Packet>, port: nat)
    requires Heard(r, q, a, port, q.source.pos) && Heard(q, t, b, port, t.source.pos)
    ensures Heard(r, t, a + b, port, t.source.pos)
  {
    assert Payloads(a + b) == Payloads(a) + Payloads(b);
    assert Ports(|a + b|, port) == Ports(|a|, port) + Ports(|b|, port);
  }

  lemma RecordsParts(data: seq<byte>, at: nat, packets: seq<Packet>, port: nat)
    requires packets != [] && AllFit(packets) && port < U16 && Stands(data, at, Records(packets, port))
    ensures var n := |packets| - 1;
            var front, last := Records(packets[..n], port), Record(packets[n], port);
            && Stands(data, at, front) && Stands(data, at + |front|, last)
            && |Records(packets, port)| == |front| + |last|
  {
    var n := |packets| - 1;
    StandsInTwo(data, at, Records(packets[..n], port), Record(packets[n], port));
  }

  /** The records of a save, met at the cursor, play back in order. */
  lemma {:induction false} RecordsPlay(step: Session -> Session, r: Session, packets: seq<Packet>, port: nat)
    requires Faithful(step) && AllFit(packets) && port < U16
    requires Stands(r.source.data, r.source.pos, Records(packets, port))
    ensures Heard(r, Repeat(step, r, |packets|), packets, port, r.source.pos + |Records(packets, port)|)
    decreases |packets|
  {
    if packets != [] {
      var most, last := packets[..|packets| - 1], packets[|packets| - 1];
      RecordsParts(r.source.data, r.source.pos, packets, port);
      RecordsPlay(step, r, most, port);
      var q := Repeat(step, r, |most|);
      StepHears(step, q, last, port);
      HeardMore(r, q, step(q), most, [last], port);
      assert most + [last] == packets;
    }
  }

  /** A capture made by one `Save`, opened and played: every packet comes back, in order and with
      its port; the cursor then stands at the end, and one more call says so. */
  lemma SavedPlaysBack(s: Source, buffer: Buffer, packets: seq<Packet>, port: int)
    requires AllFit(packets) && s.data == Saved(None, packets, port) && s.pos == FILE_HEADER
    ensures var r := Play(Session([], [], buffer, s), |packets|);
            && r.payloads == Payloads(packets) && r.ports == Ports(|packets|, Port(port))
            && r.source.pos == |s.data| && r.source.end == s.end
            && Advance(r.source, r.buffer) == Played(-1, r.buffer, r.source.(end := true))
  {
    var records := Records(packets, Port(port));
    assert s.data[FILE_HEADER..FILE_HEADER + |records|] == records;
    PlayOneFaithful();
    RecordsPlay(PlayOne, Session([], [], buffer, s), packets, Port(port));
  }

  /** The file a save starts opens. */
  lemma SavedOpens(packets: seq<Packet>, port: int)
    requires AllFit(packets)
    ensures var data := Saved(None, packets, port);
            |data| >= FILE_HEADER && FromLe32(data[..4]) == MAGIC
  {
    assert Saved(None, packets, port)[..4] == Le32(MAGIC);
    Le32RoundTrip(MAGIC);
  }
}
