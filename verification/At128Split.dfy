/** Closing frames on the AT128: a jump of the azimuth closes a frame, and so may a receive
    timeout near the end of a mirror field. A flag lets the jump that follows a timeout
    pass without closing the same field a second time. */
module At128Split {
  import opened Integers

  const TOLERANCE: int := 1000
  const ANGULAR_RESOLUTION: int := 256
  const MARGINAL_ANGLE: int := 7625
  const ACCEPTANCE_ANGLE: int := 200

  /** A packet from the buffer: the azimuth of each block, or the stand-in that the receive
      thread queues on a timeout (its two delimiter bytes are zero). */
  datatype Packet = Data(azimuths: seq<int>) | Timeout

  /** `useAngle` is false from an accepted timeout to the next jump. */
  datatype Latch = Latch(useAngle: bool, last: int)

  const FRESH := Latch(true, 0)

  /** A last azimuth of zero is taken for none yet. */
  predicate Jump(last: int, azimuth: int) {
    Abs(azimuth - last) > TOLERANCE && last != 0
  }

  predicate Accepted(starts: seq<int>, last: int)
    requires |starts| == 3
  {
    exists i :: 0 <= i < 3 && Abs(starts[i] / ANGULAR_RESOLUTION + MARGINAL_ANGLE - last) < ACCEPTANCE_ANGLE
  }

  datatype Decoded = Decoded(latch: Latch, complete: bool)

  /** The block loop of `DecodePacket`. */
  function DecodeBlocks(latch: Latch, complete: bool, azimuths: seq<int>): Decoded
    decreases |azimuths|
  {
    if azimuths == [] then Decoded(latch, complete)
    else
      var a := azimuths[0];
      if Jump(latch.last, a)
      then DecodeBlocks(Latch(true, a), complete || latch.useAngle, azimuths[1..])
      else DecodeBlocks(latch.(last := a), complete, azimuths[1..])
  }

  /** `DecodePacket`: a refused packet leaves everything as it was. */
  function Decode(starts: seq<int>, latch: Latch, packet: Packet): Decoded
    requires |starts| == 3
  {
    match packet
    case Timeout => if Accepted(starts, latch.last) then Decoded(latch.(useAngle := false), true)
                    else Decoded(latch, false)
    case Data(azimuths) => DecodeBlocks(latch, false, azimuths)
  }

  /** One packet of the frame loop: a packet that closes a frame, unless it is a timeout, is
      decoded again as the first packet of the next one. */
  function Step(starts: seq<int>, latch: Latch, packet: Packet): Decoded
    requires |starts| == 3
  {
    var once := Decode(starts, latch, packet);
    if once.complete && packet.Data? then Decoded(Decode(starts, once.latch, packet).latch, true)
    else once
  }

  class At128Parser {
    const starts: seq<int>
    var useAngle: bool
    var last: int

    ghost function State(): Latch
      reads this
    {
      Latch(useAngle, last)
    }

    constructor (starts: seq<int>)
      ensures State() == FRESH && this.starts == starts
    {
      this.starts := starts;
      useAngle, last := true, 0;
    }

    method IsNeedFrameSplit(azimuth: int) returns (split: bool)
      ensures split == Jump(last, azimuth)
    {
      return Abs(azimuth - last) > TOLERANCE && last != 0;
    }

    /** `ret` is 0 for a decoded packet and -1 for a refused one. */
    method DecodePacket(packet: Packet) returns (ret: int, scanComplete: bool)
      requires |starts| == 3
      modifies this
      ensures Decoded(State(), scanComplete) == Decode(starts, old(State()), packet)
      ensures ret == if packet.Timeout? && !Accepted(starts, old(last)) then -1 else 0
    {
      scanComplete := false;
      if packet.Timeout? {
        for i := 0 to 3
          invariant State() == old(State())
          invariant forall k :: 0 <= k < i ==>
              Abs(starts[k] / ANGULAR_RESOLUTION + MARGINAL_ANGLE - last) >= ACCEPTANCE_ANGLE
        {
          var angle := starts[i] / ANGULAR_RESOLUTION + MARGINAL_ANGLE - last;
          if Abs(angle) < ACCEPTANCE_ANGLE {
            useAngle := false;
            return 0, true;
          }
        }
        return -1, false;
      }
      for blockid := 0 to |packet.azimuths|
        invariant DecodeBlocks(State(), scanComplete, packet.azimuths[blockid..])
                  == DecodeBlocks(old(State()), false, packet.azimuths)
      {
        var azimuth := packet.azimuths[blockid];
        assert packet.azimuths[blockid..][1..] == packet.azimuths[blockid + 1..];
        var split := IsNeedFrameSplit(azimuth);
        if split {
          if !useAngle {
            useAngle := true;
          } else {
            scanComplete := true;
          }
        }
        last := azimuth;
      }
      return 0, scanComplete;
    }
  }

  // ---------------------------------------------------------------- which timeouts are accepted

  /** Where the field that starts at `start`, in 1/25600 degree, is expected to end, in hundredths */
  function FieldEnd(start: int): int {
    start / 256 + 7625
  }

  /** Near the end of each of the three fields, less than two degrees away, a timeout closes it and stays
      pending ... */
  lemma TimeoutAccepted(starts: seq<int>, latch: Latch, i: nat)
    requires |starts| == 3 && i < 3 && FieldEnd(starts[i]) - 200 < latch.last < FieldEnd(starts[i]) + 200
    ensures Decode(starts, latch, Timeout) == Decoded(Latch(false, latch.last), true)
  {
    assert Abs(starts[i] / ANGULAR_RESOLUTION + MARGINAL_ANGLE - latch.last) < ACCEPTANCE_ANGLE;
  }

  /** ... and away from the ends of all three it is refused. */
  lemma TimeoutRefused(starts: seq<int>, latch: Latch)
    requires |starts| == 3
    requires forall i :: 0 <= i < 3 ==> latch.last <= FieldEnd(starts[i]) - 200 || FieldEnd(starts[i]) + 200 <= latch.last
    ensures Decode(starts, latch, Timeout) == Decoded(latch, false)
  {
  }

  /** A block more than ten degrees from the last azimuth jumps, unless that azimuth was zero; one nearer does not. */
  lemma JumpsBeyondTenDegrees(last: int, azimuth: int)
    ensures BlockJumps(last, [azimuth]) == if last != 0 && (azimuth < last - 1000 || last + 1000 < azimuth) then 1 else 0
  {
  }

  // ---------------------------------------------------------------- counting over runs

  /** Where a packet leaves the azimuth. */
  function LastAzimuth(last: int, packet: Packet): int {
    if packet.Data? && packet.azimuths != [] then packet.azimuths[|packet.azimuths| - 1] else last
  }

  /** Blocks of a packet at which the azimuth jumps. */
  function BlockJumps(last: int, azimuths: seq<int>): nat
    decreases |azimuths|
  {
    if azimuths == [] then 0
    else (if Jump(last, azimuths[0]) then 1 else 0) + BlockJumps(azimuths[0], azimuths[1..])
  }

  /** Packets in which the azimuth jumps. */
  function Jumps(last: int, packets: seq<Packet>): nat
    decreases |packets|
  {
    if packets == [] then 0
    else
      var p := packets[0];
      (if p.Data? && BlockJumps(last, p.azimuths) > 0 then 1 else 0) + Jumps(LastAzimuth(last, p), packets[1..])
  }

  function Run(starts: seq<int>, latch: Latch, packets: seq<Packet>): Latch
    requires |starts| == 3
    decreases |packets|
  {
    if packets == [] then latch
    else Run(starts, Step(starts, latch, packets[0]).latch, packets[1..])
  }

  /** Frames closed by the run. */
  function Closes(starts: seq<int>, latch: Latch, packets: seq<Packet>): nat
    requires |starts| == 3
    decreases |packets|
  {
    if packets == [] then 0
    else
      var step := Step(starts, latch, packets[0]);
      (if step.complete then 1 else 0) + Closes(starts, step.latch, packets[1..])
  }

  /** Timeouts accepted although the one before has not been followed by a jump yet. */
  function DoubleTimeouts(starts: seq<int>, latch: Latch, packets: seq<Packet>): nat
    requires |starts| == 3
    decreases |packets|
  {
    if packets == [] then 0
    else
      (if packets[0].Timeout? && Accepted(starts, latch.last) && !latch.useAngle then 1 else 0)
      + DoubleTimeouts(starts, Step(starts, latch, packets[0]).latch, packets[1..])
  }

  /** Packets with several jumps, met while a timeout was pending: one jump clears it, and another
      closes the frame. */
  function Straddles(starts: seq<int>, latch: Latch, packets: seq<Packet>): nat
    requires |starts| == 3
    decreases |packets|
  {
    if packets == [] then 0
    else
      var p := packets[0];
      (if p.Data? && BlockJumps(latch.last, p.azimuths) > 1 && !latch.useAngle then 1 else 0)
      + Straddles(starts, Step(starts, latch, p).latch, packets[1..])
  }

  function Pending(latch: Latch): nat { if latch.useAngle then 0 else 1 }

  /** The block loop, told by the number of its jumps. */
  lemma {:induction false} BlocksDecoded(latch: Latch, complete: bool, azimuths: seq<int>)
    ensures var n := BlockJumps(latch.last, azimuths);
            DecodeBlocks(latch, complete, azimuths)
            == Decoded(Latch(latch.useAngle || n > 0, LastAzimuth(latch.last, Data(azimuths))),
                       complete || (n > 0 && latch.useAngle) || n > 1)
    decreases |azimuths|
  {
    if azimuths != [] {
      var a := azimuths[0];
      if Jump(latch.last, a) {
        BlocksDecoded(Latch(true, a), complete || latch.useAngle, azimuths[1..]);
      } else {
        BlocksDecoded(latch.(last := a), complete, azimuths[1..]);
      }
    }
  }

  /** A packet closes a frame if it jumps with no timeout pending, or jumps more than once; and
      decoding it again does nothing. */
  lemma DataStep(starts: seq<int>, latch: Latch, azimuths: seq<int>)
    requires |starts| == 3
    ensures var n := BlockJumps(latch.last, azimuths);
            Step(starts, latch, Data(azimuths))
            == Decoded(Latch(latch.useAngle || n > 0, LastAzimuth(latch.last, Data(azimuths))),
                       (n > 0 && latch.useAngle) || n > 1)
  {
    BlocksDecoded(latch, false, azimuths);
    BlocksDecoded(Decode(starts, latch, Data(azimuths)).latch, false, azimuths);
  }

  /** Every closed frame is a jump, a pending timeout, a doubled timeout, or a second jump in one
      packet behind a timeout. */
  lemma {:induction false} Conservation(starts: seq<int>, latch: Latch, packets: seq<Packet>)
    requires |starts| == 3
    ensures Closes(starts, latch, packets) + Pending(latch)
            == Jumps(latch.last, packets) + Pending(Run(starts, latch, packets))
               + DoubleTimeouts(starts, latch, packets) + Straddles(starts, latch, packets)
    decreases |packets|
  {
    if packets != [] {
      var p := packets[0];
      if p.Data? {
        DataStep(starts, latch, p.azimuths);
      }
      Conservation(starts, Step(starts, latch, p).latch, packets[1..]);
    }
  }

  /** From the start, no jump is closed twice exactly when no timeout was accepted while another was
      pending, and no packet jumped twice while one was. */
  lemma NeverClosedTwice(starts: seq<int>, packets: seq<Packet>)
    requires |starts| == 3
    ensures Closes(starts, FRESH, packets) == Jumps(0, packets) + Pending(Run(starts, FRESH, packets))
            <==> DoubleTimeouts(starts, FRESH, packets) == 0 && Straddles(starts, FRESH, packets) == 0
  {
    Conservation(starts, FRESH, packets);
  }

  // ---------------------------------------------------------------- packets within one field

  predicate Near(azimuths: seq<int>, x: int) {
    forall i :: 0 <= i < |azimuths| ==> Abs(azimuths[i] - x) <= TOLERANCE
  }

  /** No two azimuths of a packet are more than the tolerance apart. */
  predicate Narrow(packet: Packet) {
    packet.Data? ==> forall j :: 0 <= j < |packet.azimuths| ==> Near(packet.azimuths, packet.azimuths[j])
  }

  predicate AllNarrow(packets: seq<Packet>) {
    forall p <- packets :: Narrow(p)
  }

  /** Blocks close to the last azimuth, and to each other, do not jump. */
  lemma {:induction false} CalmBlocks(last: int, azimuths: seq<int>)
    requires Near(azimuths, last) && Narrow(Data(azimuths))
    ensures BlockJumps(last, azimuths) == 0
    decreases |azimuths|
  {
    if azimuths != [] {
      NarrowTail(azimuths);
      CalmBlocks(azimuths[0], azimuths[1..]);
    }
  }

  lemma NarrowTail(azimuths: seq<int>)
    requires azimuths != [] && Narrow(Data(azimuths))
    ensures Narrow(Data(azimuths[1..])) && Near(azimuths[1..], azimuths[0])
  {
    var rest := azimuths[1..];
    assert Near(azimuths, azimuths[0]);
    forall j | 0 <= j < |rest|
      ensures Near(rest, rest[j])
    {
      assert Near(azimuths, azimuths[j + 1]);
    }
  }

  /** A narrow packet jumps at its first block or not at all. */
  lemma NarrowJumps(last: int, azimuths: seq<int>)
    requires Narrow(Data(azimuths))
    ensures BlockJumps(last, azimuths) == if azimuths != [] && Jump(last, azimuths[0]) then 1 else 0
  {
    if azimuths != [] {
      NarrowTail(azimuths);
      CalmBlocks(azimuths[0], azimuths[1..]);
    }
  }

  lemma {:induction false} NarrowNeverStraddles(starts: seq<int>, latch: Latch, packets: seq<Packet>)
    requires |starts| == 3 && AllNarrow(packets)
    ensures Straddles(starts, latch, packets) == 0
    decreases |packets|
  {
    if packets != [] {
      var p := packets[0];
      assert Narrow(p);
      if p.Data? {
        NarrowJumps(latch.last, p.azimuths);
      }
      NarrowNeverStraddles(starts, Step(starts, latch, p).latch, packets[1..]);
    }
  }

  /** So with narrow packets the timeouts alone decide. */
  lemma NarrowNeverClosedTwice(starts: seq<int>, packets: seq<Packet>)
    requires |starts| == 3 && AllNarrow(packets)
    ensures Closes(starts, FRESH, packets) == Jumps(0, packets) + Pending(Run(starts, FRESH, packets))
            <==> DoubleTimeouts(starts, FRESH, packets) == 0
  {
    NeverClosedTwice(starts, packets);
    NarrowNeverStraddles(starts, FRESH, packets);
  }

  // ---------------------------------------------------------------- fields closed twice

  /** Collapsing timeouts in a row, as the receive thread does, is not enough: a packet of the
      same field between two timeouts closes the field twice. */
  lemma FieldClosedTwice()
    ensures var starts := [0, 0, 0];
            var packets := [Data([7600]), Timeout, Data([7600]), Timeout];
            Jumps(0, packets) == 0 && Closes(starts, FRESH, packets) == 2
  {
    var starts := [0, 0, 0];
    assert Accepted(starts, 7600) by {
      assert Abs(starts[0] / ANGULAR_RESOLUTION + MARGINAL_ANGLE - 7600) < ACCEPTANCE_ANGLE;
    }
    var d := Data([7600]);
    var seen, pending := Latch(true, 7600), Latch(false, 7600);
    DataStep(starts, FRESH, d.azimuths);
    DataStep(starts, pending, d.azimuths);
    assert BlockJumps(0, d.azimuths) == 0 && BlockJumps(7600, d.azimuths) == 0;
    var packets := [d, Timeout, d, Timeout];
    assert packets[1..] == [Timeout, d, Timeout] && packets[1..][1..] == [d, Timeout];
    assert packets[1..][1..][1..] == [Timeout] && packets[1..][1..][1..][1..] == [];
    assert Jumps(7600, [Timeout]) == 0;
    assert Jumps(7600, [d, Timeout]) == 0;
    assert Jumps(7600, [Timeout, d, Timeout]) == 0;
    assert Closes(starts, pending, [Timeout]) == 1;
    assert Closes(starts, pending, [d, Timeout]) == 1;
    assert Closes(starts, seen, [Timeout, d, Timeout]) == 2;
  }

  /** A timeout, and then a packet with two jumps: its field is closed for the timeout, and again. */
  lemma StraddleClosedTwice()
    ensures var starts := [0, 0, 0];
            var packets := [Data([7600]), Timeout, Data([9000, 11000])];
            Jumps(0, packets) == 1 && DoubleTimeouts(starts, FRESH, packets) == 0
            && Closes(starts, FRESH, packets) == 2 && Run(starts, FRESH, packets).useAngle
  {
    var starts := [0, 0, 0];
    assert Accepted(starts, 7600) by {
      assert Abs(starts[0] / ANGULAR_RESOLUTION + MARGINAL_ANGLE - 7600) < ACCEPTANCE_ANGLE;
    }
    var d, e := Data([7600]), Data([9000, 11000]);
    var seen, pending := Latch(true, 7600), Latch(false, 7600);
    DataStep(starts, FRESH, d.azimuths);
    DataStep(starts, pending, e.azimuths);
    assert e.azimuths[1..] == [11000];
    assert BlockJumps(9000, [11000]) == 1 && BlockJumps(7600, e.azimuths) == 2;
    var packets := [d, Timeout, e];
    assert packets[1..] == [Timeout, e] && packets[1..][1..] == [e] && packets[1..][1..][1..] == [];
    assert Jumps(7600, [e]) == 1 && Jumps(7600, [Timeout, e]) == 1;
    assert Closes(starts, pending, [e]) == 1 && Closes(starts, seen, [Timeout, e]) == 2;
    assert DoubleTimeouts(starts, pending, [e]) == 0 && DoubleTimeouts(starts, seen, [Timeout, e]) == 0;
    assert Run(starts, pending, [e]).useAngle && Run(starts, seen, [Timeout, e]).useAngle;
  }
}
