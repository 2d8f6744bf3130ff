/** How `Run` puts packets together to frames: which packets a frame holds, where their points go,
    and what is shown of a frame when the next one begins. That the threads have computed the
    packets by then is the matter of FramePipeline. */
module FrameAssembly {
  import opened Options
  import opened Products

  const MAX_PACKETS: nat := 5000
  const MAX_PER_PACKET: nat := 512
  const MAX_POINTS: nat := 2560000
  const MIN_POINTS: nat := 1000

  /** A packet, and the number of points its header gives it */
  datatype Packet = Packet(id: nat, points: nat)

  /** What becomes of a packet: it is filtered out or not decoded; it is decoded, and the parser
      finds that a new frame begins with it or not; or it is a time-out, at which the parser lets
      the frame end and decodes nothing. */
  datatype Outcome = Skipped | Data(split: bool) | Timeout

  /** `splitsAgain`: what the parser finds when it decodes a splitting packet a second time */
  datatype Event = Event(packet: Packet, outcome: Outcome, splitsAgain: bool)

  // ---------------------------------------------------------------- frames as lists

  datatype Segment = Closed(packets: seq<Packet>) | GivenUp(packets: seq<Packet>)

  /** The packets of the open frame, and all frames before it */
  datatype Assembly = Assembly(open: seq<Packet>, history: seq<Segment>)

  function Next(a: Assembly, e: Event): Assembly {
    match e.outcome
    case Skipped => a
    case Timeout => Assembly([], a.history + [Closed(a.open)])
    case Data(true) => Assembly([e.packet], a.history + [Closed(a.open)])
    case Data(false) =>
      var open := a.open + [e.packet];
      if |open| < MAX_PACKETS then Assembly(open, a.history) else Assembly([], a.history + [GivenUp(open)])
  }

  function Total(packets: seq<Packet>): nat
    decreases |packets|
  {
    if packets == [] then 0 else Total(packets[..|packets| - 1]) + packets[|packets| - 1].points
  }

  /** The points of two lists of packets add up, and those of one packet are its own. */
  lemma {:induction false} TotalAdds(a: seq<Packet>, b: seq<Packet>)
    ensures Total(a + b) == Total(a) + Total(b)
    ensures forall p: Packet :: Total([p]) == p.points
    decreases |b|
  {
    if b == [] {
      assert a + b == a;
    } else {
      var n := |b| - 1;
      TotalAdds(a, b[..n]);
      assert a + b == (a + b[..n]) + [b[n]];
      assert (a + b)[..|a + b| - 1] == a + b[..n];
    }
  }

  predicate Uniform(packets: seq<Packet>, points: nat) {
    forall k :: 0 <= k < |packets| ==> packets[k].points == points
  }

  lemma {:induction false} UniformTotal(packets: seq<Packet>, points: nat)
    requires Uniform(packets, points)
    ensures Total(packets) == Times(|packets|, points)
    decreases |packets|
  {
    if packets != [] {
      UniformTotal(packets[..|packets| - 1], points);
    }
  }

  /** What a frame's callbacks are shown */
  datatype Shown = Shown(packets: seq<Packet>, pointsNum: nat, packetNum: nat, frameIndex: nat)

  /** The frames that are shown: those with more than a thousand points, unless they were given up */
  function AllShown(history: seq<Segment>): seq<Shown>
    decreases |history|
  {
    if history == [] then []
    else
      var n := |history| - 1;
      var s := history[n];
      if s.Closed? && Total(s.packets) > MIN_POINTS
      then AllShown(history[..n]) + [Shown(s.packets, Total(s.packets), |s.packets|, n)] else AllShown(history[..n])
  }

  /** Whether an event makes `Run` show the open frame, and the packets then in the point array */
  function WrittenIfShown(a: Assembly, e: Event): Option<seq<Packet>> {
    if Total(a.open) <= MIN_POINTS then None
    else
      match e.outcome
      case Timeout => Some(a.open)
      case Data(true) => Some(a.open + [e.packet])
      case _ => None
  }

  lemma ShownSoFar(history: seq<Segment>, s: Segment)
    ensures AllShown(history + [s])
            == if s.Closed? && Total(s.packets) > MIN_POINTS
               then AllShown(history) + [Shown(s.packets, Total(s.packets), |s.packets|, |history|)]
               else AllShown(history)
  {
    var more := history + [s];
    assert more[..|more| - 1] == history && more[|more| - 1] == s;
  }

  /** 0, 1, ..., n - 1 */
  function Upto(n: nat): (r: seq<nat>)
    ensures |r| == n && forall i :: 0 <= i < n ==> r[i] == i
  {
    if n == 0 then [] else Upto(n - 1) + [n - 1]
  }

  // ---------------------------------------------------------------- where points go

  lemma InBounds(k: nat, points: nat)
    requires k < MAX_PACKETS && points <= MAX_PER_PACKET
    ensures Times(k, points) + points <= 2560000
  {
    TimesGrows(k + 1, points, MAX_PER_PACKET);
    TimesIsProduct(k + 1, MAX_PER_PACKET);
  }

  /** The slots a packet is decoded into, if it is packet `k` of its frame */
  predicate InSlots(k: nat, p: Packet, i: nat) {
    Times(k, p.points) <= i < Times(k, p.points) + p.points
  }

  /** What slot `i`, which held `was`, holds when these packets have been decoded in order */
  function Holds(was: nat, packets: seq<Packet>, i: nat): nat
    decreases |packets|
  {
    if packets == [] then was
    else
      var n := |packets| - 1;
      if InSlots(n, packets[n], i) then packets[n].id else Holds(was, packets[..n], i)
  }

  lemma HoldsMore(was: nat, packets: seq<Packet>, p: Packet, i: nat)
    ensures Holds(was, packets + [p], i) == if InSlots(|packets|, p, i) then p.id else Holds(was, packets, i)
  {
    assert (packets + [p])[..|packets|] == packets;
  }

  /** Packet `k`'s points are all still there. */
  ghost predicate Kept(packets: seq<Packet>, k: nat)
    requires k < |packets|
  {
    forall was: nat, i: nat :: InSlots(k, packets[k], i) ==> Holds(was, packets, i) == packets[k].id
  }

  /** Two packets have no slot in common. */
  ghost predicate Apart(j: nat, p: Packet, k: nat, q: Packet) {
    forall i: nat :: !(InSlots(j, p, i) && InSlots(k, q, i))
  }

  predicate NoneAfter(packets: seq<Packet>, k: nat, i: nat) {
    forall m :: k < m < |packets| ==> !InSlots(m, packets[m], i)
  }

  lemma {:induction false} LastWrite(was: nat, packets: seq<Packet>, k: nat, i: nat)
    requires k < |packets| && InSlots(k, packets[k], i) && NoneAfter(packets, k, i)
    ensures Holds(was, packets, i) == packets[k].id
    decreases |packets|
  {
    var n := |packets| - 1;
    if k < n {
      LastWrite(was, packets[..n], k, i);
    }
  }

  lemma {:induction false} SomeLastWrite(packets: seq<Packet>, k: nat, i: nat) returns (m: nat)
    requires k < |packets| && InSlots(k, packets[k], i)
    ensures k <= m < |packets| && InSlots(m, packets[m], i) && NoneAfter(packets, m, i)
    decreases |packets|
  {
    var n := |packets| - 1;
    if InSlots(n, packets[n], i) {
      m := n;
    } else {
      m := SomeLastWrite(packets[..n], k, i);
      assert forall l :: m < l < n ==> packets[l] == packets[..n][l];
    }
  }

  predicate DistinctIds(packets: seq<Packet>) {
    forall j, k :: 0 <= j < k < |packets| ==> packets[j].id != packets[k].id
  }

  /** A packet's points are still there exactly when no later packet of the frame shares a slot with it. */
  lemma KeptExactly(packets: seq<Packet>, k: nat)
    requires k < |packets| && DistinctIds(packets)
    ensures Kept(packets, k) <==> forall m :: k < m < |packets| ==> Apart(k, packets[k], m, packets[m])
  {
    if forall m :: k < m < |packets| ==> Apart(k, packets[k], m, packets[m]) {
      forall was: nat, i: nat | InSlots(k, packets[k], i)
        ensures Holds(was, packets, i) == packets[k].id
      {
        assert NoneAfter(packets, k, i);
        LastWrite(was, packets, k, i);
      }
    } else {
      var m :| k < m < |packets| && !Apart(k, packets[k], m, packets[m]);
      var i: nat :| InSlots(k, packets[k], i) && InSlots(m, packets[m], i);
      var l := SomeLastWrite(packets, m, i);
      LastWrite(0, packets, l, i);
      assert Holds(0, packets, i) == packets[l].id;
    }
  }

  /** Told by the numbers of points */
  lemma ApartExactly(j: nat, p: Packet, k: nat, q: Packet)
    ensures Apart(j, p, k, q)
            <==> || p.points == 0 || q.points == 0
                 || Times(j, p.points) + p.points <= Times(k, q.points)
                 || Times(k, q.points) + q.points <= Times(j, p.points)
  {
    var x, y := Times(j, p.points), Times(k, q.points);
    if p.points > 0 && q.points > 0 && x < y + q.points && y < x + p.points {
      var i := if x < y then y else x;
      assert InSlots(j, p, i) && InSlots(k, q, i);
    }
  }

  lemma SlotsApart(j: nat, earlier: nat, k: nat, later: nat)
    requires j < k && earlier <= later
    ensures Times(j, earlier) + earlier <= Times(k, later)
  {
    TimesMonotone(j, k, earlier);
    TimesGrows(k, earlier, later);
  }

  /** Two sizes are safe wherever in the frame they come, the slots of any later packet of the one
      lying behind those of any earlier packet of the other, exactly when the later is not smaller. */
  lemma SlotsApartExactly(earlier: nat, later: nat)
    ensures (forall j: nat, k: nat :: j < k ==> Times(j, earlier) + earlier <= Times(k, later))
            <==> earlier <= later
  {
    if earlier <= later {
      forall j: nat, k: nat | j < k
        ensures Times(j, earlier) + earlier <= Times(k, later)
      {
        SlotsApart(j, earlier, k, later);
      }
    } else {
      assert Times(0, earlier) + earlier > Times(1, later) == Times(0, later) + later;
    }
  }

  predicate Growing(packets: seq<Packet>) {
    forall j, k :: 0 <= j <= k < |packets| ==> packets[j].points <= packets[k].points
  }

  /** So if no packet of a frame has fewer points than one before it, no points are overwritten. */
  lemma GrowingKept(packets: seq<Packet>, k: nat)
    requires k < |packets| && Growing(packets)
    ensures Kept(packets, k)
  {
    forall was: nat, i: nat | InSlots(k, packets[k], i)
      ensures Holds(was, packets, i) == packets[k].id
    {
      forall m | k < m < |packets|
        ensures !InSlots(m, packets[m], i)
      {
        SlotsApart(k, packets[k].points, m, packets[m].points);
      }
      LastWrite(was, packets, k, i);
    }
  }

  /** Packets of one size fill the array in order, without a gap, and nothing behind. */
  lemma {:induction false} UniformFilled(was: nat, packets: seq<Packet>, points: nat, k: nat, j: nat)
    requires Uniform(packets, points) && j < points
    ensures Holds(was, packets, Times(k, points) + j) == if k < |packets| then packets[k].id else was
    decreases |packets|
  {
    if packets != [] {
      var n := |packets| - 1;
      UniformFilled(was, packets[..n], points, k, j);
      TimesMonotone(k, n, points);
      TimesMonotone(n, k, points);
    }
  }

  /** A packet of two points and then one of a single point, which is written over the second. */
  lemma SmallerPacketOverwrites()
    ensures var packets := [Packet(0, 2), Packet(1, 1)]; !Kept(packets, 0)
  {
    var packets := [Packet(0, 2), Packet(1, 1)];
    assert Times(1, 1) == Times(0, 1) + 1 && Times(0, 2) == 0;
    ApartExactly(0, packets[0], 1, packets[1]);
    KeptExactly(packets, 0);
  }

  /** A packet is computed over the slots that the frame's present number of points gives it, which is
      that of the newest packet: these are the slots it was decoded into exactly when that number is
      its own. */
  lemma ReadsItsOwnExactly(k: nat, p: Packet, newest: Packet)
    ensures (forall i: nat :: InSlots(k, newest, i) <==> InSlots(k, p, i)) <==> newest.points == p.points
  {
    if newest.points != p.points {
      var small := if p.points < newest.points then p else newest;
      var large := if p.points < newest.points then newest else p;
      var i := Times(k, large.points) + large.points - 1;
      TimesGrows(k, small.points, large.points);
      assert InSlots(k, large, i) && !InSlots(k, small, i);
    }
  }

  predicate Limited(packets: seq<Packet>) {
    forall k :: 0 <= k < |packets| ==> packets[k].points <= MAX_PER_PACKET
  }

  /** What the callbacks find in the point array: what it held when the frame began, overwritten by the
      packets decoded since, the one that ended the frame included */
  datatype Picture = Picture(before: seq<nat>, written: seq<Packet>, points: seq<nat>)

  predicate Faithful(p: Picture, packets: seq<Packet>) {
    && |p.before| == |p.points| == MAX_POINTS
    && packets <= p.written && |p.written| <= |packets| + 1 <= MAX_PACKETS
    && Limited(p.written)
    && forall i :: 0 <= i < MAX_POINTS ==> p.points[i] == Holds(p.before[i], p.written, i)
  }

  /** One more picture if the callbacks were called, with these packets written; else none */
  predicate Grown(was: seq<Picture>, now: seq<Picture>, before: seq<nat>, written: Option<seq<Packet>>) {
    match written
    case None => now == was
    case Some(packets) =>
      |now| == |was| + 1 && now[..|was|] == was && now[|was|].before == before && now[|was|].written == packets
  }

  /** Packet `k`'s points are all there. */
  predicate ShownWhole(p: Picture, k: nat)
    requires k < |p.written| && |p.points| == MAX_POINTS
  {
    forall i :: 0 <= i < MAX_POINTS && InSlots(k, p.written[k], i) ==> p.points[i] == p.written[k].id
  }

  /** The callbacks find a packet's points whole exactly when neither a later packet of the frame nor
      the one that ended it shares a slot with it. */
  lemma ShownWholeExactly(p: Picture, packets: seq<Packet>, k: nat)
    requires Faithful(p, packets) && k < |packets| && DistinctIds(p.written)
    ensures ShownWhole(p, k) <==> forall m :: k < m < |p.written| ==> Apart(k, p.written[k], m, p.written[m])
  {
    KeptExactly(p.written, k);
    if exists m :: k < m < |p.written| && !Apart(k, p.written[k], m, p.written[m]) {
      var m :| k < m < |p.written| && !Apart(k, p.written[k], m, p.written[m]);
      var i: nat :| InSlots(k, p.written[k], i) && InSlots(m, p.written[m], i);
      var l := SomeLastWrite(p.written, m, i);
      InBounds(k, p.written[k].points);
      LastWrite(p.before[i], p.written, l, i);
      assert p.points[i] == p.written[l].id;
    }
  }

  /** The packet that ends a frame can overwrite one of it: here a packet of two points is kept among
      the frame's own, and not when one of a single point ends the frame. */
  lemma EndingPacketOverwrites()
    ensures Kept([Packet(0, 2)], 0) && !Kept([Packet(0, 2)] + [Packet(1, 1)], 0)
  {
    KeptExactly([Packet(0, 2)], 0);
    SmallerPacketOverwrites();
    assert [Packet(0, 2)] + [Packet(1, 1)] == [Packet(0, 2), Packet(1, 1)];
  }

  // ---------------------------------------------------------------- whole runs

  function After(a: Assembly, events: seq<Event>): Assembly
    decreases |events|
  {
    if events == [] then a else Next(After(a, events[..|events| - 1]), events[|events| - 1])
  }

  /** The packets that were decoded, in order */
  function Decoded(events: seq<Event>): seq<Packet>
    decreases |events|
  {
    if events == [] then []
    else
      var before, e := Decoded(events[..|events| - 1]), events[|events| - 1];
      if e.outcome.Data? then before + [e.packet] else before
  }

  function Flatten(history: seq<Segment>): seq<Packet>
    decreases |history|
  {
    if history == [] then [] else Flatten(history[..|history| - 1]) + history[|history| - 1].packets
  }

  lemma FlattenMore(history: seq<Segment>, s: Segment)
    ensures Flatten(history + [s]) == Flatten(history) + s.packets
  {
    assert (history + [s])[..|history|] == history;
  }

  function Everything(a: Assembly): seq<Packet> {
    Flatten(a.history) + a.open
  }

  lemma EverythingNext(a: Assembly, e: Event)
    ensures Everything(Next(a, e)) == Everything(a) + if e.outcome.Data? then [e.packet] else []
  {
    match e.outcome
    case Skipped =>
    case Timeout => FlattenMore(a.history, Closed(a.open));
    case Data(true) => FlattenMore(a.history, Closed(a.open));
    case Data(false) => FlattenMore(a.history, GivenUp(a.open + [e.packet]));
  }

  /** In every run the frames one after the other, and then the open one, hold the decoded packets:
      in order, and each once. */
  lemma {:induction false} Conservation(events: seq<Event>)
    ensures Everything(After(Assembly([], []), events)) == Decoded(events)
    decreases |events|
  {
    if events != [] {
      var n := |events| - 1;
      Conservation(events[..n]);
      EverythingNext(After(Assembly([], []), events[..n]), events[n]);
    }
  }

  /** Whether a frame is closed at an event: at a split or a time-out */
  function Ending(e: Event): nat {
    if e.outcome.Timeout? || (e.outcome.Data? && e.outcome.split) then 1 else 0
  }

  function Ends(events: seq<Event>): nat
    decreases |events|
  {
    if events == [] then 0 else Ends(events[..|events| - 1]) + Ending(events[|events| - 1])
  }

  function ClosedCount(history: seq<Segment>): nat
    decreases |history|
  {
    if history == [] then 0
    else ClosedCount(history[..|history| - 1]) + if history[|history| - 1].Closed? then 1 else 0
  }

  lemma CountMore(history: seq<Segment>, s: Segment)
    ensures ClosedCount(history + [s]) == ClosedCount(history) + if s.Closed? then 1 else 0
  {
    assert (history + [s])[..|history|] == history;
  }

  predicate Lengths(a: Assembly) {
    && |a.open| < MAX_PACKETS
    && forall i :: 0 <= i < |a.history| ==>
         if a.history[i].Closed? then |a.history[i].packets| < MAX_PACKETS
         else |a.history[i].packets| == MAX_PACKETS
  }

  lemma LengthsNext(a: Assembly, e: Event)
    requires Lengths(a)
    ensures Lengths(Next(a, e)) && ClosedCount(Next(a, e).history) == ClosedCount(a.history) + Ending(e)
  {
    match e.outcome
    case Skipped =>
    case Timeout => CountMore(a.history, Closed(a.open));
    case Data(true) => CountMore(a.history, Closed(a.open));
    case Data(false) => CountMore(a.history, GivenUp(a.open + [e.packet]));
  }

  /** Frames have fewer than 5000 packets, those given up have 5000; and as many frames are closed as
      splits and time-outs were found. */
  lemma {:induction false} FrameCount(events: seq<Event>)
    ensures Lengths(After(Assembly([], []), events))
    ensures ClosedCount(After(Assembly([], []), events).history) == Ends(events)
    decreases |events|
  {
    if events != [] {
      var n := |events| - 1;
      FrameCount(events[..n]);
      LengthsNext(After(Assembly([], []), events[..n]), events[n]);
    }
  }

  predicate NoneEnds(events: seq<Event>) {
    forall i :: 0 <= i < |events| ==> Ending(events[i]) == 0
  }

  lemma {:induction false} PlainPackets(a: Assembly, events: seq<Event>)
    requires NoneEnds(events) && |a.open| + |Decoded(events)| < MAX_PACKETS
    ensures After(a, events) == Assembly(a.open + Decoded(events), a.history)
    decreases |events|
  {
    if events != [] {
      PlainPackets(a, events[..|events| - 1]);
    }
  }

  /** Without a split or a time-out a frame is given up after every 5000 packets. */
  lemma {:induction false} GivenUpCount(a: Assembly, events: seq<Event>)
    requires NoneEnds(events) && |a.open| < MAX_PACKETS
    ensures var n := |a.open| + |Decoded(events)|;
            var b := After(a, events);
            |b.history| == |a.history| + n / 5000 && |b.open| == n % 5000
    decreases |events|
  {
    if events != [] {
      GivenUpCount(a, events[..|events| - 1]);
    }
  }

  /** The frame closed by `end`: the packet it began with, if any, and all decoded up to then, but not
      the splitting packet, which begins the next frame */
  function WholeFrame(a: Assembly, events: seq<Event>, end: Event): Assembly {
    Assembly(if end.outcome.Data? then [end.packet] else [], a.history + [Closed(a.open + Decoded(events))])
  }

  /** A frame holds what was decoded from its beginning up to the next split or time-out exactly when
      that is less than 5000 packets. */
  lemma FrameContents(a: Assembly, events: seq<Event>, end: Event)
    requires Lengths(a) && NoneEnds(events) && Ending(end) == 1
    ensures After(a, events + [end]) == WholeFrame(a, events, end)
            <==> |a.open| + |Decoded(events)| < 5000
  {
    assert (events + [end])[..|events|] == events;
    GivenUpCount(a, events);
    if |a.open| + |Decoded(events)| < MAX_PACKETS {
      PlainPackets(a, events);
    }
  }

  predicate ShownAt(shown: seq<Shown>, i: nat, x: Shown) {
    exists k :: 0 <= k < |shown| && shown[k].frameIndex == i && shown[k] == x
  }

  lemma ShownAtMore(shown: seq<Shown>, y: Shown, i: nat, x: Shown)
    ensures ShownAt(shown + [y], i, x) == (ShownAt(shown, i, x) || (y.frameIndex == i && y == x))
  {
    var more := shown + [y];
    if k :| 0 <= k < |shown| && shown[k].frameIndex == i && shown[k] == x {
      assert more[k] == shown[k];
    }
    if y.frameIndex == i && y == x {
      assert more[|shown|] == y;
    }
  }

  /** The callbacks are shown `x` as frame `i` exactly if that frame was closed with more than a
      thousand points, and `x` is that frame, whole. */
  lemma {:induction false} ShownExactly(history: seq<Segment>, i: nat, x: Shown)
    requires i < |history|
    ensures ShownAt(AllShown(history), i, x)
            <==> && history[i].Closed? && Total(history[i].packets) > MIN_POINTS
                 && x == Shown(history[i].packets, Total(history[i].packets), |history[i].packets|, i)
    decreases |history|
  {
    var n := |history| - 1;
    var s := history[n];
    if i < n {
      ShownExactly(history[..n], i, x);
      assert history[..n][i] == history[i];
    } else {
      NotYetShown(history[..n], i, x);
    }
    if s.Closed? && Total(s.packets) > MIN_POINTS {
      ShownAtMore(AllShown(history[..n]), Shown(s.packets, Total(s.packets), |s.packets|, n), i, x);
    }
  }

  /** In numbers: a closed frame of packets with `points` points each is shown exactly if that makes more
      than a thousand, and with that number. */
  lemma UniformShown(history: seq<Segment>, i: nat, x: Shown, points: nat)
    requires i < |history| && history[i].Closed? && Uniform(history[i].packets, points)
    ensures ShownAt(AllShown(history), i, x)
            <==> && |history[i].packets| * points > 1000
                 && x == Shown(history[i].packets, |history[i].packets| * points, |history[i].packets|, i)
  {
    ShownExactly(history, i, x);
    UniformTotal(history[i].packets, points);
    TimesIsProduct(|history[i].packets|, points);
  }

  lemma {:induction false} NotYetShown(history: seq<Segment>, i: nat, x: Shown)
    requires |history| <= i
    ensures !ShownAt(AllShown(history), i, x)
    decreases |history|
  {
    if history != [] {
      var n := |history| - 1;
      var s := history[n];
      NotYetShown(history[..n], i, x);
      if s.Closed? && Total(s.packets) > MIN_POINTS {
        ShownAtMore(AllShown(history[..n]), Shown(s.packets, Total(s.packets), |s.packets|, n), i, x);
      }
    }
  }

  // ---------------------------------------------------------------- the loop of `Run`

  class Run {
    var packetIndex: nat
    var udpPacketFrame: seq<Packet>
    /** Fields of `frame_` */
    var packetNum: nat
    var perPointsNum: nat
    var pointsNum: nat
    var frameIndex: nat
    var scanComplete: bool
    const pointData: array<nat>
    const sensorTimestamp: array<nat>
    /** What the callbacks got, and the indices given to the threads for the open frame */
    var shown: seq<Shown>
    var submitted: seq<nat>
    /** All frames before; what the point array held each time the callbacks were called; and what it
        held when the open frame began */
    ghost var history: seq<Segment>
    ghost var pictures: seq<Picture>
    ghost var base: seq<nat>

    ghost function Abstract(): Assembly
      reads this
    {
      Assembly(udpPacketFrame, history)
    }

    ghost predicate Arrays()
      reads this
    {
      pointData.Length == MAX_POINTS && sensorTimestamp.Length == MAX_PACKETS && pointData != sensorTimestamp
    }

    ghost predicate Booked()
      reads this
    {
      && packetIndex == |udpPacketFrame| < MAX_PACKETS
      && pointsNum == Total(udpPacketFrame)
      && frameIndex == |history|
      && shown == AllShown(history)
      && submitted == Upto(packetIndex)
      && Limited(udpPacketFrame)
    }

    /** Every frame shown was in the point array, as far as later packets left it. */
    ghost predicate Pictured()
      reads this
    {
      |pictures| == |shown| && forall k :: 0 <= k < |shown| ==> Faithful(pictures[k], shown[k].packets)
    }

    /** These packets have been decoded since the open frame began. */
    ghost predicate Written(packets: seq<Packet>)
      requires Arrays()
      reads this, pointData
    {
      |base| == MAX_POINTS && forall i :: 0 <= i < MAX_POINTS ==> pointData[i] == Holds(base[i], packets, i)
    }

    /** Each of these packets has its time stamp in its place. */
    ghost predicate Stamped(packets: seq<Packet>)
      requires Arrays() && |packets| <= MAX_PACKETS
      reads this, sensorTimestamp
    {
      forall k :: 0 <= k < |packets| ==> sensorTimestamp[k] == packets[k].id
    }

    /** Between two turns of the loop */
    ghost predicate Valid()
      reads this, pointData, sensorTimestamp
    {
      && Arrays() && Booked() && Pictured() && packetNum == packetIndex
      && Written(udpPacketFrame) && Stamped(udpPacketFrame)
    }

    constructor ()
      ensures Valid() && Abstract() == Assembly([], [])
    {
      packetIndex, udpPacketFrame := 0, [];
      packetNum, perPointsNum, pointsNum, frameIndex, scanComplete := 0, 0, 0, 0, false;
      pointData := new nat[MAX_POINTS];
      sensorTimestamp := new nat[MAX_PACKETS];
      shown, submitted := [], [];
      history, pictures := [], [];
      new;
      base := pointData[..];
    }

    /** The loops of a parser over the points of a packet */
    method WritePoints(at: nat, packet: Packet)
      requires Arrays() && at + packet.points <= MAX_POINTS
      modifies pointData
      ensures forall i :: 0 <= i < MAX_POINTS ==>
                pointData[i] == if at <= i < at + packet.points then packet.id else old(pointData[i])
    {
      var index := at;
      for i := 0 to packet.points
        invariant index == at + i
        invariant forall k :: 0 <= k < MAX_POINTS ==>
                    pointData[k] == if at <= k < index then packet.id else old(pointData[k])
      {
        pointData[index] := packet.id;
        index := index + 1;
      }
    }

    /** `DecodePacket`, as far as the frame's bookkeeping goes */
    method DecodePacket(packet: Packet, outcome: Outcome) returns (ret: int)
      requires Arrays() && packetNum < MAX_PACKETS && packet.points <= MAX_PER_PACKET
      modifies `packetNum, `perPointsNum, `scanComplete, pointData, sensorTimestamp
      ensures ret == if outcome.Skipped? then -1 else 0
      ensures outcome.Skipped? ==> scanComplete == old(scanComplete)
      ensures outcome.Timeout? ==> scanComplete
      ensures !outcome.Data? ==>
                && packetNum == old(packetNum) && perPointsNum == old(perPointsNum)
                && pointData[..] == old(pointData[..]) && sensorTimestamp[..] == old(sensorTimestamp[..])
      ensures outcome.Data? ==>
                && packetNum == old(packetNum) + 1 && perPointsNum == packet.points && scanComplete == outcome.split
                && forall i :: 0 <= i < MAX_POINTS ==>
                     pointData[i] == if InSlots(old(packetNum), packet, i) then packet.id else old(pointData[i])
      ensures outcome.Data? ==> sensorTimestamp[..] == old(sensorTimestamp[..])[old(packetNum) := packet.id]
    {
      if outcome.Skipped? {
        return -1;
      }
      if outcome.Timeout? {
        scanComplete := true;
        return 0;
      }
      sensorTimestamp[packetNum] := packet.id;
      perPointsNum := packet.points;
      scanComplete := false;
      InBounds(packetNum, packet.points);
      TimesIsProduct(packetNum, packet.points);
      WritePoints(packetNum * packet.points, packet);
      if outcome.split {
        scanComplete := true;
      }
      packetNum := packetNum + 1;
      return 0;
    }

    /** `LidarDecodedFrame::Update` */
    method Update()
      modifies `packetNum, `perPointsNum, `pointsNum, `scanComplete, `frameIndex
      ensures packetNum == perPointsNum == pointsNum == 0 && !scanComplete && frameIndex == old(frameIndex) + 1
    {
      packetNum, perPointsNum, pointsNum, scanComplete := 0, 0, 0, false;
      frameIndex := frameIndex + 1;
    }

    /** The callbacks. They get the packets and counters of the frame, and find in the point array what
        these packets, and the one that ended the frame, left there. */
    method Show(ghost written: seq<Packet>)
      requires Arrays() && Pictured() && Written(written) && Limited(written)
      requires udpPacketFrame <= written && |written| <= |udpPacketFrame| + 1 <= MAX_PACKETS
      modifies `shown, `pictures
      ensures shown == old(shown) + [Shown(udpPacketFrame, pointsNum, packetNum, frameIndex)]
      ensures pictures == old(pictures) + [Picture(base, written, pointData[..])]
      ensures Faithful(pictures[|pictures| - 1], udpPacketFrame) && Pictured()
    {
      shown := shown + [Shown(udpPacketFrame, pointsNum, packetNum, frameIndex)];
      pictures := pictures + [Picture(base, written, pointData[..])];
    }

    lemma Rewritten(before: seq<nat>, packets: seq<Packet>, p: Packet)
      requires Arrays() && |base| == |before| == MAX_POINTS
      requires forall i :: 0 <= i < MAX_POINTS ==> before[i] == Holds(base[i], packets, i)
      requires forall i :: 0 <= i < MAX_POINTS ==>
                 pointData[i] == if InSlots(|packets|, p, i) then p.id else before[i]
      ensures Written(packets + [p])
    {
      forall i | 0 <= i < MAX_POINTS
        ensures pointData[i] == Holds(base[i], packets + [p], i)
      {
        HoldsMore(base[i], packets, p, i);
      }
    }

    /** A decoded packet joins the open frame. */
    method Take(packet: Packet)
      requires Arrays() && perPointsNum == packet.points <= MAX_PER_PACKET && packetIndex == |udpPacketFrame|
      requires Limited(udpPacketFrame)
      requires pointsNum == Total(udpPacketFrame) && submitted == Upto(packetIndex)
      modifies `submitted, `pointsNum, `udpPacketFrame, `packetIndex
      ensures udpPacketFrame == old(udpPacketFrame) + [packet] && packetIndex == |udpPacketFrame|
      ensures pointsNum == Total(udpPacketFrame) && submitted == Upto(packetIndex) && Limited(udpPacketFrame)
    {
      submitted := submitted + [packetIndex];
      pointsNum := pointsNum + perPointsNum;
      assert (udpPacketFrame + [packet])[..|udpPacketFrame|] == udpPacketFrame;
      udpPacketFrame := udpPacketFrame + [packet];
      packetIndex := packetIndex + 1;
    }

    /** Everything is set back for the next frame. */
    method NextFrame(ghost s: Segment)
      requires Arrays() && frameIndex == |history| && shown == AllShown(history + [s]) && Pictured()
      modifies `history, `base, `udpPacketFrame, `submitted, `packetIndex,
               `packetNum, `perPointsNum, `pointsNum, `scanComplete, `frameIndex
      ensures Valid() && udpPacketFrame == [] && history == old(history) + [s]
    {
      history := history + [s];
      base := pointData[..];
      Update();
      udpPacketFrame, submitted := [], [];
      packetIndex := 0;
    }

    /** The packet that ended a frame becomes the first of the next. */
    method Reopen(packet: Packet, splitsAgain: bool)
      requires Valid() && udpPacketFrame == [] && packet.points <= MAX_PER_PACKET
      modifies this, pointData, sensorTimestamp
      ensures Valid() && Abstract() == Assembly([packet], old(history))
      ensures pictures == old(pictures)
    {
      ghost var before := pointData[..];
      var again := DecodePacket(packet, Data(splitsAgain));
      Rewritten(before, [], packet);
      assert [] + [packet] == [packet];
      Take(packet);
    }

    /** A frame is complete: its packets are those taken, not the one that ended it. */
    method EndFrame(packet: Packet, splitsAgain: bool)
      requires Arrays() && Booked() && Pictured() && packet.points <= MAX_PER_PACKET
      requires Written(if packetNum != packetIndex then udpPacketFrame + [packet] else udpPacketFrame)
      modifies this, pointData, sensorTimestamp
      ensures Valid()
      ensures Abstract() == Assembly(if old(packetNum) != old(packetIndex) then [packet] else [],
                                     old(history) + [Closed(old(udpPacketFrame))])
      ensures Grown(old(pictures), pictures, old(base),
                    if old(pointsNum) <= MIN_POINTS then None
                    else if old(packetNum) != old(packetIndex) then Some(old(udpPacketFrame) + [packet])
                    else Some(old(udpPacketFrame)))
    {
      var lastPacketIsValid := packetNum != packetIndex;
      packetNum := packetIndex;
      ShownSoFar(history, Closed(udpPacketFrame));
      if pointsNum > MIN_POINTS {
        Show(if lastPacketIsValid then udpPacketFrame + [packet] else udpPacketFrame);
      }
      NextFrame(Closed(udpPacketFrame));
      if lastPacketIsValid {
        Reopen(packet, splitsAgain);
      }
    }

    /** A frame goes on, unless it has become too long. */
    method GoOn(packet: Packet)
      requires Arrays() && Booked() && Pictured()
      requires packetNum == packetIndex + 1 && perPointsNum == packet.points <= MAX_PER_PACKET
      requires Written(udpPacketFrame + [packet]) && Stamped(udpPacketFrame + [packet])
      modifies this
      ensures Valid()
      ensures Abstract() == Next(old(Abstract()), Event(packet, Data(false), false))
      ensures pictures == old(pictures)
    {
      if packetNum != packetIndex {
        Take(packet);
      }
      if packetIndex >= MAX_PACKETS {
        ShownSoFar(history, GivenUp(udpPacketFrame));
        NextFrame(GivenUp(udpPacketFrame));
      }
    }

    /** One turn of the loop of `Run` */
    method Turn(e: Event)
      requires Valid() && e.packet.points <= MAX_PER_PACKET
      modifies this, pointData, sensorTimestamp
      ensures Valid()
      ensures Abstract() == Next(old(Abstract()), e)
      ensures Grown(old(pictures), pictures, old(base), WrittenIfShown(old(Abstract()), e))
    {
      var ret := DecodePacket(e.packet, e.outcome);
      if ret != 0 {
        return;
      }
      if e.outcome.Data? {
        Rewritten(old(pointData[..]), udpPacketFrame, e.packet);
      }
      if scanComplete {
        EndFrame(e.packet, e.splitsAgain);
      } else {
        GoOn(e.packet);
      }
    }
  }
}
