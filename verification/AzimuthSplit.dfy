/** The azimuth frame splitter of the 1.4 parser. Azimuths are hundredths of a degree.
    The splitter guesses the direction of rotation from three successive azimuths and
    closes a frame when the configured start azimuth is passed. `Circle` is the
    reference: angles on a circle of 36000, and rotation counted on the real line. */
module AzimuthSplit {
  import opened Integers

  const CIRCLE: int := 36000

  // ---------------------------------------------------------------- the decision

  /** The last two distinct azimuths. The parser starts from two zeros. */
  datatype History = History(lastLast: int, last: int)

  const FRESH := History(0, 0)

  function Remember(h: History, azimuth: int): History {
    if azimuth != h.last then History(h.last, azimuth) else h
  }

  /** The smaller of the two step sizes, held in a `uint16_t`. */
  function Division(h: History, azimuth: int): nat {
    var division1 := Abs(h.last - h.lastLast) % 0x1_0000;
    var division2 := Abs(h.last - azimuth) % 0x1_0000;
    if division1 > division2 then division2 else division1
  }

  function Direction(h: History, azimuth: int): int {
    var d := Division(h, azimuth);
    if h.lastLast - h.last == d || h.last - azimuth == d then -1 else 1
  }

  /** Whether a frame is closed; `start` is the start azimuth in hundredths, not
      necessarily whole. */
  predicate Splits(start: real, h: History, azimuth: int) {
    var d := Division(h, azimuth);
    var s := start.Floor;
    if h.lastLast == -1 || d == 0 then false
    else if Direction(h, azimuth) == 1 then
      if h.last - azimuth > d then s > h.last || start <= azimuth as real
      else h.last < azimuth && h.last < s && azimuth >= s
    else
      if azimuth - h.last > d then s <= h.last || s > azimuth
      else h.last > azimuth && h.last > s && azimuth <= s
  }

  class Splitter {
    var frameStart: real
    var last: int
    var lastLast: int
    var rotationFlag: int

    ghost function Seen(): History
      reads this
    {
      History(lastLast, last)
    }

    constructor (start: real)
      ensures Seen() == FRESH && frameStart == start && rotationFlag == 1
    {
      frameStart, last, lastLast, rotationFlag := start, 0, 0, 1;
    }

    method IsNeedFrameSplit(azimuth: int) returns (split: bool)
      modifies `frameStart, `rotationFlag
      ensures frameStart == if 0.0 <= old(frameStart) < 360.0 then old(frameStart) else 0.0
      ensures split == Splits(frameStart * 100.0, Seen(), azimuth)
      ensures rotationFlag == if lastLast != -1 && Division(Seen(), azimuth) != 0
                              then Direction(Seen(), azimuth) else old(rotationFlag)
    {
      if frameStart < 0.0 || frameStart >= 360.0 {
        frameStart := 0.0;
      }
      var division := 0;
      if lastLast != -1 {
        var division1 := Abs(last - lastLast) % 0x1_0000;
        var division2 := Abs(last - azimuth) % 0x1_0000;
        division := if division1 > division2 then division2 else division1;
        assert division == Division(Seen(), azimuth);
        if division == 0 {
          return false;
        }
        if lastLast - last == division || last - azimuth == division {
          rotationFlag := -1;
        } else {
          rotationFlag := 1;
        }
      } else {
        return false;
      }
      var start := frameStart * 100.0;
      if rotationFlag == 1 {
        if last - azimuth > division {
          return start.Floor > last || start <= azimuth as real;
        }
        return last < azimuth && last < start.Floor && azimuth >= start.Floor;
      } else {
        if azimuth - last > division {
          return start.Floor <= last || start.Floor > azimuth;
        }
        return last > azimuth && last > start.Floor && azimuth <= start.Floor;
      }
    }

    /** The end of `DecodePacket`: decide, then update the history. */
    method FinishPacket(azimuth: int) returns (scanComplete: bool)
      modifies this
      ensures frameStart == if 0.0 <= old(frameStart) < 360.0 then old(frameStart) else 0.0
      ensures scanComplete == Splits(frameStart * 100.0, old(Seen()), azimuth)
      ensures Seen() == Remember(old(Seen()), azimuth)
    {
      scanComplete := IsNeedFrameSplit(azimuth);
      if azimuth != last {
        lastLast := last;
        last := azimuth;
      }
    }
  }

  // ---------------------------------------------------------------- angles on the circle

  predicate OnCircle(x: int) { 0 <= x < CIRCLE }

  /** How far `y` lies ahead of `x`, turning forward. */
  function Ahead(x: int, y: int): (d: nat)
    ensures d < CIRCLE
  {
    (y - x) % CIRCLE
  }

  /** A start azimuth in hundredths, not necessarily whole; decisions go by the whole hundredth below. */
  predicate IsStart(start: real) { 0.0 <= start < 36000.0 }

  predicate Distinct(h: History, azimuth: int) {
    OnCircle(h.lastLast) && OnCircle(h.last) && OnCircle(azimuth)
    && h.lastLast != h.last && h.last != azimuth
  }

  /** `Ahead` without the remainder. */
  lemma AheadCases(x: int, y: int)
    requires OnCircle(x) && OnCircle(y)
    ensures Ahead(x, y) == if x <= y then y - x else y - x + CIRCLE
  {
  }

  /** The inferred direction is forward exactly when the two forward steps together make
      less than a full turn. */
  lemma DirectionExact(h: History, azimuth: int)
    requires Distinct(h, azimuth)
    ensures Division(h, azimuth) != 0
    ensures Direction(h, azimuth) == 1
            <==> Ahead(h.lastLast, h.last) + Ahead(h.last, azimuth) < CIRCLE
  {
    AheadCases(h.lastLast, h.last);
    AheadCases(h.last, azimuth);
  }

  /** Turning forward, the frame closes exactly when the start azimuth lies in (last, azimuth];
      a start that is no whole hundredth is missed when the turn wraps and ends on it. */
  lemma ForwardExact(start: real, h: History, azimuth: int)
    requires Distinct(h, azimuth) && IsStart(start)
    requires Ahead(h.lastLast, h.last) + Ahead(h.last, azimuth) < CIRCLE
    ensures var s := start.Floor;
            Splits(start, h, azimuth)
            <==> 0 < Ahead(h.last, s) <= Ahead(h.last, azimuth)
                 && !(azimuth == s && azimuth < h.last && start != s as real)
  {
    DirectionExact(h, azimuth);
    AheadCases(h.lastLast, h.last);
    AheadCases(h.last, azimuth);
    AheadCases(h.last, start.Floor);
  }

  /** Turning backward, the frame closes exactly when the start lies in [azimuth, last), except
      that a turn through zero counts the end `last` instead of the end `azimuth`. */
  lemma BackwardExact(start: real, h: History, azimuth: int)
    requires Distinct(h, azimuth) && IsStart(start)
    requires Ahead(h.last, h.lastLast) + Ahead(azimuth, h.last) < CIRCLE
    ensures Direction(h, azimuth) == -1
    ensures var s := start.Floor;
            Splits(start, h, azimuth)
            <==> if azimuth > h.last then 0 < Ahead(azimuth, s) <= Ahead(azimuth, h.last)
                 else Ahead(azimuth, s) < Ahead(azimuth, h.last)
  {
    DirectionExact(h, azimuth);
    AheadCases(h.lastLast, h.last);
    AheadCases(h.last, h.lastLast);
    AheadCases(h.last, azimuth);
    AheadCases(azimuth, h.last);
    AheadCases(azimuth, start.Floor);
  }

  /** Turning back onto the azimuth before the last, both ways round make a full turn. That counts as
      backward, and never as a turn through zero: the frame closes exactly when the start lies in
      [azimuth, last). With the two cases above, every step is covered. */
  lemma ReversalExact(start: real, h: History, azimuth: int)
    requires Distinct(h, azimuth) && IsStart(start)
    ensures azimuth == h.lastLast <==> Ahead(h.lastLast, h.last) + Ahead(h.last, azimuth) == CIRCLE
    ensures azimuth == h.lastLast <==> Ahead(h.last, h.lastLast) + Ahead(azimuth, h.last) == CIRCLE
    ensures azimuth == h.lastLast ==> Direction(h, azimuth) == -1
    ensures azimuth == h.lastLast ==> (Splits(start, h, azimuth) <==> azimuth <= start.Floor < h.last)
  {
    DirectionExact(h, azimuth);
    AheadCases(h.lastLast, h.last);
    AheadCases(h.last, h.lastLast);
    AheadCases(h.last, azimuth);
    AheadCases(azimuth, h.last);
  }

  // ---------------------------------------------------------------- whole runs

  /** Frames closed while a sequence of azimuths is decoded. */
  function CountSplits(start: real, h: History, azimuths: seq<int>): nat
    decreases |azimuths|
  {
    if azimuths == [] then 0
    else (if Splits(start, h, azimuths[0]) then 1 else 0)
         + CountSplits(start, Remember(h, azimuths[0]), azimuths[1..])
  }

  /** An unwrapped angle as the sensor reports it. */
  function Reported(angle: int): int { angle % CIRCLE }

  function ReportedAll(angles: seq<int>): (r: seq<int>)
    ensures |r| == |angles|
  {
    seq(|angles|, i requires 0 <= i < |angles| => Reported(angles[i]))
  }

  /** How often `start`, `start + 360` degrees, ... lies at or below an unwrapped angle. */
  function Laps(start: int, angle: int): int { (angle - start) / CIRCLE }

  /** Angles that only grow after `p < q`, repeats allowed, two successive steps making
      less than a turn. */
  predicate Forward(p: int, q: int, angles: seq<int>)
    decreases |angles|
  {
    p < q < p + CIRCLE
    && (angles == []
        || (angles[0] == q && Forward(p, q, angles[1..]))
        || (q < angles[0] < p + CIRCLE && Forward(q, angles[0], angles[1..])))
  }

  predicate Backward(p: int, q: int, angles: seq<int>)
    decreases |angles|
  {
    p - CIRCLE < q < p
    && (angles == []
        || (angles[0] == q && Backward(p, q, angles[1..]))
        || (p - CIRCLE < angles[0] < q && Backward(q, angles[0], angles[1..])))
  }

  function Last(q: int, angles: seq<int>): int {
    if angles == [] then q else angles[|angles| - 1]
  }

  lemma AheadOfReported(x: int, y: int)
    requires x <= y < x + CIRCLE
    ensures Ahead(Reported(x), Reported(y)) == y - x
  {
    var k, l := x / CIRCLE, y / CIRCLE;
    assert Reported(x) == x - k * CIRCLE && Reported(y) == y - l * CIRCLE;
    assert l == k || l == k + 1;
  }

  /** Passing the start azimuth, told on the circle. */
  lemma LapsStep(s: int, q: int, t: int)
    requires OnCircle(s) && q <= t < q + CIRCLE
    ensures Laps(s, t) - Laps(s, q) == if 0 < Ahead(Reported(q), s) <= t - q then 1 else 0
    ensures Laps(s, t) - Laps(s, q) == if t - q > 0 && Ahead(s, Reported(t)) < t - q then 1 else 0
  {
    var k, l := (q - s) / CIRCLE, (t - s) / CIRCLE;
    var u, v := (q - s) % CIRCLE, (t - s) % CIRCLE;
    assert q - s == k * CIRCLE + u && t - s == l * CIRCLE + v;
    assert l == k || l == k + 1;
    assert Ahead(s, Reported(q)) == u && Ahead(s, Reported(t)) == v by {
      ShiftMod(q - s, -(q / CIRCLE));
      ShiftMod(t - s, -(t / CIRCLE));
    }
    AheadCases(s, Reported(q));
    AheadCases(Reported(q), s);
  }

  lemma ShiftMod(x: int, k: int)
    ensures (x + k * CIRCLE) % CIRCLE == x % CIRCLE
  {
  }

  /** A step through zero misses a start that is no whole hundredth if it ends on the hundredth below. */
  predicate Misses(start: real, q: int, t: int) {
    Reported(t) < Reported(q) && Reported(t) == start.Floor && start != start.Floor as real
  }

  /** Steps of a forward run that miss the start */
  function Missed(start: real, q: int, angles: seq<int>): nat
    decreases |angles|
  {
    if angles == [] then 0
    else (if angles[0] != q && Misses(start, q, angles[0]) then 1 else 0) + Missed(start, angles[0], angles[1..])
  }

  lemma CountFirst(start: real, h: History, angles: seq<int>)
    requires angles != []
    ensures CountSplits(start, h, ReportedAll(angles))
            == (if Splits(start, h, Reported(angles[0])) then 1 else 0)
               + CountSplits(start, Remember(h, Reported(angles[0])), ReportedAll(angles[1..]))
  {
    assert ReportedAll(angles)[0] == Reported(angles[0]);
    assert ReportedAll(angles)[1..] == ReportedAll(angles[1..]);
  }

  lemma RepeatNeverSplits(start: real, h: History, azimuth: int)
    requires azimuth == h.last
    ensures !Splits(start, h, azimuth) && Remember(h, azimuth) == h
  {
  }

  /** One forward step closes a frame if it passes the start, unless it misses it. */
  lemma ForwardStep(start: real, p: int, q: int, t: int)
    requires IsStart(start) && p < q < t < p + CIRCLE
    ensures (if Splits(start, History(Reported(p), Reported(q)), Reported(t)) then 1 else 0)
            == Laps(start.Floor, t) - Laps(start.Floor, q) - if Misses(start, q, t) then 1 else 0
    ensures Remember(History(Reported(p), Reported(q)), Reported(t)) == History(Reported(q), Reported(t))
  {
    AheadOfReported(p, q);
    AheadOfReported(q, t);
    ForwardExact(start, History(Reported(p), Reported(q)), Reported(t));
    LapsStep(start.Floor, q, t);
  }

  /** In every forward run, from the third distinct azimuth on, the number of frames closed is the
      number of times the unwrapped angle passes the start azimuth, less the steps that miss it. */
  lemma {:induction false} ForwardRunExact(start: real, p: int, q: int, angles: seq<int>)
    requires IsStart(start) && Forward(p, q, angles)
    ensures CountSplits(start, History(Reported(p), Reported(q)), ReportedAll(angles))
            == Laps(start.Floor, Last(q, angles)) - Laps(start.Floor, q) - Missed(start, q, angles)
    decreases |angles|
  {
    if angles != [] {
      var t := angles[0];
      var h := History(Reported(p), Reported(q));
      CountFirst(start, h, angles);
      if t == q {
        RepeatNeverSplits(start, h, Reported(t));
        ForwardRunExact(start, p, q, angles[1..]);
      } else {
        ForwardStep(start, p, q, t);
        ForwardRunExact(start, q, t, angles[1..]);
      }
    }
  }

  /** So a forward run closes one frame each time it passes the start if and only if no step misses it. */
  lemma ForwardRunRight(start: real, p: int, q: int, angles: seq<int>)
    requires IsStart(start) && Forward(p, q, angles)
    ensures CountSplits(start, History(Reported(p), Reported(q)), ReportedAll(angles))
            == Laps(start.Floor, Last(q, angles)) - Laps(start.Floor, q)
            <==> Missed(start, q, angles) == 0
  {
    ForwardRunExact(start, p, q, angles);
  }

  lemma {:induction false} WholeStartNotMissed(s: int, q: int, angles: seq<int>)
    ensures Missed(s as real, q, angles) == 0
    decreases |angles|
  {
    if angles != [] {
      WholeStartNotMissed(s, angles[0], angles[1..]);
    }
  }

  /** In particular if the start is a whole hundredth. */
  lemma ForwardRun(s: int, p: int, q: int, angles: seq<int>)
    requires OnCircle(s) && Forward(p, q, angles)
    ensures CountSplits(s as real, History(Reported(p), Reported(q)), ReportedAll(angles))
            == Laps(s, Last(q, angles)) - Laps(s, q)
  {
    ForwardRunExact(s as real, p, q, angles);
    WholeStartNotMissed(s, q, angles);
  }

  /** A forward run of `n` whole revolutions closes `n` frames, less the steps that miss the start. */
  lemma OncePerRevolution(start: real, p: int, q: int, angles: seq<int>, n: nat)
    requires IsStart(start) && Forward(p, q, angles) && Last(q, angles) == q + n * CIRCLE
    ensures CountSplits(start, History(Reported(p), Reported(q)), ReportedAll(angles))
            == n - Missed(start, q, angles)
  {
    ForwardRunExact(start, p, q, angles);
    assert (q - start.Floor + n * CIRCLE) / CIRCLE == (q - start.Floor) / CIRCLE + n;
  }

  /** A start of 1.005 degrees is passed once, and no frame is closed. */
  lemma ForwardMissed()
    ensures Forward(-300, -100, [100]) && Laps(100, Last(-100, [100])) - Laps(100, -100) == 1
    ensures CountSplits(100.5, History(Reported(-300), Reported(-100)), ReportedAll([100])) == 0
  {
    var angles := [100];
    assert angles[1..] == [] && Reported(100) == 100 && Reported(-100) == 35900;
    assert Laps(100, 100) == 0 && Laps(100, -100) == -1;
    assert (100.5).Floor == 100;
    assert Missed(100.5, 100, []) == 0;
    assert Missed(100.5, -100, angles) == 1;
    ForwardRunExact(100.5, -300, -100, angles);
  }

  /** Turning backward, a step that does not pass zero counts the start azimuth if it ends there, not
      if it begins there; one that passes zero counts it the other way, as the laps do. */
  function Slip(s: int, q: int, t: int): int {
    if Reported(t) > Reported(q) then 0
    else (if Reported(t) == s then 1 else 0) - (if Reported(q) == s then 1 else 0)
  }

  /** Steps that do not pass zero and end on the start azimuth, less those that begin on it */
  function Slips(s: int, q: int, angles: seq<int>): int
    decreases |angles|
  {
    if angles == [] then 0
    else if angles[0] == q then Slips(s, q, angles[1..])
    else Slip(s, q, angles[0]) + Slips(s, angles[0], angles[1..])
  }

  /** One backward step closes a frame if it passes the start, apart from the slip. */
  lemma BackwardStep(start: real, p: int, q: int, t: int)
    requires IsStart(start) && p - CIRCLE < t < q < p
    ensures (if Splits(start, History(Reported(p), Reported(q)), Reported(t)) then 1 else 0)
            == Laps(start.Floor, q) - Laps(start.Floor, t) + Slip(start.Floor, q, t)
    ensures Remember(History(Reported(p), Reported(q)), Reported(t)) == History(Reported(q), Reported(t))
  {
    var s := start.Floor;
    AheadOfReported(q, p);
    AheadOfReported(t, q);
    BackwardExact(start, History(Reported(p), Reported(q)), Reported(t));
    LapsStep(s, t, q);
    AheadCases(Reported(t), s);
    AheadCases(Reported(t), Reported(q));
  }

  /** In every backward run, from the third distinct azimuth on, the number of frames closed is the
      number of times the unwrapped angle passes the start azimuth, and the slips. */
  lemma {:induction false} BackwardRunExact(start: real, p: int, q: int, angles: seq<int>)
    requires IsStart(start) && Backward(p, q, angles)
    ensures CountSplits(start, History(Reported(p), Reported(q)), ReportedAll(angles))
            == Laps(start.Floor, q) - Laps(start.Floor, Last(q, angles)) + Slips(start.Floor, q, angles)
    decreases |angles|
  {
    if angles != [] {
      var t := angles[0];
      var h := History(Reported(p), Reported(q));
      CountFirst(start, h, angles);
      if t == q {
        RepeatNeverSplits(start, h, Reported(t));
        BackwardRunExact(start, p, q, angles[1..]);
      } else {
        BackwardStep(start, p, q, t);
        BackwardRunExact(start, q, t, angles[1..]);
      }
    }
  }

  /** So a backward run closes one frame each time it passes the start if and only if its slips even
      out: a start that is sampled is come to and left by steps of the same kind. */
  lemma BackwardRunRight(start: real, p: int, q: int, angles: seq<int>)
    requires IsStart(start) && Backward(p, q, angles)
    ensures CountSplits(start, History(Reported(p), Reported(q)), ReportedAll(angles))
            == Laps(start.Floor, q) - Laps(start.Floor, Last(q, angles))
            <==> Slips(start.Floor, q, angles) == 0
  {
    BackwardRunExact(start, p, q, angles);
  }

  lemma {:induction false} NoSlips(s: int, q: int, angles: seq<int>)
    requires Reported(q) != s && s !in ReportedAll(angles)
    ensures Slips(s, q, angles) == 0
    decreases |angles|
  {
    if angles != [] {
      assert ReportedAll(angles)[0] == Reported(angles[0]);
      assert ReportedAll(angles)[1..] == ReportedAll(angles[1..]);
      NoSlips(s, angles[0], angles[1..]);
    }
  }

  /** In particular if the start azimuth is never itself sampled. */
  lemma BackwardRun(start: real, p: int, q: int, angles: seq<int>)
    requires IsStart(start) && Backward(p, q, angles)
    requires Reported(q) != start.Floor && start.Floor !in ReportedAll(angles)
    ensures CountSplits(start, History(Reported(p), Reported(q)), ReportedAll(angles))
            == Laps(start.Floor, q) - Laps(start.Floor, Last(q, angles))
  {
    BackwardRunExact(start, p, q, angles);
    NoSlips(start.Floor, q, angles);
  }

  /** Sampled at the step through zero, the start can be passed without a frame being closed ... */
  lemma BackwardMissed()
    ensures var angles := [-100, -300];
            && Backward(300, 100, angles) && Laps(35900, 100) - Laps(35900, Last(100, angles)) == 1
            && CountSplits(35900.0, History(Reported(300), Reported(100)), ReportedAll(angles)) == 0
  {
    var angles := [-100, -300];
    assert angles[1..] == [-300] && angles[1..][1..] == [];
    assert Reported(-100) == 35900 && Reported(-300) == 35700;
    assert Laps(35900, 100) == -1 && Laps(35900, -300) == -2;
    assert Backward(100, -100, angles[1..]);
    assert Slips(35900, -100, angles[1..]) == Slip(35900, -100, -300) == -1;
    BackwardRunExact(35900.0, 300, 100, angles);
  }

  /** ... and passed once with two frames closed. */
  lemma BackwardDoubled()
    ensures var angles := [100, -100];
            && Backward(500, 300, angles) && Laps(100, 300) - Laps(100, Last(300, angles)) == 1
            && CountSplits(100.0, History(Reported(500), Reported(300)), ReportedAll(angles)) == 2
  {
    var angles := [100, -100];
    assert angles[1..] == [-100] && angles[1..][1..] == [];
    assert Reported(100) == 100 && Reported(-100) == 35900 && Reported(300) == 300;
    assert Laps(100, 300) == 0 && Laps(100, -100) == -1;
    assert Backward(300, 100, angles[1..]);
    assert Slips(100, 100, angles[1..]) == Slip(100, 100, -100) == 0;
    BackwardRunExact(100.0, 500, 300, angles);
  }

  // ---------------------------------------------------------------- corner cases

  /** Decoding the closing packet again, as the frame loop does, neither closes a frame
      nor changes the history. */
  lemma RedecodeIsNeutral(start: real, h: History, azimuth: int)
    ensures var after := Remember(h, azimuth);
            !Splits(start, after, azimuth) && Remember(after, azimuth) == after
  {
  }

  /** The comments promise that nothing is decided before the third packet, but the history
      starts at zero, not at -1: the first packet is indeed ignored, ... */
  lemma FirstPacketNeverSplits(start: real, azimuth: int)
    ensures !Splits(start, FRESH, azimuth)
    ensures azimuth != 0 ==> Remember(FRESH, azimuth) == History(0, azimuth)
  {
  }

  /** ... but the second is judged against a sample at zero that never came. With azimuths `a` and
      then `b` the frame closes: turning on from zero over `a` to `b`, if the start lies in (a, b];
      else turning back, if it lies in [b, a). */
  lemma SecondPacketExact(start: real, a: int, b: int)
    requires IsStart(start) && OnCircle(a) && OnCircle(b) && a != 0 && a != b
    ensures var s := start.Floor;
            Splits(start, Remember(FRESH, a), b) <==> if a < b then a < s <= b else b <= s < a
  {
    var h := Remember(FRESH, a);
    var s := start.Floor;
    AheadCases(0, a);
    AheadCases(a, 0);
    AheadCases(a, b);
    AheadCases(b, a);
    AheadCases(a, s);
    AheadCases(b, s);
    if a < b {
      ForwardExact(start, h, b);
    } else if b == 0 {
      ReversalExact(start, h, b);
    } else {
      BackwardExact(start, h, b);
    }
  }

  /** So for a sensor that turns forward from `a` to `b`, the second decision is right exactly when
      the step does not pass zero, or begins or ends on the start azimuth. */
  lemma SecondPacketRight(start: real, a: int, b: int)
    requires IsStart(start) && OnCircle(a) && OnCircle(b) && a != 0 && a != b
    ensures var s := start.Floor;
            (Splits(start, Remember(FRESH, a), b) <==> 0 < Ahead(a, s) <= Ahead(a, b))
            <==> a < b || s == a || s == b
  {
    var s := start.Floor;
    SecondPacketExact(start, a, b);
    AheadCases(a, s);
    AheadCases(a, b);
  }

  /** After a first azimuth of zero the second closes nothing: right exactly when it does not pass the
      start. */
  lemma SecondPacketAfterZero(start: real, b: int)
    requires IsStart(start) && OnCircle(b)
    ensures var s := start.Floor;
            (Splits(start, Remember(FRESH, 0), b) <==> 0 < Ahead(0, s) <= Ahead(0, b)) <==> !(0 < s <= b)
  {
    AheadCases(0, start.Floor);
    AheadCases(0, b);
  }

  /** Turning forward from 359 to 1 degree closes a frame at a start azimuth of 2 degrees. */
  lemma SecondPacketMaySplitWrongly()
    ensures Splits(200.0, Remember(FRESH, 35900), 100)
    ensures !(0 < Ahead(35900, 200) <= Ahead(35900, 100))
  {
    SecondPacketExact(200.0, 35900, 100);
    AheadCases(35900, 200);
    AheadCases(35900, 100);
  }
}
