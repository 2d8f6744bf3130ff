/** Packet-loss accounting by sequence number. All counters are `uint32_t`; the clock is
    an input, read once in the once-a-second test and once more when that test passes. */
module PacketLoss {

  const U32: int := 0x1_0000_0000
  const SECOND: int := 1000000

  type uint32 = x: int | 0 <= x < 0x1_0000_0000

  function Add(x: uint32, y: uint32): uint32 { (x + y) % U32 }
  function Sub(x: uint32, y: uint32): uint32 { (x - y) % U32 }

  datatype Counters = Counters(
    total: uint32, start: uint32, last: uint32, loss: uint32,
    startTime: uint32, totalLoss: uint32, totalStart: uint32, isLoss: bool)

  const FRESH := Counters(0, 0, 0, 0, 0, 0, 0, false)

  /** A packet's sequence number and the two clock readings taken while it is counted. */
  datatype Reading = Reading(seqnum: uint32, now: uint32, later: uint32)

  /** The lost packets a log line reports; zero when nothing is logged. */
  datatype Counted = Counted(counters: Counters, logged: uint32)

  function Count(c: Counters, r: Reading): Counted {
    var total := if r.seqnum > c.last && c.last != 0 then Add(c.total, Sub(r.seqnum, c.last)) else c.total;
    if c.start == 0 then
      Counted(Counters(total, r.seqnum, r.seqnum, 0, r.now, 0, r.seqnum, false), 0)
    else
      var gap := Sub(r.seqnum, c.last);
      var lost := if gap > 1 then Sub(gap, 1) else 0;
      var loss := Add(c.loss, lost);
      var totalLoss := Add(c.totalLoss, lost);
      if loss != 0 && Sub(r.now, c.startTime) >= SECOND
      then Counted(Counters(total, r.seqnum, r.seqnum, 0, r.later, totalLoss, c.totalStart, gap > 1), loss)
      else Counted(Counters(total, c.start, r.seqnum, loss, c.startTime, totalLoss, c.totalStart, gap > 1), 0)
  }

  class LossCounter {
    var enabled: bool
    var total: uint32
    var start: uint32
    var last: uint32
    var loss: uint32
    var startTime: uint32
    var totalLoss: uint32
    var totalStart: uint32
    var isLoss: bool

    ghost function State(): Counters
      reads this
    {
      Counters(total, start, last, loss, startTime, totalLoss, totalStart, isLoss)
    }

    constructor (enabled: bool)
      ensures State() == FRESH && this.enabled == enabled
    {
      this.enabled := enabled;
      total, start, last, loss, startTime, totalLoss, totalStart, isLoss := 0, 0, 0, 0, 0, 0, 0, false;
    }

    method CalPktLoss(seqnum: uint32, now: uint32, later: uint32) returns (logged: uint32)
      modifies this
      ensures enabled == old(enabled)
      ensures Counted(State(), logged)
              == if enabled then Count(old(State()), Reading(seqnum, now, later)) else Counted(old(State()), 0)
    {
      logged := 0;
      if !enabled {
        return;
      }
      if seqnum > last && last != 0 {
        total := Add(total, Sub(seqnum, last));
      }
      isLoss := false;
      if start == 0 {
        loss, totalLoss := 0, 0;
        startTime := now;
        start, last, totalStart := seqnum, seqnum, seqnum;
        return;
      }
      if Sub(seqnum, last) > 1 {
        loss := Add(loss, Sub(Sub(seqnum, last), 1));
        totalLoss := Add(totalLoss, Sub(Sub(seqnum, last), 1));
        isLoss := true;
      }
      if loss != 0 && Sub(now, startTime) >= SECOND {
        logged := loss;
        loss := 0;
        startTime := later;
        start := seqnum;
      }
      last := seqnum;
    }
  }

  // ---------------------------------------------------------------- whole runs

  function Run(c: Counters, rs: seq<Reading>): Counters
    decreases |rs|
  {
    if rs == [] then c else Count(Run(c, rs[..|rs| - 1]), rs[|rs| - 1]).counters
  }

  /** The sum of all log lines. */
  function Logged(c: Counters, rs: seq<Reading>): nat
    decreases |rs|
  {
    if rs == [] then 0
    else Logged(c, rs[..|rs| - 1]) + Count(Run(c, rs[..|rs| - 1]), rs[|rs| - 1]).logged
  }

  predicate Nondecreasing(rs: seq<Reading>) {
    forall i, j :: 0 <= i <= j < |rs| ==> rs[i].seqnum <= rs[j].seqnum
  }

  /** The sequence numbers received. */
  function Received(rs: seq<Reading>): set<uint32> {
    set r <- rs :: r.seqnum
  }

  lemma ReceivedExtend(rs: seq<Reading>)
    requires |rs| > 1 && Nondecreasing(rs)
    ensures var n := |rs| - 1;
            |Received(rs)| == |Received(rs[..n])| + if rs[n].seqnum == rs[n - 1].seqnum then 0 else 1
  {
    var n := |rs| - 1;
    var most, r := rs[..n], rs[n];
    forall x | x in Received(rs)
      ensures x in Received(most) + {r.seqnum}
    {
      var i :| 0 <= i < |rs| && rs[i].seqnum == x;
      if i < n {
        assert most[i] in most;
      }
    }
    forall x | x in Received(most)
      ensures x in Received(rs) && x <= rs[n - 1].seqnum <= r.seqnum
    {
      var i :| 0 <= i < n && most[i].seqnum == x;
      assert rs[i] in rs;
    }
    assert r in rs && most[n - 1] in most;
    assert Received(rs) == Received(most) + {r.seqnum};
    if r.seqnum == rs[n - 1].seqnum {
      assert most[n - 1].seqnum in Received(most);
      assert Received(rs) == Received(most);
    } else {
      assert r.seqnum !in Received(most);
    }
  }

  /** The range of numbers seen since `first`, the packets received and the packets reported lost
      add up, in total and over the log lines. */
  predicate Accounted(c: Counters, first: uint32, last: uint32, received: int, logged: int) {
    && c.start > 0 && c.last == last && c.totalStart == first && first <= c.start <= last
    && c.total == last - first
    && c.total - c.totalLoss == received - 1
    && logged + c.loss == c.totalLoss
  }

  lemma AccountedNext(c: Counters, first: uint32, received: nat, logged: nat, r: Reading)
    requires 0 < first <= c.last <= r.seqnum && received >= 1 && Accounted(c, first, c.last, received, logged)
    ensures var d := Count(c, r);
            Accounted(d.counters, first, r.seqnum, received + (if r.seqnum == c.last then 0 else 1), logged + d.logged)
  {
    CountForward(c, r);
  }

  lemma AccountingOne(rs: seq<Reading>)
    requires |rs| == 1 && rs[0].seqnum > 0
    ensures Accounted(Run(FRESH, rs), rs[0].seqnum, rs[0].seqnum, |Received(rs)|, Logged(FRESH, rs))
    ensures |Received(rs)| == 1
  {
    assert rs[..0] == [];
    assert Received(rs) == {rs[0].seqnum};
    assert Run(FRESH, rs) == Count(FRESH, rs[0]).counters;
  }

  /** Whatever the clock says, a run that does not go back is accounted for. */
  lemma {:induction false} Accounting(rs: seq<Reading>)
    requires rs != [] && Nondecreasing(rs) && rs[0].seqnum > 0
    ensures Accounted(Run(FRESH, rs), rs[0].seqnum, rs[|rs| - 1].seqnum, |Received(rs)|, Logged(FRESH, rs))
    ensures |Received(rs)| >= 1
    decreases |rs|
  {
    var n := |rs| - 1;
    if n == 0 {
      AccountingOne(rs);
    } else {
      var most, r := rs[..n], rs[n];
      Accounting(most);
      ReceivedExtend(rs);
      assert most[0] == rs[0] && rs[0].seqnum <= most[n - 1].seqnum <= r.seqnum;
      AccountedNext(Run(FRESH, most), rs[0].seqnum, |Received(most)|, Logged(FRESH, most), r);
    }
  }

  /** One packet that does not go back. */
  lemma CountForward(c: Counters, r: Reading)
    requires c.start > 0 && 0 < c.last <= r.seqnum
    requires c.total + (r.seqnum - c.last) < U32 && c.loss <= c.totalLoss <= c.total
    ensures var d := Count(c, r);
            var lost := if r.seqnum - c.last > 1 then r.seqnum - c.last - 1 else 0;
            && d.counters.last == r.seqnum && d.counters.totalStart == c.totalStart
            && d.counters.start == (if d.logged == 0 then c.start else r.seqnum)
            && d.counters.startTime == (if d.logged == 0 then c.startTime else r.later)
            && d.counters.total == c.total + (r.seqnum - c.last)
            && d.counters.totalLoss == c.totalLoss + lost
            && d.logged + d.counters.loss == c.loss + lost
  {
    var gap := Sub(r.seqnum, c.last);
    assert gap == r.seqnum - c.last;
    var lost := if gap > 1 then Sub(gap, 1) else 0;
    assert lost == if gap > 1 then gap - 1 else 0;
    assert Add(c.total, gap) == c.total + gap;
    assert Add(c.loss, lost) == c.loss + lost;
    assert Add(c.totalLoss, lost) == c.totalLoss + lost;
  }

  /** Counting a packet again leaves every total alone. */
  predicate Neutral(once: Counters, again: Reading) {
    var twice := Count(once, again);
    && twice.counters.total == once.total && twice.counters.totalLoss == once.totalLoss
    && twice.counters.last == once.last && !twice.counters.isLoss
    && twice.logged + twice.counters.loss == once.loss
  }

  /** A packet counted twice is as good as counted once, exactly unless its number is zero, a window
      begins with it, and packets have been lost: the second time the losses are forgotten. */
  lemma RepeatIsNeutral(c: Counters, r: Reading, again: Reading)
    requires r.seqnum == again.seqnum
    ensures var once := Count(c, r).counters;
            && (Neutral(once, again) <==> once.start > 0 || once.totalLoss == 0)
            && (r.seqnum > 0 ==> once.start > 0)
  {
    var once := Count(c, r).counters;
    NoChange(again.seqnum, once.loss);
    NoChange(again.seqnum, once.totalLoss);
  }

  lemma NoChange(x: uint32, y: uint32)
    ensures Sub(x, x) == 0 && Add(y, 0) == y
  {
  }

  /** Packets numbered zero before the first other one are as good as not received. */
  lemma {:induction false} LeadingZeros(zeros: seq<Reading>, r: Reading)
    requires forall z <- zeros :: z.seqnum == 0
    ensures Count(Run(FRESH, zeros), r) == Count(FRESH, r)
    decreases |zeros|
  {
    if zeros != [] {
      assert zeros[|zeros| - 1] in zeros;
      LeadingZeros(zeros[..|zeros| - 1], zeros[|zeros| - 1]);
    }
  }

  /** One packet that goes back. */
  lemma CountBackward(c: Counters, r: Reading)
    requires c.start > 0 && r.seqnum < c.last
    ensures var d := Count(c, r).counters;
            && d.total == c.total && d.last == r.seqnum
            && d.totalLoss == Add(c.totalLoss, U32 - 1 - (c.last - r.seqnum))
  {
    assert Sub(r.seqnum, c.last) == U32 - (c.last - r.seqnum);
  }

  /** The accounting survives a packet exactly when its number does not go back. One that goes back
      fits no account at all, and is counted as almost 2^32 lost packets. */
  lemma KeptExactlyForward(c: Counters, r: Reading, first: uint32, received: nat, logged: nat)
    requires 0 < first <= c.last && received >= 1 && Accounted(c, first, c.last, received, logged)
    ensures var d := Count(c, r);
            var now := received + if r.seqnum == c.last then 0 else 1;
            && (Accounted(d.counters, first, r.seqnum, now, logged + d.logged) <==> r.seqnum >= c.last)
            && (r.seqnum < c.last ==>
                  && (forall n: int, m: int :: !Accounted(d.counters, first, r.seqnum, n, m))
                  && d.counters.totalLoss == Add(c.totalLoss, U32 - 1 - (c.last - r.seqnum)))
  {
    if r.seqnum < c.last {
      CountBackward(c, r);
    } else {
      AccountedNext(c, first, received, logged, r);
    }
  }

  // ---------------------------------------------------------------- what is told, and when

  /** A loss is told of exactly if the number is neither the last one nor the next. */
  lemma LossTold(c: Counters, r: Reading)
    requires c.start > 0
    ensures Count(c, r).counters.isLoss <==> r.seqnum != c.last && r.seqnum != (c.last + 1) % U32
  {
  }

  /** Losses of a window that has lasted a second or more are logged by the next packet, with those it
      finds itself; before that nothing is logged. */
  lemma LoggedAfterASecond(c: Counters, r: Reading)
    requires c.start > 0 && 0 < c.last <= r.seqnum && c.loss <= c.totalLoss <= c.total
    requires c.total + (r.seqnum - c.last) < U32 && c.startTime <= r.now
    ensures var d := Count(c, r);
            var losses := c.loss + if r.seqnum - c.last > 1 then r.seqnum - c.last - 1 else 0;
            if r.now - c.startTime >= 1000000 then d.logged == losses && d.counters.loss == 0
            else d.logged == 0 && d.counters.loss == losses
  {
    CountForward(c, r);
    assert Sub(r.now, c.startTime) == r.now - c.startTime;
  }

  /** The clock goes forward, in 32 bits. */
  predicate Ticking(rs: seq<Reading>) {
    forall i, j :: 0 <= i <= j < |rs| ==> rs[i].now <= rs[j].later && (i < j ==> rs[i].later <= rs[j].now)
  }

  /** After a packet that logged, the window begins no earlier than that. */
  lemma {:induction false} WindowBegins(c: Counters, rs: seq<Reading>, i: nat)
    requires i < |rs| && Ticking(rs) && Count(Run(c, rs[..i]), rs[i]).logged != 0
    ensures rs[i].later <= Run(c, rs).startTime <= rs[|rs| - 1].later
    decreases |rs|
  {
    var n := |rs| - 1;
    if i < n {
      assert rs[..n][..i] == rs[..i] && Ticking(rs[..n]);
      WindowBegins(c, rs[..n], i);
      assert rs[..n][n - 1] == rs[n - 1];
      WindowKept(Run(c, rs[..n]), rs[n]);
    } else {
      assert rs[..n] == rs[..i];
    }
  }

  lemma WindowKept(c: Counters, r: Reading)
    ensures var d := Count(c, r).counters;
            d.startTime == c.startTime || d.startTime == r.now || d.startTime == r.later
  {
  }

  lemma LogNeedsASecond(c: Counters, r: Reading)
    requires Count(c, r).logged != 0 && c.startTime <= r.now
    ensures r.now - c.startTime >= 1000000
  {
  }

  /** In every run in which the clock goes forward, any two log lines are a second or more apart. */
  lemma LogLinesApart(c: Counters, rs: seq<Reading>, i: nat, j: nat)
    requires i < j < |rs| && Ticking(rs)
    requires Count(Run(c, rs[..i]), rs[i]).logged != 0 && Count(Run(c, rs[..j]), rs[j]).logged != 0
    ensures rs[j].now - rs[i].later >= 1000000
  {
    var front := rs[..j];
    assert front[..i] == rs[..i] && Ticking(front);
    WindowBegins(c, front, i);
    assert front[j - 1] == rs[j - 1];
    LogNeedsASecond(Run(c, front), rs[j]);
  }
}
