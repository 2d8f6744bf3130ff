/** How a frame is computed by several threads. `Run` submits the packets of a frame by their
    indices, the parser thread hands them to the handle threads, each of which computes a packet
    and counts it; and `Run` publishes the frame when the count is the number submitted. The
    threads' steps interleave in any order. */
module FramePipeline {
  import opened Options

  const RING: nat := 36000
  const MAX_PACKETS: nat := 5000
  const U32: nat := 0x1_0000_0000

  /** A submitted packet. The threads see only `index`; `epoch` tells which frame it was submitted
      for, counting the frames published or given up. */
  datatype Job = Job(index: nat, epoch: nat)

  /** A handle thread: its buffer, and the job it computes with its mutex held. */
  datatype Worker = Worker(queue: seq<Job>, busy: Option<Job>)

  /** Where `Run` is: between packets; at the overflow; clearing the buffers, before worker `next`;
      waiting for the frame to be computed; having seen the count equal, before setting it to zero;
      or showing the frame to the callbacks. */
  datatype Phase = Collecting | Overflowing | Clearing(next: nat) | Waiting | Zeroing | Publishing

  /** `done`: the jobs counted since the counter was zero. `lost`: those dropped from a full buffer
      since then. `carried`: what was in flight, counted or lost when the present frame began, and
      `cleared`: what has been cleared of that. `resets`: how often a frame was given up. These and
      `epoch` only record what happened. */
  datatype State = State(phase: Phase, index: nat, epoch: nat,
                         ring: seq<Job>, hand: Option<Job>, turn: nat, workers: seq<Worker>, counter: nat,
                         done: seq<Job>, lost: seq<Job>, carried: seq<Job>, cleared: seq<Job>, resets: nat)

  datatype Action =
    | Submit | Split | Overflow | ClearNext | Check | Zero | Reopen
    | ParserPop | ParserCompute | ParserPush
    | WorkerPop(w: nat) | WorkerDone(w: nat)

  function Initial(threads: nat): State {
    State(Collecting, 0, 0, [], None, 0, Workers(threads), 0, [], [], [], [], 0)
  }

  /** Handle threads are started only if there are to be two or more. */
  function Workers(threads: nat): seq<Worker> {
    if threads < 2 then [] else seq(threads, _ => Worker([], None))
  }

  predicate Enabled(s: State, a: Action) {
    match a
    case Submit => s.phase.Collecting? && |s.ring| < RING
    case Split => s.phase.Collecting?
    case Overflow => s.phase.Overflowing?
    case ClearNext => s.phase.Clearing?
    case Check => s.phase.Waiting?
    case Zero => s.phase.Zeroing?
    case Reopen => s.phase.Publishing?
    case ParserPop => s.hand.None? && s.ring != []
    case ParserCompute => s.hand.Some? && |s.workers| < 2
    case ParserPush => s.hand.Some? && |s.workers| >= 2 && s.workers[s.turn % |s.workers|].busy.None?
    case WorkerPop(w) => w < |s.workers| && s.workers[w].busy.None? && s.workers[w].queue != []
    case WorkerDone(w) => w < |s.workers| && s.workers[w].busy.Some?
  }

  /** A job's computation ends with `FrameNumAdd`. */
  function Counted(s: State, j: Job): State {
    s.(counter := (s.counter + 1) % U32, done := s.done + [j])
  }

  function Apply(s: State, a: Action): State
    requires Enabled(s, a)
  {
    match a
    case Submit =>
      s.(ring := s.ring + [Job(s.index, s.epoch)], index := s.index + 1,
         phase := if s.index + 1 >= MAX_PACKETS then Overflowing else Collecting)
    case Split => s.(phase := Waiting)
    case Overflow =>
      // packet_index is set to zero and the ring is cleared; the counter is not
      var t := s.(ring := []);
      t.(phase := Clearing(0), index := 0, epoch := s.epoch + 1, resets := s.resets + 1,
         carried := InFlight(t) + s.done + s.lost, cleared := [])
    case ClearNext =>
      var i := s.phase.next;
      if i < |s.workers| then
        s.(workers := s.workers[i := s.workers[i].(queue := [])], phase := Clearing(i + 1),
           cleared := s.cleared + s.workers[i].queue)
      else s.(phase := Collecting)
    case Check => if s.counter == s.index then s.(phase := Zeroing) else s
    case Zero =>
      s.(phase := Publishing, counter := 0, epoch := s.epoch + 1,
         done := [], lost := [], carried := InFlight(s), cleared := [])
    case Reopen => s.(phase := Collecting, index := 0)
    case ParserPop => s.(ring := s.ring[1..], hand := Some(s.ring[0]))
    case ParserCompute => Counted(s.(hand := None), s.hand.value)
    case ParserPush =>
      var w := s.turn % |s.workers|;
      var queue := s.workers[w].queue + [s.hand.value];
      var t := s.(hand := None, turn := w + 1);
      if |queue| > RING then
        t.(workers := s.workers[w := s.workers[w].(queue := queue[1..])], lost := s.lost + [queue[0]])
      else t.(workers := s.workers[w := s.workers[w].(queue := queue)])
    case WorkerPop(w) =>
      var q := s.workers[w].queue;
      s.(workers := s.workers[w := Worker(q[1..], Some(q[0]))])
    case WorkerDone(w) =>
      Counted(s.(workers := s.workers[w := s.workers[w].(busy := None)]), s.workers[w].busy.value)
  }

  /** Some thread gets from `s` to `t` by one action. */
  ghost predicate Steps(s: State, t: State) {
    exists a :: Enabled(s, a) && Apply(s, a) == t
  }

  ghost predicate Reach(start: State, step: (State, State) -> bool, k: nat, s: State) {
    if k == 0 then s == start else exists r :: Reach(start, step, k - 1, r) && step(r, s)
  }

  /** `s` can be reached in `k` steps. */
  ghost predicate ReachableIn(threads: nat, k: nat, s: State) {
    Reach(Initial(threads), Steps, k, s)
  }

  // ---------------------------------------------------------------- jobs in flight

  function Opt(o: Option<Job>): seq<Job> {
    if o.Some? then [o.value] else []
  }

  function Held(w: Worker): seq<Job> {
    w.queue + Opt(w.busy)
  }

  /** What the first `n` workers hold */
  function AllHeld(workers: seq<Worker>, n: nat): seq<Job>
    requires n <= |workers|
  {
    if n == 0 then [] else AllHeld(workers, n - 1) + Held(workers[n - 1])
  }

  /** Jobs submitted, but not computed: in the ring, in the parser thread's hand, or at a worker */
  function InFlight(s: State): seq<Job> {
    s.ring + Opt(s.hand) + AllHeld(s.workers, |s.workers|)
  }

  /** The jobs of one frame's first `n` packets */
  function Frame(epoch: nat, n: nat): (r: seq<Job>)
    ensures |r| == n
  {
    if n == 0 then [] else Frame(epoch, n - 1) + [Job(n - 1, epoch)]
  }

  /** How many packets of the present frame have been submitted; none, once it is being published. */
  function Live(s: State): nat {
    if s.phase.Publishing? then 0 else s.index
  }

  // Jobs are compared by weighing them: with weight one for one job and zero for all others the
  // weight is how often that job occurs, with weight one for all it is how many there are.

  function Weight(f: Job -> nat, jobs: seq<Job>): nat
    decreases |jobs|
  {
    if jobs == [] then 0 else Weight(f, jobs[..|jobs| - 1]) + f(jobs[|jobs| - 1])
  }

  lemma WeightOne(f: Job -> nat, jobs: seq<Job>, j: Job)
    ensures Weight(f, jobs + [j]) == Weight(f, jobs) + f(j)
  {
    assert (jobs + [j])[..|jobs|] == jobs;
  }

  lemma {:induction false} WeightBoth(f: Job -> nat, a: seq<Job>, b: seq<Job>)
    ensures Weight(f, a + b) == Weight(f, a) + Weight(f, b)
    decreases |b|
  {
    if b == [] {
      assert a + b == a;
    } else {
      var n := |b| - 1;
      assert a + b == (a + b[..n]) + [b[n]];
      WeightOne(f, a + b[..n], b[n]);
      WeightBoth(f, a, b[..n]);
    }
  }

  lemma WeightFront(f: Job -> nat, jobs: seq<Job>)
    requires jobs != []
    ensures Weight(f, jobs) == f(jobs[0]) + Weight(f, jobs[1..])
  {
    assert jobs == [jobs[0]] + jobs[1..];
    WeightBoth(f, [jobs[0]], jobs[1..]);
    WeightOne(f, [], jobs[0]);
    assert [] + [jobs[0]] == [jobs[0]];
  }

  function OptWeight(f: Job -> nat, o: Option<Job>): nat {
    if o.Some? then f(o.value) else 0
  }

  function WorkerWeight(f: Job -> nat, w: Worker): nat {
    Weight(f, w.queue) + OptWeight(f, w.busy)
  }

  function WorkersWeight(f: Job -> nat, workers: seq<Worker>, n: nat): nat
    requires n <= |workers|
  {
    if n == 0 then 0 else WorkersWeight(f, workers, n - 1) + WorkerWeight(f, workers[n - 1])
  }

  function FlightWeight(f: Job -> nat, s: State): nat {
    Weight(f, s.ring) + OptWeight(f, s.hand) + WorkersWeight(f, s.workers, |s.workers|)
  }

  lemma OptWeighs(f: Job -> nat, o: Option<Job>)
    ensures Weight(f, Opt(o)) == OptWeight(f, o)
  {
    if o.Some? {
      WeightOne(f, [], o.value);
      assert [] + [o.value] == [o.value];
    }
  }

  lemma WorkerWeighs(f: Job -> nat, w: Worker)
    ensures Weight(f, Held(w)) == WorkerWeight(f, w)
  {
    OptWeighs(f, w.busy);
    WeightBoth(f, w.queue, Opt(w.busy));
  }

  lemma WeighsMore(f: Job -> nat, jobs: seq<Job>, w: Worker)
    ensures Weight(f, jobs + Held(w)) == Weight(f, jobs) + WorkerWeight(f, w)
  {
    WorkerWeighs(f, w);
    WeightBoth(f, jobs, Held(w));
  }

  lemma {:induction false} WorkersWeigh(f: Job -> nat, workers: seq<Worker>, n: nat)
    requires n <= |workers|
    ensures Weight(f, AllHeld(workers, n)) == WorkersWeight(f, workers, n)
  {
    if n > 0 {
      WorkersWeigh(f, workers, n - 1);
      WeighsMore(f, AllHeld(workers, n - 1), workers[n - 1]);
    }
  }

  lemma FlightWeighs(f: Job -> nat, s: State)
    ensures Weight(f, InFlight(s)) == FlightWeight(f, s)
  {
    OptWeighs(f, s.hand);
    WorkersWeigh(f, s.workers, |s.workers|);
    WeightBoth(f, s.ring, Opt(s.hand));
    WeightBoth(f, s.ring + Opt(s.hand), AllHeld(s.workers, |s.workers|));
  }

  lemma {:induction false} WorkerChanges(f: Job -> nat, workers: seq<Worker>, n: nat, w: nat, x: Worker)
    requires w < |workers| && n <= |workers|
    ensures WorkersWeight(f, workers[w := x], n)
            == WorkersWeight(f, workers, n) + if w < n then WorkerWeight(f, x) - WorkerWeight(f, workers[w]) else 0
  {
    if n > 0 {
      WorkerChanges(f, workers, n - 1, w, x);
    }
  }

  // ---------------------------------------------------------------- every step conserves the jobs

  /** Every job of the present frame, and every one carried over, is in flight, counted, lost or
      cleared. */
  predicate Balanced(f: Job -> nat, s: State) {
    FlightWeight(f, s) + Weight(f, s.done) + Weight(f, s.lost) + Weight(f, s.cleared)
    == Weight(f, Frame(s.epoch, Live(s))) + Weight(f, s.carried)
  }

  lemma FrameGrows(f: Job -> nat, epoch: nat, n: nat)
    requires n > 0
    ensures Weight(f, Frame(epoch, n)) == Weight(f, Frame(epoch, n - 1)) + f(Job(n - 1, epoch))
  {
    WeightOne(f, Frame(epoch, n - 1), Job(n - 1, epoch));
  }

  lemma BalancedSubmit(f: Job -> nat, s: State)
    requires Balanced(f, s) && Enabled(s, Submit)
    ensures Balanced(f, Apply(s, Submit))
  {
    WeightOne(f, s.ring, Job(s.index, s.epoch));
    FrameGrows(f, s.epoch, s.index + 1);
  }

  lemma BalancedClear(f: Job -> nat, s: State)
    requires Balanced(f, s) && Enabled(s, ClearNext) && s.index == 0
    ensures Balanced(f, Apply(s, ClearNext))
    ensures s.phase.next < |s.workers| ==>
              Apply(s, ClearNext).cleared == s.cleared + s.workers[s.phase.next].queue
              && Apply(s, ClearNext).workers[s.phase.next].queue == []
  {
    var i := s.phase.next;
    if i < |s.workers| {
      WeightBoth(f, s.cleared, s.workers[i].queue);
      WorkerChanges(f, s.workers, |s.workers|, i, s.workers[i].(queue := []));
    }
  }

  lemma BalancedRun(f: Job -> nat, s: State, a: Action)
    requires Balanced(f, s) && Enabled(s, a) && (a.Split? || a.Check? || a.Reopen?)
    ensures Balanced(f, Apply(s, a))
  {
  }

  lemma BalancedOverflow(f: Job -> nat, s: State)
    requires Balanced(f, s) && Enabled(s, Overflow)
    ensures Balanced(f, Apply(s, Overflow))
  {
    var t := s.(ring := []);
    FlightWeighs(f, t);
    WeightBoth(f, InFlight(t), s.done);
    WeightBoth(f, InFlight(t) + s.done, s.lost);
  }

  lemma BalancedZero(f: Job -> nat, s: State)
    requires Balanced(f, s) && Enabled(s, Zero)
    ensures Balanced(f, Apply(s, Zero))
  {
    FlightWeighs(f, s);
  }

  lemma BalancedParser(f: Job -> nat, s: State, a: Action)
    requires Balanced(f, s) && Enabled(s, a) && (a.ParserPop? || a.ParserCompute? || a.ParserPush?)
    ensures Balanced(f, Apply(s, a))
  {
    match a
    case ParserPop => WeightFront(f, s.ring);
    case ParserCompute => WeightOne(f, s.done, s.hand.value);
    case ParserPush =>
      var w := s.turn % |s.workers|;
      var queue := s.workers[w].queue + [s.hand.value];
      WeightOne(f, s.workers[w].queue, s.hand.value);
      if |queue| > RING {
        WeightFront(f, queue);
        WeightOne(f, s.lost, queue[0]);
        WorkerChanges(f, s.workers, |s.workers|, w, s.workers[w].(queue := queue[1..]));
      } else {
        WorkerChanges(f, s.workers, |s.workers|, w, s.workers[w].(queue := queue));
      }
  }

  lemma BalancedWorker(f: Job -> nat, s: State, a: Action)
    requires Balanced(f, s) && Enabled(s, a) && (a.WorkerPop? || a.WorkerDone?)
    ensures Balanced(f, Apply(s, a))
  {
    match a
    case WorkerPop(w) =>
      var q := s.workers[w].queue;
      WeightFront(f, q);
      WorkerChanges(f, s.workers, |s.workers|, w, Worker(q[1..], Some(q[0])));
    case WorkerDone(w) =>
      WeightOne(f, s.done, s.workers[w].busy.value);
      WorkerChanges(f, s.workers, |s.workers|, w, s.workers[w].(busy := None));
  }

  /** What `Run` keeps to itself */
  predicate Counting(s: State) {
    && s.counter == |s.done| % U32
    && s.index <= MAX_PACKETS
    && (s.phase.Collecting? ==> s.index < MAX_PACKETS)
    && (s.phase.Clearing? ==> s.index == 0)
  }

  lemma CountWraps(counter: nat, n: nat)
    requires counter == n % U32
    ensures (counter + 1) % U32 == (n + 1) % U32
  {
  }

  lemma CountingCounted(s: State, j: Job)
    requires Counting(s)
    ensures Counting(Counted(s, j))
  {
    CountWraps(s.counter, |s.done|);
  }

  lemma CountingKept(s: State, a: Action)
    requires Counting(s) && Enabled(s, a)
    ensures Counting(Apply(s, a))
  {
    match a
    case ParserCompute => CountingCounted(s.(hand := None), s.hand.value);
    case WorkerDone(w) =>
      CountingCounted(s.(workers := s.workers[w := s.workers[w].(busy := None)]), s.workers[w].busy.value);
    case _ =>
  }

  lemma BalancedKept(f: Job -> nat, s: State, a: Action)
    requires Balanced(f, s) && Counting(s) && Enabled(s, a)
    ensures Balanced(f, Apply(s, a))
  {
    match a
    case Submit => BalancedSubmit(f, s);
    case ClearNext => BalancedClear(f, s);
    case Overflow => BalancedOverflow(f, s);
    case Zero => BalancedZero(f, s);
    case ParserPop => BalancedParser(f, s, a);
    case ParserCompute => BalancedParser(f, s, a);
    case ParserPush => BalancedParser(f, s, a);
    case WorkerPop(_) => BalancedWorker(f, s, a);
    case WorkerDone(_) => BalancedWorker(f, s, a);
    case _ => BalancedRun(f, s, a);
  }

  lemma {:induction false} IdleWorkers(f: Job -> nat, workers: seq<Worker>, n: nat)
    requires n <= |workers| && forall w :: 0 <= w < |workers| ==> workers[w] == Worker([], None)
    ensures WorkersWeight(f, workers, n) == 0
  {
    if n > 0 {
      IdleWorkers(f, workers, n - 1);
    }
  }

  /** What holds at the start and is kept by every step holds in every reachable state. */
  lemma {:induction false} Induction(holds: State -> bool, start: State, step: (State, State) -> bool, k: nat, s: State)
    requires holds(start) && Reach(start, step, k, s)
    requires forall r, t :: holds(r) && step(r, t) ==> holds(t)
    ensures holds(s)
  {
    if k > 0 {
      var r :| Reach(start, step, k - 1, r) && step(r, s);
      Induction(holds, start, step, k - 1, r);
    }
  }

  predicate Steady(f: Job -> nat, s: State) {
    Balanced(f, s) && Counting(s)
  }

  lemma SteadyKept(f: Job -> nat, s: State, a: Action)
    requires Steady(f, s) && Enabled(s, a)
    ensures Steady(f, Apply(s, a))
  {
    BalancedKept(f, s, a);
    CountingKept(s, a);
  }

  lemma SteadyAtFirst(f: Job -> nat, threads: nat)
    ensures Steady(f, Initial(threads))
  {
    IdleWorkers(f, Workers(threads), |Workers(threads)|);
  }

  /** In every run, with any number of threads and with frames given up or not, the jobs balance. */
  lemma AlwaysBalanced(threads: nat, k: nat, s: State, f: Job -> nat)
    requires ReachableIn(threads, k, s)
    ensures Balanced(f, s) && Counting(s)
  {
    var holds := (t: State) => Steady(f, t);
    SteadyAtFirst(f, threads);
    forall r, t | holds(r) && Steps(r, t)
      ensures holds(t)
    {
      var a :| Enabled(r, a) && Apply(r, a) == t;
      SteadyKept(f, r, a);
    }
    Induction(holds, Initial(threads), Steps, k, s);
    assert holds(s);
  }

  // ---------------------------------------------------------------- when the check passes

  function One(j: Job): nat {
    1
  }

  function Is(j: Job): Job -> nat {
    (i: Job) => if i == j then 1 else 0
  }

  lemma {:induction false} WeightOfOne(jobs: seq<Job>)
    ensures Weight(One, jobs) == |jobs|
    decreases |jobs|
  {
    if jobs != [] {
      WeightOfOne(jobs[..|jobs| - 1]);
    }
  }

  lemma {:induction false} WeightIsCount(j: Job, jobs: seq<Job>)
    ensures Weight(Is(j), jobs) == multiset(jobs)[j]
    decreases |jobs|
  {
    if jobs != [] {
      var n := |jobs| - 1;
      WeightIsCount(j, jobs[..n]);
      assert jobs == jobs[..n] + [jobs[n]];
    }
  }

  /** The same in numbers of jobs */
  predicate Sized(s: State) {
    FlightSize(s) + |s.done| + |s.lost| + |s.cleared| == Live(s) + |s.carried|
  }

  function FlightSize(s: State): nat {
    FlightWeight(One, s)
  }

  lemma FlightSizes(s: State)
    ensures |InFlight(s)| == FlightSize(s)
  {
    FlightWeighs(One, s);
    WeightOfOne(InFlight(s));
  }

  lemma SizedIfBalanced(s: State)
    requires Balanced(One, s)
    ensures Sized(s)
  {
    WeightOfOne(s.done);
    WeightOfOne(s.lost);
    WeightOfOne(s.cleared);
    WeightOfOne(s.carried);
    WeightOfOne(Frame(s.epoch, Live(s)));
  }

  lemma AlwaysSized(threads: nat, k: nat, s: State)
    requires ReachableIn(threads, k, s)
    ensures Sized(s) && Counting(s)
  {
    AlwaysBalanced(threads, k, s, One);
    SizedIfBalanced(s);
  }

  lemma SameResidue(index: nat, done: nat, open: int)
    requires index < U32 && done == index - open
    ensures done % U32 == index <==> open % U32 == 0
  {
  }

  /** Jobs not computed, less jobs carried over */
  function Open(s: State): int {
    |InFlight(s)| + |s.lost| + |s.cleared| - |s.carried|
  }

  lemma OpenCount(s: State)
    requires Sized(s)
    ensures |s.done| == Live(s) - Open(s)
  {
    FlightSizes(s);
  }

  /** In every run, frames given up included: the check passes exactly when as many jobs are not
      computed as were carried over from frames before, as a 32-bit count. */
  lemma CheckPassesExactly(threads: nat, k: nat, s: State)
    requires ReachableIn(threads, k, s) && s.phase.Waiting?
    ensures Enabled(s, Check) && (Apply(s, Check).phase.Zeroing? <==> Open(s) % U32 == 0)
  {
    AlwaysSized(threads, k, s);
    OpenCount(s);
    SameResidue(s.index, |s.done|, Open(s));
  }

  // ---------------------------------------------------------------- runs in which no frame is given up

  /** Nothing is carried over, nothing is lost; once the check has passed, nothing is in flight. */
  predicate Clean(s: State) {
    && s.carried == [] && s.cleared == [] && s.lost == []
    && !s.phase.Clearing?
    && (s.phase.Zeroing? ==> s.counter == s.index && |s.done| == s.index)
  }

  lemma {:induction false} QueueWeight(workers: seq<Worker>, n: nat, w: nat)
    requires w < n <= |workers|
    ensures |workers[w].queue| <= WorkersWeight(One, workers, n)
  {
    if w < n - 1 {
      QueueWeight(workers, n - 1, w);
    } else {
      WeightOfOne(workers[w].queue);
    }
  }

  /** A buffer is no longer than what is in flight. */
  lemma QueueFits(s: State, w: nat)
    requires w < |s.workers|
    ensures |s.workers[w].queue| + OptWeight(One, s.hand) <= FlightSize(s)
  {
    QueueWeight(s.workers, |s.workers|, w);
  }

  lemma CleanZero(s: State)
    requires Clean(s) && Sized(s) && Enabled(s, Zero)
    ensures Clean(Apply(s, Zero))
  {
    FlightSizes(s);
  }

  lemma CleanRun(s: State, a: Action)
    requires Clean(s) && Sized(s) && Counting(s) && Enabled(s, a)
    requires a.Submit? || a.Split? || a.Check? || a.Reopen?
    ensures Clean(Apply(s, a))
  {
  }

  lemma CleanWork(s: State, a: Action)
    requires Clean(s) && Sized(s) && Counting(s) && Enabled(s, a)
    requires a.ParserPop? || a.ParserCompute? || a.ParserPush? || a.WorkerPop? || a.WorkerDone?
    requires Sized(Apply(s, a))
    ensures Clean(Apply(s, a))
  {
    if a.ParserPush? {
      QueueFits(s, s.turn % |s.workers|);
    }
  }

  predicate Safe(s: State) {
    Steady(One, s) && (s.resets == 0 ==> Clean(s))
  }

  lemma CleanKept(s: State, a: Action)
    requires Enabled(s, a) && Apply(s, a).resets == 0
    requires Clean(s) && Sized(s) && Counting(s) && Sized(Apply(s, a))
    ensures Clean(Apply(s, a))
  {
    match a
    case Overflow =>
    case ClearNext =>
    case Zero => CleanZero(s);
    case Submit => CleanRun(s, a);
    case Split => CleanRun(s, a);
    case Check => CleanRun(s, a);
    case Reopen => CleanRun(s, a);
    case _ => CleanWork(s, a);
  }

  lemma ResetsGrow(s: State, a: Action)
    requires Enabled(s, a)
    ensures s.resets <= Apply(s, a).resets
  {
  }

  lemma SafeKept(s: State, a: Action)
    requires Safe(s) && Enabled(s, a)
    ensures Safe(Apply(s, a))
  {
    SteadyKept(One, s, a);
    SizedIfBalanced(s);
    SizedIfBalanced(Apply(s, a));
    ResetsGrow(s, a);
    if Apply(s, a).resets == 0 {
      CleanKept(s, a);
    }
  }

  lemma AlwaysClean(threads: nat, k: nat, s: State)
    requires ReachableIn(threads, k, s) && s.resets == 0
    ensures Clean(s) && Sized(s) && Counting(s)
  {
    SteadyAtFirst(One, threads);
    forall r, t | Safe(r) && Steps(r, t)
      ensures Safe(t)
    {
      var a :| Enabled(r, a) && Apply(r, a) == t;
      SafeKept(r, a);
    }
    Induction(Safe, Initial(threads), Steps, k, s);
    SizedIfBalanced(s);
  }

  // ---------------------------------------------------------------- when a pass is right

  /** The frame is complete: every packet submitted for it is computed, exactly once and counted, and
      no thread holds any work. */
  predicate Complete(s: State) {
    && multiset(s.done) == multiset(Frame(s.epoch, s.index))
    && s.counter == |s.done| == s.index
    && InFlight(s) == []
  }

  /** All that was carried over has been cleared, and nothing is in flight or lost. */
  predicate Even(s: State) {
    |s.cleared| == |s.carried| && |InFlight(s)| == 0 && s.lost == []
  }

  lemma ComputedOnce(s: State, j: Job)
    requires Balanced(Is(j), s) && Even(s) && !s.phase.Publishing?
    requires Weight(Is(j), s.cleared) == Weight(Is(j), s.carried)
    ensures multiset(s.done)[j] == multiset(Frame(s.epoch, s.index))[j]
  {
    FlightWeighs(Is(j), s);
    WeightIsCount(j, s.done);
    WeightIsCount(j, Frame(s.epoch, s.index));
  }

  /** As many jobs cleared as carried over: with the count equal, nothing can be left. */
  lemma NothingInFlight(s: State)
    requires Sized(s) && Counting(s) && s.counter == s.index && !s.phase.Publishing?
    requires |s.cleared| == |s.carried|
    ensures Even(s) && |s.done| == s.index
  {
    FlightSizes(s);
  }

  /** The opposite of `Is`: together they weigh as much as `One`. */
  function Not(j: Job): Job -> nat {
    (i: Job) => if i == j then 0 else 1
  }

  lemma {:induction false} WeightsAdd(j: Job, jobs: seq<Job>)
    ensures Weight(Is(j), jobs) + Weight(Not(j), jobs) == |jobs|
    decreases |jobs|
  {
    if jobs != [] {
      WeightsAdd(j, jobs[..|jobs| - 1]);
    }
  }

  /** Only what was carried over is cleared. */
  predicate Under(f: Job -> nat, s: State) {
    Steady(f, s) && Weight(f, s.cleared) <= Weight(f, s.carried)
  }

  /** Nothing has been carried over and nothing cleared. */
  predicate SameBooks(b: State, s: State) {
    s.carried == b.carried && s.cleared == b.cleared
  }

  lemma BooksChange(s: State, a: Action)
    requires Enabled(s, a)
    ensures SameBooks(s, Apply(s, a)) || Apply(s, a).cleared == [] || a.ClearNext?
  {
  }

  lemma UnderStep(f: Job -> nat, s: State, t: State)
    requires Under(f, s) && Steady(f, t) && (SameBooks(s, t) || t.cleared == [] || Live(t) == 0)
    ensures Under(f, t)
  {
  }

  lemma UnderKept(f: Job -> nat, s: State, a: Action)
    requires Under(f, s) && Enabled(s, a)
    ensures Under(f, Apply(s, a))
  {
    SteadyKept(f, s, a);
    BooksChange(s, a);
    UnderStep(f, s, Apply(s, a));
  }

  /** In every run what has been cleared of the frames before is part of what was carried over. */
  lemma AlwaysUnder(threads: nat, k: nat, s: State, f: Job -> nat)
    requires ReachableIn(threads, k, s)
    ensures Under(f, s)
  {
    var holds := (t: State) => Under(f, t);
    SteadyAtFirst(f, threads);
    forall r, t | holds(r) && Steps(r, t)
      ensures holds(t)
    {
      var a :| Enabled(r, a) && Apply(r, a) == t;
      UnderKept(f, r, a);
    }
    Induction(holds, Initial(threads), Steps, k, s);
    assert holds(s);
  }

  /** As many cleared as carried over: then the same ones. */
  lemma ClearedAll(threads: nat, k: nat, s: State, j: Job)
    requires ReachableIn(threads, k, s) && |s.cleared| == |s.carried|
    ensures Balanced(Is(j), s) && Weight(Is(j), s.cleared) == Weight(Is(j), s.carried)
  {
    AlwaysUnder(threads, k, s, Is(j));
    AlwaysUnder(threads, k, s, Not(j));
    WeightsAdd(j, s.cleared);
    WeightsAdd(j, s.carried);
  }

  lemma AllComputed(threads: nat, k: nat, s: State)
    requires ReachableIn(threads, k, s) && |s.cleared| == |s.carried|
    requires s.counter == s.index && !s.phase.Publishing?
    ensures Complete(s) && s.lost == []
  {
    AlwaysSized(threads, k, s);
    NothingInFlight(s);
    forall j: Job
      ensures multiset(s.done)[j] == multiset(Frame(s.epoch, s.index))[j]
    {
      ClearedAll(threads, k, s, j);
      ComputedOnce(s, j);
    }
  }

  /** Once the check has passed with nothing left over, no thread can count any more. */
  predicate Settled(s: State) {
    Steady(One, s) && (s.phase.Zeroing? && |s.cleared| == |s.carried| ==> s.counter == s.index)
  }

  lemma CannotCount(s: State, t: State)
    requires Sized(s) && Counting(s) && Sized(t) && Counting(t) && Live(s) == s.index == t.index == Live(t)
    requires |s.cleared| == |s.carried| && SameBooks(s, t) && |s.done| <= |t.done|
    ensures s.counter == s.index ==> t.counter == t.index
  {
  }

  lemma ZeroingKept(s: State, a: Action)
    requires Enabled(s, a) && Apply(s, a).phase.Zeroing?
    ensures SameBooks(s, Apply(s, a)) && s.index == Apply(s, a).index && |s.done| <= |Apply(s, a).done|
    ensures (s.phase.Waiting? && s.counter == s.index) || s.phase.Zeroing?
  {
  }

  lemma SettledKept(s: State, a: Action)
    requires Settled(s) && Enabled(s, a)
    ensures Settled(Apply(s, a))
  {
    SteadyKept(One, s, a);
    var t := Apply(s, a);
    if t.phase.Zeroing? && |t.cleared| == |t.carried| {
      ZeroingKept(s, a);
      SizedIfBalanced(s);
      SizedIfBalanced(t);
      CannotCount(s, t);
    }
  }

  lemma AlwaysSettled(threads: nat, k: nat, s: State)
    requires ReachableIn(threads, k, s)
    ensures Settled(s)
  {
    SteadyAtFirst(One, threads);
    forall r, t | Settled(r) && Steps(r, t)
      ensures Settled(t)
    {
      var a :| Enabled(r, a) && Apply(r, a) == t;
      SettledKept(r, a);
    }
    Induction(Settled, Initial(threads), Steps, k, s);
  }

  /** In every run, frames given up included: when the check passes, and from then until the counter is
      set to zero, the frame is complete and no packet was dropped if and only if all that was carried
      over from the frames before has been cleared. */
  lemma PassIsRight(threads: nat, k: nat, s: State)
    requires ReachableIn(threads, k, s) && (s.phase.Zeroing? || (s.phase.Waiting? && s.counter == s.index))
    ensures Complete(s) && s.lost == [] <==> |s.cleared| == |s.carried|
  {
    AlwaysSized(threads, k, s);
    FlightSizes(s);
    AlwaysSettled(threads, k, s);
    if |s.cleared| == |s.carried| {
      AllComputed(threads, k, s);
    }
  }

  // ---------------------------------------------------------------- one frame, from its first packet

  /** A step of some thread that does not end or give up a frame */
  ghost predicate Within(s: State, t: State) {
    exists a :: Enabled(s, a) && Apply(s, a) == t && !a.Overflow? && !a.ClearNext? && !a.Zero?
  }

  /** Steps of a narrower kind after steps of a wider kind are steps of the wider kind. */
  lemma {:induction false} Onward(start: State, wide: (State, State) -> bool, m: nat, b: State,
                                  narrow: (State, State) -> bool, k: nat, s: State, n: nat)
    requires Reach(start, wide, m, b) && Reach(b, narrow, k, s) && n == m + k
    requires forall r, t :: narrow(r, t) ==> wide(r, t)
    ensures Reach(start, wide, n, s)
  {
    if k > 0 {
      var r :| Reach(b, narrow, k - 1, r) && narrow(r, s);
      Onward(start, wide, m, b, narrow, k - 1, r, n - 1);
    }
  }

  lemma WithinSteps(r: State, t: State)
    requires Within(r, t)
    ensures Steps(r, t)
  {
    var a :| Enabled(r, a) && Apply(r, a) == t && !a.Overflow? && !a.ClearNext? && !a.Zero?;
  }

  lemma WithinKeeps(r: State, t: State)
    requires Within(r, t)
    ensures SameBooks(r, t)
  {
    var a :| Enabled(r, a) && Apply(r, a) == t && !a.Overflow? && !a.ClearNext? && !a.Zero?;
  }

  lemma BooksKept(b: State, k: nat, s: State)
    requires Reach(b, Within, k, s)
    ensures SameBooks(b, s)
  {
    var holds := (t: State) => SameBooks(b, t);
    forall r, t | holds(r) && Within(r, t)
      ensures holds(t)
    {
      WithinKeeps(r, t);
    }
    Induction(holds, b, Within, k, s);
    assert holds(s);
  }

  lemma StillReachable(threads: nat, m: nat, b: State, k: nat, s: State, n: nat)
    requires ReachableIn(threads, m, b) && Reach(b, Within, k, s) && n == m + k
    ensures ReachableIn(threads, n, s)
  {
    forall r, t | Within(r, t)
      ensures Steps(r, t)
    {
      WithinSteps(r, t);
    }
    Onward(Initial(threads), Steps, m, b, Within, k, s, n);
  }

  /** Nothing submitted before is in flight, counted or dropped. */
  predicate Fresh(s: State) {
    InFlight(s) == [] && s.done == [] && s.lost == []
  }

  lemma FreshExactly(threads: nat, k: nat, b: State)
    requires ReachableIn(threads, k, b) && Live(b) == 0
    ensures Fresh(b) <==> |b.cleared| == |b.carried|
  {
    AlwaysSized(threads, k, b);
    FlightSizes(b);
  }

  lemma RightIfFresh(threads: nat, m: nat, b: State, n: nat, s: State)
    requires ReachableIn(threads, m, b) && b.phase.Collecting? && b.index == 0
    requires ReachableIn(threads, n, s) && SameBooks(b, s) && s.phase.Waiting? && s.counter == s.index
    ensures Complete(s) && s.lost == [] <==> Fresh(b)
  {
    PassIsRight(threads, n, s);
    FreshExactly(threads, m, b);
  }

  /** From the moment `b` before a frame's first packet to the moment `s` at which its check passes,
      whatever the threads do in between: the frame is complete if and only if at `b` nothing of the
      frames before was in flight, counted or dropped. After a frame has been given up this asks for
      more than is done, which is to empty the ring and the buffers: the jobs the threads have in hand
      would have to be awaited, and the counter to be set to zero. */
  lemma GivingUpExactly(threads: nat, m: nat, b: State, k: nat, s: State)
    requires ReachableIn(threads, m, b) && b.phase.Collecting? && b.index == 0
    requires Reach(b, Within, k, s) && s.phase.Waiting? && s.counter == s.index
    ensures Complete(s) && s.lost == [] <==> Fresh(b)
  {
    BooksKept(b, k, s);
    var n := m + k;
    StillReachable(threads, m, b, k, s, n);
    RightIfFresh(threads, m, b, n, s);
  }

  // ---------------------------------------------------------------- every pass, if no frame has been given up

  /** Unless a frame has been given up: whenever the check passes the frame is complete, and it stays
      so until the counter is set to zero, so no count is lost by reading it and then setting it; no
      thread works while the frame is shown; and the ring is never full and no buffer drops a job. */
  lemma Safety(threads: nat, k: nat, s: State)
    requires ReachableIn(threads, k, s) && s.resets == 0
    ensures s.phase.Waiting? && s.counter == s.index ==> Complete(s)
    ensures s.phase.Zeroing? ==> Complete(s)
    ensures s.phase.Publishing? ==> InFlight(s) == []
    ensures |s.ring| <= 5000 < RING && s.lost == []
    ensures forall w :: 0 <= w < |s.workers| ==> |s.workers[w].queue| <= 5000
  {
    AlwaysClean(threads, k, s);
    FlightSizes(s);
    if !s.phase.Publishing? && s.counter == s.index {
      AllComputed(threads, k, s);
    }
    forall w | 0 <= w < |s.workers|
      ensures |s.workers[w].queue| <= MAX_PACKETS
    {
      QueueFits(s, w);
    }
  }

  lemma {:induction false} FrameOnce(epoch: nat, n: nat, i: nat)
    ensures Weight(Is(Job(i, epoch)), Frame(epoch, n)) == if i < n then 1 else 0
  {
    if n > 0 {
      FrameOnce(epoch, n - 1, i);
      FrameGrows(Is(Job(i, epoch)), epoch, n);
    }
  }

  /** Unless a frame has been given up: at every moment each submitted packet of the present frame is
      either in flight or computed, and once. */
  lemma EachOnce(threads: nat, k: nat, s: State, i: nat)
    requires ReachableIn(threads, k, s) && s.resets == 0 && i < Live(s)
    ensures multiset(InFlight(s))[Job(i, s.epoch)] + multiset(s.done)[Job(i, s.epoch)] == 1
  {
    var j := Job(i, s.epoch);
    AlwaysClean(threads, k, s);
    AlwaysBalanced(threads, k, s, Is(j));
    FrameOnce(s.epoch, Live(s), i);
    FlightWeighs(Is(j), s);
    WeightIsCount(j, s.done);
    WeightIsCount(j, InFlight(s));
  }

  // ---------------------------------------------------------------- the threads come to an end

  /** A step of the parser thread or of a handle thread */
  predicate ByThread(a: Action) {
    a.ParserPop? || a.ParserCompute? || a.ParserPush? || a.WorkerPop? || a.WorkerDone?
  }

  ghost predicate ThreadSteps(s: State, t: State) {
    exists a :: ByThread(a) && Enabled(s, a) && Apply(s, a) == t
  }

  /** The steps that the jobs of the first `n` workers still need */
  function WorkHeld(workers: seq<Worker>, n: nat): nat
    requires n <= |workers|
  {
    if n == 0 then 0 else WorkHeld(workers, n - 1) + 2 * |workers[n - 1].queue| + |Opt(workers[n - 1].busy)|
  }

  /** A bound on the threads' steps still to come: a job is popped, handed on, popped again and done. */
  function Work(s: State): nat {
    4 * |s.ring| + 3 * |Opt(s.hand)| + WorkHeld(s.workers, |s.workers|)
  }

  lemma {:induction false} WorkChanges(workers: seq<Worker>, n: nat, w: nat, x: Worker)
    requires w < |workers| && n <= |workers|
    ensures WorkHeld(workers[w := x], n)
            == WorkHeld(workers, n)
               + if w < n then 2 * |x.queue| + |Opt(x.busy)| - 2 * |workers[w].queue| - |Opt(workers[w].busy)| else 0
  {
    if n > 0 {
      WorkChanges(workers, n - 1, w, x);
    }
  }

  lemma WorkShrinks(s: State, a: Action)
    requires Enabled(s, a) && ByThread(a)
    ensures Work(Apply(s, a)) < Work(s)
  {
    match a
    case ParserPop =>
    case ParserCompute =>
    case ParserPush =>
      var w := s.turn % |s.workers|;
      WorkChanges(s.workers, |s.workers|, w, Apply(s, a).workers[w]);
    case WorkerPop(w) => WorkChanges(s.workers, |s.workers|, w, Apply(s, a).workers[w]);
    case WorkerDone(w) => WorkChanges(s.workers, |s.workers|, w, Apply(s, a).workers[w]);
  }

  lemma {:induction false} SomeHeld(workers: seq<Worker>, n: nat) returns (w: nat)
    requires n <= |workers| && AllHeld(workers, n) != []
    ensures w < n && (workers[w].queue != [] || workers[w].busy.Some?)
  {
    if Held(workers[n - 1]) != [] {
      w := n - 1;
    } else {
      w := SomeHeld(workers, n - 1);
    }
  }

  /** While a job is in flight some thread can step. */
  lemma SomeStep(s: State) returns (a: Action)
    requires InFlight(s) != []
    ensures ByThread(a) && Enabled(s, a)
  {
    if s.hand.Some? {
      if |s.workers| < 2 {
        a := ParserCompute;
      } else if s.workers[s.turn % |s.workers|].busy.None? {
        a := ParserPush;
      } else {
        a := WorkerDone(s.turn % |s.workers|);
      }
    } else if s.ring != [] {
      a := ParserPop;
    } else {
      var w := SomeHeld(s.workers, |s.workers|);
      a := if s.workers[w].busy.Some? then WorkerDone(w) else WorkerPop(w);
    }
  }

  lemma {:induction false} HeldBy(workers: seq<Worker>, n: nat, w: nat)
    requires w < n <= |workers| && (workers[w].queue != [] || workers[w].busy.Some?)
    ensures AllHeld(workers, n) != []
  {
    if w < n - 1 {
      HeldBy(workers, n - 1, w);
    }
  }

  ghost predicate Idle(s: State) {
    forall a :: ByThread(a) ==> !Enabled(s, a)
  }

  /** No thread can step exactly if no job is in flight. */
  lemma IdleExactly(s: State)
    ensures Idle(s) <==> InFlight(s) == []
  {
    if InFlight(s) != [] {
      var a := SomeStep(s);
    } else {
      forall a | ByThread(a)
        ensures !Enabled(s, a)
      {
        if Enabled(s, a) && (a.WorkerPop? || a.WorkerDone?) {
          HeldBy(s.workers, |s.workers|, a.w);
        }
      }
    }
  }

  lemma CountedIfNoneInFlight(s: State)
    requires Clean(s) && Sized(s) && Counting(s) && s.phase.Waiting?
    ensures s.counter == s.index <==> InFlight(s) == []
  {
    FlightSizes(s);
  }

  /** Unless a frame has been given up, `Run` never waits in vain: the check passes exactly when no
      thread can step any more. */
  lemma NoDeadlock(threads: nat, k: nat, s: State)
    requires ReachableIn(threads, k, s) && s.resets == 0 && s.phase.Waiting?
    ensures s.counter == s.index <==> Idle(s)
  {
    AlwaysClean(threads, k, s);
    CountedIfNoneInFlight(s);
    IdleExactly(s);
  }

  lemma WorkDone(s: State, t: State)
    requires ThreadSteps(s, t)
    ensures Work(t) < Work(s)
  {
    var a :| ByThread(a) && Enabled(s, a) && Apply(s, a) == t;
    WorkShrinks(s, a);
  }

  /** And however the threads are scheduled, they can step no more often than that. */
  lemma {:induction false} StepsBounded(s: State, step: (State, State) -> bool, n: nat, t: State)
    requires Reach(s, step, n, t)
    requires forall r, u :: step(r, u) ==> Work(u) < Work(r)
    ensures n + Work(t) <= Work(s)
  {
    if n > 0 {
      var r :| Reach(s, step, n - 1, r) && step(r, t);
      StepsBounded(s, step, n - 1, r);
    }
  }

  lemma ThreadsComeToAnEnd(s: State, n: nat, t: State)
    requires Reach(s, ThreadSteps, n, t)
    ensures n + Work(t) <= Work(s)
  {
    forall r, u | ThreadSteps(r, u)
      ensures Work(u) < Work(r)
    {
      WorkDone(r, u);
    }
    StepsBounded(s, ThreadSteps, n, t);
  }

  /** `Run` can always go on, except that it waits for a frame to be computed, and that it cannot submit
      to a full ring; and it can end a frame at any packet. */
  lemma RunGoesOn(s: State)
    ensures match s.phase
            case Collecting => Enabled(s, Split) && (Enabled(s, Submit) <==> |s.ring| < 36000)
            case Overflowing => Enabled(s, Overflow) && Apply(s, Overflow).phase == Clearing(0)
            case Clearing(n) =>
              Enabled(s, ClearNext)
              && Apply(s, ClearNext).phase == if n < |s.workers| then Clearing(n + 1) else Collecting
            case Waiting =>
              Enabled(s, Check) && Apply(s, Check).phase == if s.counter == s.index then Zeroing else Waiting
            case Zeroing => Enabled(s, Zero) && Apply(s, Zero).phase == Publishing
            case Publishing => Enabled(s, Reopen) && Apply(s, Reopen).phase == Collecting
  {
  }

  // ---------------------------------------------------------------- jobs are handed out in turn

  ghost predicate Plays(s: State, actions: seq<Action>, t: State)
    decreases |actions|
  {
    if actions == [] then t == s
    else Enabled(s, actions[0]) && Plays(Apply(s, actions[0]), actions[1..], t)
  }

  function Pushes(actions: seq<Action>): nat
    decreases |actions|
  {
    if actions == [] then 0 else (if actions[0].ParserPush? then 1 else 0) + Pushes(actions[1..])
  }

  /** The worker `more` turns after worker `w` */
  function TurnAfter(w: nat, more: nat, n: nat): (r: nat)
    requires w < n
    ensures r < n
    decreases more
  {
    if more == 0 then w else TurnAfter(if w + 1 == n then 0 else w + 1, more - 1, n)
  }

  lemma WrapTurn(w: nat, n: nat)
    requires w < n
    ensures (w + 1) % n == if w + 1 == n then 0 else w + 1
  {
  }

  /** Whatever happens in between, the handle threads are given a job each in turn. */
  lemma {:induction false} HandedOutInTurn(s: State, actions: seq<Action>, t: State)
    requires Plays(s, actions, t) && |s.workers| > 0
    ensures |t.workers| == |s.workers|
    ensures t.turn % |s.workers| == TurnAfter(s.turn % |s.workers|, Pushes(actions), |s.workers|)
    decreases |actions|
  {
    if actions != [] {
      var r := Apply(s, actions[0]);
      HandedOutInTurn(r, actions[1..], t);
      WrapTurn(s.turn % |s.workers|, |s.workers|);
    }
  }

  /** The job in hand goes to the back of the buffer whose turn it is, of which the oldest is dropped if
      it held 36000 already; and no other buffer changes. */
  lemma PushedInTurn(s: State, w: nat)
    requires Enabled(s, ParserPush) && w < |s.workers|
    ensures var t := Apply(s, ParserPush);
            var queue := t.workers[w].queue;
            if w == s.turn % |s.workers| then queue != [] && queue[|queue| - 1] == s.hand.value
            else t.workers[w] == s.workers[w]
    ensures var queue := s.workers[s.turn % |s.workers|].queue;
            Apply(s, ParserPush).lost == s.lost + if |queue| >= 36000 then [queue[0]] else []
  {
  }

  // ---------------------------------------------------------------- jobs stay in order

  /** Submitted earlier */
  predicate Before(a: Job, b: Job) {
    a.epoch < b.epoch || (a.epoch == b.epoch && a.index < b.index)
  }

  predicate Ascending(jobs: seq<Job>) {
    forall i, j :: 0 <= i < j < |jobs| ==> Before(jobs[i], jobs[j])
  }

  predicate AllBefore(a: seq<Job>, b: seq<Job>) {
    forall i, j :: 0 <= i < |a| && 0 <= j < |b| ==> Before(a[i], b[j])
  }

  predicate AllBeforeJob(a: seq<Job>, j: Job) {
    forall i :: 0 <= i < |a| ==> Before(a[i], j)
  }

  lemma StillBefore(a: seq<Job>, j: Job, k: Job)
    requires AllBeforeJob(a, j) && (j == k || Before(j, k))
    ensures AllBeforeJob(a, k)
  {
  }

  /** The job that would be submitted next */
  function NextJob(s: State): Job {
    Job(Live(s), s.epoch)
  }

  /** A worker is at work on a job submitted before those in its buffer, and these are in order; all of
      them come before the job in the parser thread's hand, and that before those in the ring. */
  predicate InOrder(s: State, w: Worker) {
    && Ascending(w.queue) && AllBefore(Opt(w.busy), w.queue)
    && AllBefore(Opt(w.busy), Opt(s.hand)) && AllBefore(w.queue, Opt(s.hand))
    && AllBefore(Opt(w.busy), s.ring) && AllBefore(w.queue, s.ring)
    && AllBeforeJob(Opt(w.busy), NextJob(s)) && AllBeforeJob(w.queue, NextJob(s))
  }

  predicate AllInOrder(s: State) {
    && Ascending(s.ring) && AllBefore(Opt(s.hand), s.ring)
    && AllBeforeJob(Opt(s.hand), NextJob(s)) && AllBeforeJob(s.ring, NextJob(s))
    && forall w :: 0 <= w < |s.workers| ==> InOrder(s, s.workers[w])
  }

  lemma InOrderBySubmit(s: State)
    requires AllInOrder(s) && Counting(s) && Enabled(s, Submit)
    ensures AllInOrder(Apply(s, Submit))
  {
    var t := Apply(s, Submit);
    StillBefore(Opt(s.hand), NextJob(s), NextJob(t));
    StillBefore(s.ring, NextJob(s), NextJob(t));
    forall w | 0 <= w < |t.workers|
      ensures InOrder(t, t.workers[w])
    {
      assert InOrder(s, s.workers[w]);
      StillBefore(Opt(s.workers[w].busy), NextJob(s), NextJob(t));
      StillBefore(s.workers[w].queue, NextJob(s), NextJob(t));
    }
  }

  lemma NextJobLater(s: State, a: Action)
    requires Counting(s) && Enabled(s, a) && !ByThread(a) && !a.ClearNext? && !a.Submit?
    ensures NextJob(s) == NextJob(Apply(s, a)) || Before(NextJob(s), NextJob(Apply(s, a)))
  {
  }

  lemma InOrderByRun(s: State, a: Action)
    requires AllInOrder(s) && Counting(s) && Enabled(s, a) && !ByThread(a) && !a.ClearNext? && !a.Submit?
    ensures AllInOrder(Apply(s, a))
  {
    var t := Apply(s, a);
    NextJobLater(s, a);
    StillBefore(Opt(s.hand), NextJob(s), NextJob(t));
    StillBefore(s.ring, NextJob(s), NextJob(t));
    forall w | 0 <= w < |t.workers|
      ensures InOrder(t, t.workers[w])
    {
      assert InOrder(s, s.workers[w]);
      StillBefore(Opt(s.workers[w].busy), NextJob(s), NextJob(t));
      StillBefore(s.workers[w].queue, NextJob(s), NextJob(t));
    }
  }

  lemma InOrderByClear(s: State)
    requires AllInOrder(s) && Counting(s) && Enabled(s, ClearNext)
    ensures AllInOrder(Apply(s, ClearNext))
  {
    var t := Apply(s, ClearNext);
    assert NextJob(s) == NextJob(t);
    forall w | 0 <= w < |t.workers|
      ensures InOrder(t, t.workers[w])
    {
      assert InOrder(s, s.workers[w]);
    }
  }

  lemma InOrderByParser(s: State, a: Action)
    requires AllInOrder(s) && Enabled(s, a) && (a.ParserPop? || a.ParserCompute?)
    ensures AllInOrder(Apply(s, a))
  {
    var t := Apply(s, a);
    forall w | 0 <= w < |t.workers|
      ensures InOrder(t, t.workers[w])
    {
      assert InOrder(s, s.workers[w]);
    }
  }

  lemma InOrderPushed(s: State, w: Worker, t: State)
    requires AllInOrder(s) && InOrder(s, w) && s.hand.Some?
    requires t.hand.None? && t.ring == s.ring && NextJob(t) == NextJob(s)
    ensures InOrder(t, w.(queue := w.queue + [s.hand.value]))
  {
    var queue := w.queue + [s.hand.value];
    assert forall i :: 0 <= i < |queue| ==> queue[i] == if i < |w.queue| then w.queue[i] else s.hand.value;
  }

  lemma InOrderDropped(s: State, w: Worker)
    requires InOrder(s, w) && w.queue != []
    ensures InOrder(s, w.(queue := w.queue[1..]))
  {
  }

  lemma InOrderByPush(s: State)
    requires AllInOrder(s) && Enabled(s, ParserPush)
    ensures AllInOrder(Apply(s, ParserPush))
  {
    var t := Apply(s, ParserPush);
    var v := s.turn % |s.workers|;
    var pushed := s.workers[v].(queue := s.workers[v].queue + [s.hand.value]);
    forall w | 0 <= w < |t.workers|
      ensures InOrder(t, t.workers[w])
    {
      assert InOrder(s, s.workers[w]);
      if w == v {
        InOrderPushed(s, s.workers[v], t);
        InOrderDropped(t, pushed);
      }
    }
  }

  lemma InOrderByWorker(s: State, a: Action)
    requires AllInOrder(s) && Enabled(s, a) && (a.WorkerPop? || a.WorkerDone?)
    ensures AllInOrder(Apply(s, a))
  {
    var t := Apply(s, a);
    forall w | 0 <= w < |t.workers|
      ensures InOrder(t, t.workers[w])
    {
      assert InOrder(s, s.workers[w]);
      if a.WorkerPop? && w == a.w {
        InOrderPopped(s, s.workers[w]);
      }
    }
  }

  lemma InOrderPopped(s: State, w: Worker)
    requires InOrder(s, w) && w.busy.None? && w.queue != []
    ensures InOrder(s, Worker(w.queue[1..], Some(w.queue[0])))
  {
  }

  predicate Orderly(s: State) {
    AllInOrder(s) && Counting(s)
  }

  lemma OrderlyKept(s: State, a: Action)
    requires Orderly(s) && Enabled(s, a)
    ensures Orderly(Apply(s, a))
  {
    CountingKept(s, a);
    match a
    case Submit => InOrderBySubmit(s);
    case ClearNext => InOrderByClear(s);
    case ParserPop => InOrderByParser(s, a);
    case ParserCompute => InOrderByParser(s, a);
    case ParserPush => InOrderByPush(s);
    case WorkerPop(_) => InOrderByWorker(s, a);
    case WorkerDone(_) => InOrderByWorker(s, a);
    case _ => InOrderByRun(s, a);
  }

  /** In every run, frames given up included: every thread gets and computes its jobs in the order in
      which they were submitted. */
  lemma AlwaysInOrder(threads: nat, k: nat, s: State)
    requires ReachableIn(threads, k, s)
    ensures AllInOrder(s)
  {
    forall r, t | Orderly(r) && Steps(r, t)
      ensures Orderly(t)
    {
      var a :| Enabled(r, a) && Apply(r, a) == t;
      OrderlyKept(r, a);
    }
    Induction(Orderly, Initial(threads), Steps, k, s);
  }

  // ---------------------------------------------------------------- what giving a frame up leaves behind

  /** How many jobs wait in the buffers of the first `n` workers, and how many of these are at work */
  function Queued(workers: seq<Worker>, n: nat): nat
    requires n <= |workers|
  {
    if n == 0 then 0 else Queued(workers, n - 1) + |workers[n - 1].queue|
  }

  function Busy(workers: seq<Worker>, n: nat): (r: nat)
    requires n <= |workers|
    ensures r <= n
  {
    if n == 0 then 0 else Busy(workers, n - 1) + |Opt(workers[n - 1].busy)|
  }

  lemma {:induction false} QueuedChanges(workers: seq<Worker>, n: nat, w: nat, x: Worker)
    requires w < |workers| && n <= |workers|
    ensures Queued(workers[w := x], n)
            == Queued(workers, n) + if w < n then |x.queue| - |workers[w].queue| else 0
  {
    if n > 0 {
      QueuedChanges(workers, n - 1, w, x);
    }
  }

  lemma {:induction false} HeldSize(workers: seq<Worker>, n: nat)
    requires n <= |workers|
    ensures |AllHeld(workers, n)| == Queued(workers, n) + Busy(workers, n)
  {
    if n > 0 {
      HeldSize(workers, n - 1);
    }
  }

  /** A step of any thread while `Run` clears the buffers */
  ghost predicate Clears(s: State, t: State) {
    s.phase.Clearing? && Steps(s, t)
  }

  /** The buffers that are to be clear by now */
  function ClearedTo(s: State): nat {
    if s.phase.Clearing? && s.phase.next <= |s.workers| then s.phase.next else |s.workers|
  }

  /** In these buffers and in the parser thread's hand there are `h` jobs at most; the ring is empty. */
  predicate Swept(h: nat, s: State) {
    && (s.phase.Clearing? || s.phase.Collecting?) && s.ring == []
    && (s.phase.Clearing? ==> s.phase.next <= |s.workers|)
    && |Opt(s.hand)| + Queued(s.workers, ClearedTo(s)) <= h
  }

  lemma SweptKept(h: nat, s: State, a: Action)
    requires Swept(h, s) && s.phase.Clearing? && Enabled(s, a)
    ensures Swept(h, Apply(s, a))
  {
    var t := Apply(s, a);
    match a
    case ClearNext =>
      var i := s.phase.next;
      if i < |s.workers| {
        QueuedChanges(s.workers, i, i, t.workers[i]);
      }
    case ParserCompute =>
    case ParserPush =>
      var w := s.turn % |s.workers|;
      QueuedChanges(s.workers, ClearedTo(s), w, t.workers[w]);
    case WorkerPop(w) => QueuedChanges(s.workers, ClearedTo(s), w, t.workers[w]);
    case WorkerDone(w) => QueuedChanges(s.workers, ClearedTo(s), w, t.workers[w]);
  }

  lemma SweptThroughout(h: nat, b: State, k: nat, s: State)
    requires Swept(h, b) && Reach(b, Clears, k, s)
    ensures Swept(h, s)
  {
    var holds := (t: State) => Swept(h, t);
    forall r, t | holds(r) && Clears(r, t)
      ensures holds(t)
    {
      var a :| Enabled(r, a) && Apply(r, a) == t;
      SweptKept(h, r, a);
    }
    Induction(holds, b, Clears, k, s);
    assert holds(s);
  }

  /** A frame is given up in state `r`; whatever the threads do while the buffers are cleared, in the
      first state `s` in which packets are collected again the ring is empty, and what is left in the
      buffers and in the parser thread's hand is no more than it had in hand. So at most that job, and
      one at each handle thread, is still in flight. */
  lemma GivenUpLeaves(r: State, k: nat, s: State)
    requires Enabled(r, Overflow) && Reach(Apply(r, Overflow), Clears, k, s) && s.phase.Collecting?
    ensures s.ring == [] && |Opt(s.hand)| + Queued(s.workers, |s.workers|) <= |Opt(r.hand)| <= 1
    ensures |InFlight(s)| <= |Opt(r.hand)| + |s.workers|
  {
    SweptThroughout(|Opt(r.hand)|, Apply(r, Overflow), k, s);
    HeldSize(s.workers, |s.workers|);
  }

  lemma {:induction false} NoneBusy(workers: seq<Worker>, n: nat)
    requires n <= |workers|
    ensures Busy(workers, n) == 0 <==> forall w :: 0 <= w < n ==> workers[w].busy.None?
  {
    if n > 0 {
      NoneBusy(workers, n - 1);
    }
  }

  /** If the parser thread had no job in hand, nothing is in flight exactly when no handle thread is at
      work on a job: one it had then, or has taken from its buffer before that was cleared. */
  lemma NothingLeftExactly(r: State, k: nat, s: State)
    requires Enabled(r, Overflow) && r.hand.None?
    requires Reach(Apply(r, Overflow), Clears, k, s) && s.phase.Collecting?
    ensures InFlight(s) == [] <==> forall w :: 0 <= w < |s.workers| ==> s.workers[w].busy.None?
  {
    GivenUpLeaves(r, k, s);
    HeldSize(s.workers, |s.workers|);
    NoneBusy(s.workers, |s.workers|);
  }

  // ---------------------------------------------------------------- runs in which frames are given up

  function TooBig(j: Job): nat {
    if j.index >= MAX_PACKETS then 1 else 0
  }

  predicate Small(s: State) {
    Steady(TooBig, s) && Weight(TooBig, s.carried) == 0
  }

  lemma {:induction false} FrameSmall(epoch: nat, n: nat)
    requires n <= MAX_PACKETS
    ensures Weight(TooBig, Frame(epoch, n)) == 0
  {
    if n > 0 {
      FrameSmall(epoch, n - 1);
      FrameGrows(TooBig, epoch, n);
    }
  }

  lemma SmallKept(s: State, a: Action)
    requires Small(s) && Enabled(s, a)
    ensures Small(Apply(s, a))
  {
    SteadyKept(TooBig, s, a);
    FrameSmall(s.epoch, Live(s));
    match a
    case Zero => FlightWeighs(TooBig, s);
    case _ =>
  }

  lemma {:induction false} WeightZero(f: Job -> nat, jobs: seq<Job>, k: nat)
    requires Weight(f, jobs) == 0 && k < |jobs|
    ensures f(jobs[k]) == 0
    decreases |jobs|
  {
    if k < |jobs| - 1 {
      WeightZero(f, jobs[..|jobs| - 1], k);
    }
  }

  /** In every run the index of every packet to be computed, or computed, is below 5000. */
  lemma IndicesInRange(threads: nat, k: nat, s: State)
    requires ReachableIn(threads, k, s)
    ensures forall i :: 0 <= i < |InFlight(s)| ==> InFlight(s)[i].index < MAX_PACKETS
    ensures forall i :: 0 <= i < |s.done| ==> s.done[i].index < MAX_PACKETS
  {
    SteadyAtFirst(TooBig, threads);
    forall r, t | Small(r) && Steps(r, t)
      ensures Small(t)
    {
      var a :| Enabled(r, a) && Apply(r, a) == t;
      SmallKept(r, a);
    }
    Induction(Small, Initial(threads), Steps, k, s);
    FrameSmall(s.epoch, Live(s));
    FlightWeighs(TooBig, s);
    forall i | 0 <= i < |InFlight(s)|
      ensures InFlight(s)[i].index < MAX_PACKETS
    {
      WeightZero(TooBig, InFlight(s), i);
    }
    forall i | 0 <= i < |s.done|
      ensures s.done[i].index < MAX_PACKETS
    {
      WeightZero(TooBig, s.done, i);
    }
  }

  /** What can be reached by steps; as a parameter, so that the runs below do not unfold it. */
  ghost predicate Closed(reached: (nat, State) -> bool) {
    forall k: nat, s, a :: reached(k, s) && Enabled(s, a) ==> reached(k + 1, Apply(s, a))
  }

  lemma SubmitMany(reached: (nat, State) -> bool, k: nat, s: State, n: nat) returns (t: State)
    requires Closed(reached) && reached(k, s) && s.phase.Collecting? && |s.ring| + n < RING
    requires s.index < MAX_PACKETS && s.index + n <= MAX_PACKETS
    ensures reached(k + n, t)
    ensures t.phase == if s.index + n == MAX_PACKETS then Overflowing else Collecting
    ensures t.index == s.index + n && t.workers == s.workers && t.counter == s.counter && t.resets == s.resets
    ensures t.hand == s.hand
  {
    t := s;
    for i := 0 to n
      invariant reached(k + i, t)
      invariant t.phase == if s.index + i == MAX_PACKETS then Overflowing else Collecting
      invariant t.index == s.index + i && t.workers == s.workers && t.counter == s.counter && t.resets == s.resets
      invariant |t.ring| == |s.ring| + i && t.hand == s.hand
    {
      t := Apply(t, Submit);
    }
  }

  lemma CountOne(reached: (nat, State) -> bool) returns (s: State)
    requires Closed(reached) && reached(0, Initial(0))
    ensures reached(3, s) && s.phase.Collecting? && s.ring == [] && s.index == 1 && s.workers == []
    ensures s.counter == 1 && s.resets == 0
  {
    var s1 := Apply(Initial(0), Submit);
    var s2 := Apply(s1, ParserPop);
    s := Apply(s2, ParserCompute);
    assert reached(1, s1) && reached(2, s2);
  }

  lemma NextFrame(reached: (nat, State) -> bool, k: nat, s: State) returns (t: State)
    requires Closed(reached) && reached(k, s) && s.phase.Overflowing? && s.workers == [] && s.counter == 1
    ensures reached(k + 6, t) && t.phase.Publishing? && t.ring != [] && t.resets == s.resets + 1
  {
    var s1 := Apply(s, Overflow);
    var s2 := Apply(s1, ClearNext);
    var s3 := Apply(s2, Submit);
    var s4 := Apply(s3, Split);
    var s5 := Apply(s4, Check);
    t := Apply(s5, Zero);
    assert reached(k + 1, s1) && reached(k + 2, s2) && reached(k + 3, s3) && reached(k + 4, s4) && reached(k + 5, s5);
  }

  /** Giving a frame up does not set the counter to zero. So after it a frame can be published with
      work in flight: one packet of the frame given up was counted, and stands in for one of the next. */
  lemma StaleCountPublishesEarly() returns (k: nat, s: State)
    ensures ReachableIn(0, k, s) && s.resets == 1 && s.phase.Publishing? && InFlight(s) != []
  {
    var reached := (n: nat, t: State) => ReachableIn(0, n, t);
    forall n: nat, t, a | reached(n, t) && Enabled(t, a)
      ensures reached(n + 1, Apply(t, a))
    {
      assert Steps(t, Apply(t, a));
    }
    s := CountOne(reached);
    s := SubmitMany(reached, 3, s, MAX_PACKETS - 1);
    k := MAX_PACKETS + 2;
    s := NextFrame(reached, k, s);
    k := k + 6;
  }

  lemma HandOne(reached: (nat, State) -> bool) returns (s: State)
    requires Closed(reached) && reached(0, Initial(2))
    ensures reached(3, s) && s.phase.Collecting? && s.ring == [] && s.index == 1 && s.hand.None?
    ensures s.workers == [Worker([Job(0, 0)], None), Worker([], None)]
  {
    var s1 := Apply(Initial(2), Submit);
    var s2 := Apply(s1, ParserPop);
    s := Apply(s2, ParserPush);
    assert Initial(2).workers == [Worker([], None), Worker([], None)];
    assert s1.ring == [Job(0, 0)] && s2.hand == Some(Job(0, 0)) && s2.turn % 2 == 0;
    assert s.workers[0] == Worker([] + [Job(0, 0)], None) && s.workers[1] == Worker([], None);
    assert reached(1, s1) && reached(2, s2);
  }

  lemma PopWhileClearing(r: State) returns (s: State)
    requires r.phase.Overflowing? && r.hand.None?
    requires r.workers == [Worker([Job(0, 0)], None), Worker([], None)]
    ensures Reach(Apply(r, Overflow), Clears, 4, s) && s.phase.Collecting? && InFlight(s) != []
  {
    var b := Apply(r, Overflow);
    var s1 := Apply(b, WorkerPop(0));
    var s2 := Apply(s1, ClearNext);
    var s3 := Apply(s2, ClearNext);
    s := Apply(s3, ClearNext);
    assert Clears(b, s1) && Clears(s1, s2) && Clears(s2, s3) && Clears(s3, s);
    assert Reach(b, Clears, 0, b);
    assert Reach(b, Clears, 1, s1);
    assert Reach(b, Clears, 2, s2);
    assert Reach(b, Clears, 3, s3);
    HeldBy(s.workers, 2, 0);
  }

  /** Even if no thread has a job in hand when a frame is given up, a job of it can be in flight when
      packets are collected again: a handle thread takes it before its buffer is cleared. */
  lemma TakenWhileClearing() returns (m: nat, r: State, s: State)
    ensures ReachableIn(2, m, r) && Enabled(r, Overflow)
    ensures r.hand.None? && forall w :: 0 <= w < |r.workers| ==> r.workers[w].busy.None?
    ensures Reach(Apply(r, Overflow), Clears, 4, s) && s.phase.Collecting? && InFlight(s) != []
  {
    var reached := (n: nat, t: State) => ReachableIn(2, n, t);
    forall n: nat, t, a | reached(n, t) && Enabled(t, a)
      ensures reached(n + 1, Apply(t, a))
    {
      assert Steps(t, Apply(t, a));
    }
    r := HandOne(reached);
    r := SubmitMany(reached, 3, r, MAX_PACKETS - 1);
    m := MAX_PACKETS + 2;
    s := PopWhileClearing(r);
  }
}
