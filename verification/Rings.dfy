/** The fixed-capacity ring and the blocking ring built on it. A ring is a window of `size`
    slots, starting at `begin`, on an array it wraps around; it refines a bounded
    double-ended sequence. */
module Rings {

  /** `k % n` for an index that has run past the end at most once. */
  function Wrap(k: nat, n: nat): (r: nat)
    requires k < 2 * n
    ensures r < n
  {
    if k < n then k else k - n
  }

  lemma WrapIsModulo(k: nat, n: nat)
    requires k < 2 * n
    ensures Wrap(k, n) == k % n
  {
    if k >= n {
      assert k == 1 * n + (k - n);
    }
  }

  /** The slot `i` places after `begin`. */
  function Slot(begin: nat, i: nat, n: nat): (r: nat)
    requires begin < n && i <= n
    ensures r < n
  {
    Wrap(begin + i, n)
  }

  class Ring<T(0)> {
    const data: array<T>
    /** The value `T()`. */
    const blank: T
    var begin: nat
    var size: nat

    ghost predicate Valid()
      reads this
    {
      begin < data.Length && size <= data.Length
    }

    ghost function Contents(): (s: seq<T>)
      reads this, data
      requires Valid()
      ensures |s| == size
      ensures forall i :: 0 <= i < size ==> s[i] == data[Slot(begin, i, data.Length)]
    {
      seq(size, i requires 0 <= i < size && Valid() reads this, data => data[Slot(begin, i, data.Length)])
    }

    constructor (capacity: nat, blank: T)
      requires capacity > 0
      ensures Valid() && fresh(data) && data.Length == capacity && this.blank == blank
      ensures Contents() == []
    {
      data := new T[capacity];
      this.blank := blank;
      begin, size := 0, 0;
    }

    predicate Empty()
      reads this
    {
      size == 0
    }

    predicate Full()
      reads this
    {
      size >= data.Length
    }

    method PushBack(item: T)
      requires Valid() && !Full()
      modifies this, data
      ensures Valid() && Contents() == old(Contents()) + [item]
    {
      var slot := Wrap(begin + size, data.Length);
      data[slot] := item;
      size := size + 1;
    }

    method PushFront(item: T)
      requires Valid() && !Full()
      modifies this, data
      ensures Valid() && Contents() == [item] + old(Contents())
    {
      begin := Wrap(begin + data.Length - 1, data.Length);
      data[begin] := item;
      size := size + 1;
    }

    method PeekBack() returns (item: T)
      requires Valid() && !Empty()
      ensures item == Contents()[size - 1]
    {
      var slot := Wrap(begin + size - 1, data.Length);
      return data[slot];
    }

    method PeekFront() returns (item: T)
      requires Valid() && !Empty()
      ensures item == Contents()[0]
    {
      return data[begin];
    }

    /** `operator[]` */
    method At(index: nat) returns (item: T)
      requires Valid() && index < size
      ensures item == Contents()[index]
    {
      var slot := Wrap(begin + index, data.Length);
      return data[slot];
    }

    method PopBack() returns (item: T)
      requires Valid() && !Empty()
      modifies this, data
      ensures Valid() && old(Contents()) == Contents() + [item]
    {
      size := size - 1;
      var slot := Wrap(begin + size, data.Length);
      item, data[slot] := data[slot], blank;
    }

    method EffPopBack()
      requires Valid() && !Empty()
      modifies this
      ensures Valid() && Contents() == old(Contents())[..old(size) - 1]
    {
      size := size - 1;
    }

    method PopFront() returns (item: T)
      requires Valid() && !Empty()
      modifies this, data
      ensures Valid() && old(Contents()) == [item] + Contents()
    {
      size := size - 1;
      item, data[begin] := data[begin], blank;
      begin := Wrap(begin + 1, data.Length);
    }

    method EffPopFront()
      requires Valid() && !Empty()
      modifies this
      ensures Valid() && Contents() == old(Contents())[1..]
    {
      size := size - 1;
      begin := Wrap(begin + 1, data.Length);
    }

    /** A range-for over the ring: the iterator counts steps and wraps when it is read. */
    method Iterate() returns (items: seq<T>)
      requires Valid()
      ensures items == Contents()
    {
      items := [];
      var steps := begin;
      while steps != begin + size
        invariant begin <= steps <= begin + size
        invariant items == Contents()[..steps - begin]
        decreases begin + size - steps
      {
        var slot := Wrap(steps, data.Length);
        items := items + [data[slot]];
        steps := steps + 1;
      }
    }

    /** Blanks the items through the iterator before dropping them. */
    method Clear()
      requires Valid()
      modifies this, data
      ensures Valid() && Contents() == []
      ensures forall i :: 0 <= i < old(size) ==> data[Slot(old(begin), i, data.Length)] == blank
    {
      var steps := begin;
      while steps != begin + size
        invariant Valid() && begin == old(begin) && size == old(size)
        invariant begin <= steps <= begin + size
        invariant forall i :: 0 <= i < steps - begin ==> data[Slot(begin, i, data.Length)] == blank
        decreases begin + size - steps
      {
        var slot := Wrap(steps, data.Length);
        assert slot == Slot(begin, steps - begin, data.Length);
        data[slot] := blank;
        steps := steps + 1;
      }
      begin, size := 0, 0;
    }

    method EffClear()
      requires Valid()
      modifies this
      ensures Valid() && Contents() == []
    {
      begin, size := 0, 0;
    }
  }

  // ---------------------------------------------------------------- the blocking ring

  /** A call that has obtained the ring's mutex. */
  datatype Call<T> = PushBack(item: T) | PushFront(item: T) | PopFront | PopBack | TryPopFront
                   | Clear | EffClear

  /** What it does there: wait on the condition variable, take an item out, or neither. */
  datatype Outcome<T> = Blocked | Done | Taken(item: T) | TimedOut

  datatype Served<T> = Served(items: seq<T>, outcome: Outcome<T>)

  /** The bounded double-ended queue that the blocking ring is. */
  function Serve<T>(capacity: nat, items: seq<T>, call: Call<T>): Served<T> {
    match call
    case PushBack(x) => if |items| >= capacity then Served(items, Blocked) else Served(items + [x], Done)
    case PushFront(x) => if |items| >= capacity then Served(items, Blocked) else Served([x] + items, Done)
    case PopFront => if items == [] then Served(items, Blocked) else Served(items[1..], Taken(items[0]))
    case PopBack =>
      if items == [] then Served(items, Blocked)
      else Served(items[..|items| - 1], Taken(items[|items| - 1]))
    case TryPopFront => if items == [] then Served(items, TimedOut) else Served(items[1..], Taken(items[0]))
    case Clear => Served([], Done)
    case EffClear => Served([], Done)
  }

  class BlockingRing<T(0)> {
    const ring: Ring<T>

    ghost predicate Valid()
      reads this, ring
    {
      ring.Valid()
    }

    constructor (capacity: nat, blank: T)
      requires capacity > 0
      ensures Valid() && fresh(ring) && fresh(ring.data) && ring.data.Length == capacity
      ensures ring.Contents() == []
    {
      ring := new Ring(capacity, blank);
    }

    /** One visit to the monitor. A call whose condition fails waits, leaving the ring alone;
        `TryPopFront` gives up after half a second instead. */
    method Enter(call: Call<T>) returns (outcome: Outcome<T>)
      requires Valid()
      modifies ring, ring.data
      ensures Valid()
      ensures Served(ring.Contents(), outcome) == Serve(ring.data.Length, old(ring.Contents()), call)
      ensures call.Clear? ==>
                forall i :: 0 <= i < old(ring.size) ==>
                              ring.data[Slot(old(ring.begin), i, ring.data.Length)] == ring.blank
    {
      match call
      case PushBack(x) =>
        if ring.Full() {
          return Blocked;
        }
        ring.PushBack(x);
        return Done;
      case PushFront(x) =>
        if ring.Full() {
          return Blocked;
        }
        ring.PushFront(x);
        return Done;
      case PopFront =>
        if ring.Empty() {
          return Blocked;
        }
        var x := ring.PopFront();
        return Taken(x);
      case PopBack =>
        if ring.Empty() {
          return Blocked;
        }
        var x := ring.PopBack();
        return Taken(x);
      case TryPopFront =>
        if ring.Empty() {
          return TimedOut;
        }
        var x := ring.PeekFront();
        ring.EffPopFront();
        return Taken(x);
      case Clear =>
        ring.Clear();
        return Done;
      case EffClear =>
        ring.EffClear();
        return Done;
    }
  }

  // ---------------------------------------------------------------- every interleaving

  /** The contents after calls have been served in some order. */
  function ServeAll<T>(capacity: nat, items: seq<T>, calls: seq<Call<T>>): seq<T>
    decreases |calls|
  {
    if calls == [] then items
    else ServeAll(capacity, Serve(capacity, items, calls[0]).items, calls[1..])
  }

  /** The item a served call puts in, and the item it takes out. */
  function PutIn<T>(call: Call<T>, outcome: Outcome<T>): seq<T> {
    if (call.PushBack? || call.PushFront?) && outcome.Done? then [call.item] else []
  }

  function TakenOut<T>(outcome: Outcome<T>): seq<T> {
    if outcome.Taken? then [outcome.item] else []
  }

  /** Items accepted by pushes, in order. */
  function Pushed<T>(capacity: nat, items: seq<T>, calls: seq<Call<T>>): seq<T>
    decreases |calls|
  {
    if calls == [] then []
    else
      var s := Serve(capacity, items, calls[0]);
      PutIn(calls[0], s.outcome) + Pushed(capacity, s.items, calls[1..])
  }

  /** Items handed out by pops, in order. */
  function Popped<T>(capacity: nat, items: seq<T>, calls: seq<Call<T>>): seq<T>
    decreases |calls|
  {
    if calls == [] then []
    else
      var s := Serve(capacity, items, calls[0]);
      TakenOut(s.outcome) + Popped(capacity, s.items, calls[1..])
  }

  lemma {:induction false} NeverOverfull<T>(capacity: nat, items: seq<T>, calls: seq<Call<T>>)
    requires |items| <= capacity
    ensures |ServeAll(capacity, items, calls)| <= capacity
    decreases |calls|
  {
    if calls != [] {
      NeverOverfull(capacity, Serve(capacity, items, calls[0]).items, calls[1..]);
    }
  }

  /** The items a clear drops. */
  function ClearedOut<T>(items: seq<T>, call: Call<T>): seq<T> {
    if call.Clear? || call.EffClear? then items else []
  }

  /** Items dropped by clears, in order. */
  function Dropped<T>(capacity: nat, items: seq<T>, calls: seq<Call<T>>): seq<T>
    decreases |calls|
  {
    if calls == [] then []
    else ClearedOut(items, calls[0]) + Dropped(capacity, Serve(capacity, items, calls[0]).items, calls[1..])
  }

  /** Items that left the ring, popped or dropped, in order. */
  function Left<T>(capacity: nat, items: seq<T>, calls: seq<Call<T>>): seq<T>
    decreases |calls|
  {
    if calls == [] then []
    else
      var s := Serve(capacity, items, calls[0]);
      TakenOut(s.outcome) + ClearedOut(items, calls[0]) + Left(capacity, s.items, calls[1..])
  }

  /** Producers use only the back, consumers only the front; anyone clears. */
  predicate Queueing<T>(call: Call<T>) {
    call.PushBack? || call.PopFront? || call.TryPopFront? || call.Clear? || call.EffClear?
  }

  lemma ServeInOrder<T>(capacity: nat, items: seq<T>, call: Call<T>)
    requires Queueing(call)
    ensures var s := Serve(capacity, items, call);
            items + PutIn(call, s.outcome) == (TakenOut(s.outcome) + ClearedOut(items, call)) + s.items
  {
    var s := Serve(capacity, items, call);
    if s.outcome.Taken? {
      assert items == [s.outcome.item] + s.items;
    }
  }

  /** Two balances in a row make one. */
  lemma ChainInOrder<T>(before: seq<T>, in1: seq<T>, out1: seq<T>, middle: seq<T>,
                        in2: seq<T>, out2: seq<T>, after: seq<T>)
    requires before + in1 == out1 + middle && middle + in2 == out2 + after
    ensures before + (in1 + in2) == (out1 + out2) + after
  {
    assert before + (in1 + in2) == (before + in1) + in2;
    assert (out1 + middle) + in2 == out1 + (middle + in2);
    assert out1 + (out2 + after) == (out1 + out2) + after;
  }

  /** Producers at the back and consumers at the front, and clears, interleaved in any way: the items
      leave in the order in which they came, popped or dropped, and what has not left is still there. */
  lemma {:induction false} FirstInFirstOut<T>(capacity: nat, items: seq<T>, calls: seq<Call<T>>)
    requires forall i :: 0 <= i < |calls| ==> Queueing(calls[i])
    ensures items + Pushed(capacity, items, calls)
            == Left(capacity, items, calls) + ServeAll(capacity, items, calls)
    decreases |calls|
  {
    if calls != [] {
      var c, rest := calls[0], calls[1..];
      var s := Serve(capacity, items, c);
      ServeInOrder(capacity, items, c);
      FirstInFirstOut(capacity, s.items, rest);
      ChainInOrder(items, PutIn(c, s.outcome), TakenOut(s.outcome) + ClearedOut(items, c), s.items,
                   Pushed(capacity, s.items, rest), Left(capacity, s.items, rest),
                   ServeAll(capacity, s.items, rest));
    }
  }

  /** Of the items that left, each was popped or dropped. */
  lemma {:induction false} LeftPoppedOrDropped<T>(capacity: nat, items: seq<T>, calls: seq<Call<T>>)
    ensures multiset(Left(capacity, items, calls))
            == multiset(Popped(capacity, items, calls)) + multiset(Dropped(capacity, items, calls))
    decreases |calls|
  {
    if calls != [] {
      LeftPoppedOrDropped(capacity, Serve(capacity, items, calls[0]).items, calls[1..]);
    }
  }

  /** Without a clear the items that left are those popped. */
  lemma {:induction false} LeftByPops<T>(capacity: nat, items: seq<T>, calls: seq<Call<T>>)
    requires forall i :: 0 <= i < |calls| ==> !calls[i].Clear? && !calls[i].EffClear?
    ensures Left(capacity, items, calls) == Popped(capacity, items, calls)
    decreases |calls|
  {
    if calls != [] {
      LeftByPops(capacity, Serve(capacity, items, calls[0]).items, calls[1..]);
    }
  }

  /** What a call puts in, takes out and drops balances, as multisets. */
  ghost predicate Balanced<T>(items: seq<T>, put: seq<T>, taken: seq<T>, dropped: seq<T>, after: seq<T>) {
    multiset(items) + multiset(put) == (multiset(taken) + multiset(dropped)) + multiset(after)
  }

  lemma PushKeeps<T>(items: seq<T>, x: T)
    ensures Balanced(items, [x], [], [], items + [x]) && Balanced(items, [x], [], [], [x] + items)
  {
  }

  lemma PopKeeps<T>(items: seq<T>)
    requires items != []
    ensures Balanced(items, [], [items[0]], [], items[1..])
    ensures Balanced(items, [], [items[|items| - 1]], [], items[..|items| - 1])
  {
    FirstOff(items);
    LastOff(items);
  }

  lemma NoChange<T>(items: seq<T>)
    ensures Balanced(items, [], [], items, []) && Balanced(items, [], [], [], items)
  {
  }

  /** The balance of one call */
  ghost predicate Keeps<T>(items: seq<T>, call: Call<T>, s: Served<T>) {
    Balanced(items, PutIn(call, s.outcome), TakenOut(s.outcome), ClearedOut(items, call), s.items)
  }

  lemma PushServed<T>(capacity: nat, items: seq<T>, call: Call<T>)
    requires call.PushBack? || call.PushFront?
    ensures Keeps(items, call, Serve(capacity, items, call))
  {
    NoChange(items);
    PushKeeps(items, call.item);
  }

  lemma PopServed<T>(capacity: nat, items: seq<T>, call: Call<T>)
    requires call.PopBack? || call.PopFront? || call.TryPopFront?
    ensures Keeps(items, call, Serve(capacity, items, call))
  {
    NoChange(items);
    if items != [] {
      PopKeeps(items);
    }
  }

  lemma ServeKeeps<T>(capacity: nat, items: seq<T>, call: Call<T>)
    ensures Keeps(items, call, Serve(capacity, items, call))
  {
    if call.PushBack? || call.PushFront? {
      PushServed(capacity, items, call);
    } else if call.Clear? || call.EffClear? {
      NoChange(items);
    } else {
      PopServed(capacity, items, call);
    }
  }

  lemma FirstOff<T>(items: seq<T>)
    requires items != []
    ensures multiset(items) == multiset([items[0]]) + multiset(items[1..])
  {
    assert items == [items[0]] + items[1..];
  }

  lemma LastOff<T>(items: seq<T>)
    requires items != []
    ensures multiset(items) == multiset([items[|items| - 1]]) + multiset(items[..|items| - 1])
  {
    assert items == items[..|items| - 1] + [items[|items| - 1]];
  }

  /** Used at both ends, and cleared, the ring neither loses nor invents an item. */
  lemma {:induction false} NothingLost<T>(capacity: nat, items: seq<T>, calls: seq<Call<T>>)
    ensures multiset(items) + multiset(Pushed(capacity, items, calls))
            == (multiset(Popped(capacity, items, calls)) + multiset(Dropped(capacity, items, calls)))
               + multiset(ServeAll(capacity, items, calls))
    decreases |calls|
  {
    if calls != [] {
      var c, rest := calls[0], calls[1..];
      var s := Serve(capacity, items, c);
      ServeKeeps(capacity, items, c);
      NothingLost(capacity, s.items, rest);
      ChainKept(multiset(items), multiset(PutIn(c, s.outcome)),
                multiset(TakenOut(s.outcome)), multiset(ClearedOut(items, c)), multiset(s.items),
                multiset(Pushed(capacity, s.items, rest)), multiset(Popped(capacity, s.items, rest)),
                multiset(Dropped(capacity, s.items, rest)), multiset(ServeAll(capacity, s.items, rest)));
    }
  }

  lemma ChainKept<T>(before: multiset<T>, in1: multiset<T>, out1: multiset<T>, drop1: multiset<T>, middle: multiset<T>,
                     in2: multiset<T>, out2: multiset<T>, drop2: multiset<T>, after: multiset<T>)
    requires before + in1 == (out1 + drop1) + middle && middle + in2 == (out2 + drop2) + after
    ensures before + (in1 + in2) == ((out1 + out2) + (drop1 + drop2)) + after
  {
    assert before + (in1 + in2) == (before + in1) + in2;
    assert ((out1 + drop1) + middle) + in2 == (out1 + drop1) + (middle + in2);
  }

  // ---------------------------------------------------------------- which calls are served

  predicate IsPush<T>(call: Call<T>) { call.PushBack? || call.PushFront? }
  predicate IsPop<T>(call: Call<T>) { call.PopBack? || call.PopFront? || call.TryPopFront? }

  predicate Refused<T>(outcome: Outcome<T>) { outcome.Blocked? || outcome.TimedOut? }

  /** A pop is refused exactly if there is nothing, a push exactly if there is no room; nothing else is
      refused, a refused call changes nothing, and only `TryPopFront` gives up waiting. */
  lemma RefusedExactly<T>(capacity: nat, items: seq<T>, call: Call<T>)
    requires |items| <= capacity
    ensures var s := Serve(capacity, items, call);
            && (Refused(s.outcome) <==> (IsPop(call) && items == []) || (IsPush(call) && |items| == capacity))
            && (Refused(s.outcome) ==> s.items == items)
            && (s.outcome.TimedOut? <==> call.TryPopFront? && items == [])
            && (s.outcome.Taken? <==> IsPop(call) && items != [])
  {
  }

  /** As many pops at the front as there are items, of either kind, hand out exactly the items. */
  lemma {:induction false} PopsEmpty<T>(capacity: nat, items: seq<T>, calls: seq<Call<T>>)
    requires |calls| == |items| && forall i :: 0 <= i < |calls| ==> calls[i].PopFront? || calls[i].TryPopFront?
    ensures Popped(capacity, items, calls) == items && ServeAll(capacity, items, calls) == []
    decreases |calls|
  {
    if calls != [] {
      PopsEmpty(capacity, items[1..], calls[1..]);
      assert items == [items[0]] + items[1..];
    }
  }

  /** The items some pushes bring */
  function Brought<T>(calls: seq<Call<T>>): seq<T>
    requires forall i :: 0 <= i < |calls| ==> calls[i].PushBack?
    decreases |calls|
  {
    if calls == [] then [] else [calls[0].item] + Brought(calls[1..])
  }

  /** As many pushes at the back as there is room for are all accepted. */
  lemma {:induction false} PushesFill<T>(capacity: nat, items: seq<T>, calls: seq<Call<T>>)
    requires |items| + |calls| <= capacity && forall i :: 0 <= i < |calls| ==> calls[i].PushBack?
    ensures Pushed(capacity, items, calls) == Brought(calls) && |Brought(calls)| == |calls|
    ensures ServeAll(capacity, items, calls) == items + Brought(calls)
    decreases |calls|
  {
    if calls == [] {
      assert items + [] == items;
    } else {
      var x := calls[0].item;
      PushesFill(capacity, items + [x], calls[1..]);
      assert (items + [x]) + Brought(calls[1..]) == items + ([x] + Brought(calls[1..]));
    }
  }

  /** And at either end, in numbers */
  lemma {:induction false} PushesCount<T>(capacity: nat, items: seq<T>, calls: seq<Call<T>>)
    requires |items| + |calls| <= capacity && forall i :: 0 <= i < |calls| ==> IsPush(calls[i])
    ensures |Pushed(capacity, items, calls)| == |calls|
    ensures |ServeAll(capacity, items, calls)| == |items| + |calls|
    decreases |calls|
  {
    if calls != [] {
      PushesCount(capacity, Serve(capacity, items, calls[0]).items, calls[1..]);
    }
  }

  /** At either end a pop undoes the push before it. */
  lemma PopUndoesPush<T>(capacity: nat, items: seq<T>, x: T)
    requires |items| < capacity
    ensures Serve(capacity, Serve(capacity, items, PushBack(x)).items, PopBack) == Served(items, Taken(x))
    ensures Serve(capacity, Serve(capacity, items, PushFront(x)).items, PopFront) == Served(items, Taken(x))
    ensures Serve(capacity, Serve(capacity, items, PushFront(x)).items, TryPopFront) == Served(items, Taken(x))
  {
    assert (items + [x])[..|items|] == items && ([x] + items)[1..] == items;
  }

  /** And a push puts back what the pop before it took. */
  lemma PushUndoesPop<T>(capacity: nat, items: seq<T>)
    requires 0 < |items| <= capacity
    ensures var s := Serve(capacity, items, PopBack);
            s.outcome.Taken? && Serve(capacity, s.items, PushBack(s.outcome.item)) == Served(items, Done)
    ensures var s := Serve(capacity, items, PopFront);
            s.outcome.Taken? && Serve(capacity, s.items, PushFront(s.outcome.item)) == Served(items, Done)
  {
    var n := |items| - 1;
    assert items[..n] + [items[n]] == items && [items[0]] + items[1..] == items;
  }
}
