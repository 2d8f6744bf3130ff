/** The ring with a second, strided array: item `i` of the ring owns a row of the second
    array. New items are staged behind the live ones, evicting from the front first, and
    become visible together. */
module StagedRing {
  import opened Products
  import opened Rings

  /** The index of column `j` of row `slot`. */
  function CellIndex(slot: nat, t: nat, j: nat): (r: nat)
    ensures r == Times(slot, t) + j
  {
    TimesIsProduct(slot, t);
    slot * t + j
  }

  /** With one row size, two cells are the same only as the same column of the same row. */
  lemma CellsInjective(a: nat, i: nat, b: nat, j: nat, t: nat)
    requires i < t && j < t
    ensures CellIndex(a, t, i) == CellIndex(b, t, j) <==> a == b && i == j
  {
    TimesMonotone(a, b, t);
    TimesMonotone(b, a, t);
  }

  /** Rows of two sizes, in different slots, have no cell in common. */
  predicate RowsApart(n: nat, t: nat, u: nat) {
    forall a: nat, i: nat, b: nat, j: nat :: a < n && b < n && a != b && i < t && j < u ==>
      CellIndex(a, t, i) != CellIndex(b, u, j)
  }

  /** In a ring of two slots or more, staged rows cannot overwrite live ones exactly when both have
      the same size: else the first two rows clash already. */
  lemma RowsApartExactly(n: nat, t: nat, u: nat)
    requires n >= 2 && t > 0 && u > 0
    ensures RowsApart(n, t, u) <==> t == u
  {
    if t == u {
      forall a: nat, i: nat, b: nat, j: nat | a < n && b < n && a != b && i < t && j < u
        ensures CellIndex(a, t, i) != CellIndex(b, u, j)
      {
        CellsInjective(a, i, b, j, t);
      }
    } else if t < u {
      assert CellIndex(1, t, 0) == CellIndex(0, u, t);
    } else {
      assert CellIndex(0, t, u) == CellIndex(1, u, 0);
    }
  }

  // ---------------------------------------------------------------- windows on a cyclic sequence

  /** `count` slots from `start` on, wrapping around. */
  function Window<X>(slots: seq<X>, start: nat, count: nat): (s: seq<X>)
    requires start < |slots| && count <= |slots|
    ensures |s| == count
    ensures forall i :: 0 <= i < count ==> s[i] == slots[Slot(start, i, |slots|)]
  {
    seq(count, i requires 0 <= i < count => slots[Slot(start, i, |slots|)])
  }

  lemma WindowDrop<X>(slots: seq<X>, start: nat, count: nat, d: nat)
    requires start < |slots| && d <= count <= |slots|
    ensures Window(slots, Slot(start, d, |slots|), count - d) == Window(slots, start, count)[d..]
  {
    var next := Slot(start, d, |slots|);
    var w, v := Window(slots, next, count - d), Window(slots, start, count);
    forall i | 0 <= i < count - d
      ensures w[i] == v[d..][i]
    {
      assert Slot(next, i, |slots|) == Slot(start, d + i, |slots|);
    }
  }

  lemma WindowConcat<X>(slots: seq<X>, begin: nat, size: nat, count: nat)
    requires begin < |slots| && size + count <= |slots|
    ensures Window(slots, begin, size + count)
            == Window(slots, begin, size) + Window(slots, Slot(begin, size, |slots|), count)
  {
    var start := Slot(begin, size, |slots|);
    forall i | size <= i < size + count
      ensures Slot(begin, i, |slots|) == Slot(start, i - size, |slots|)
    {
    }
  }

  /** Writing slot `i` of the window behind another shows in the one and not in the other. */
  lemma WindowWrite<X>(slots: seq<X>, begin: nat, size: nat, count: nat, i: nat, x: X)
    requires begin < |slots| && size + count <= |slots| && i < count
    ensures var start := Slot(begin, size, |slots|);
            var written := slots[Slot(start, i, |slots|) := x];
            && Window(written, begin, size) == Window(slots, begin, size)
            && Window(written, start, count) == Window(slots, start, count)[i := x]
  {
  }

  // ---------------------------------------------------------------- items with their rows

  /** The first `n` rows of `t` cells lie inside an array. */
  predicate RowsFit(n: nat, t: nat, length: nat) {
    Times(n, t) <= length
  }

  function RowAt<U>(cells: seq<U>, k: nat, t: nat, n: nat): (r: seq<U>)
    requires k < n && RowsFit(n, t, |cells|)
    ensures |r| == t
  {
    TimesMonotone(k, n, t);
    cells[Times(k, t)..Times(k, t) + t]
  }

  /** Every slot with its row, at a row size of `t`. */
  function Table<T, U>(items: seq<T>, cells: seq<U>, t: nat): (s: seq<(T, seq<U>)>)
    requires RowsFit(|items|, t, |cells|)
    ensures |s| == |items|
  {
    seq(|items|, k requires 0 <= k < |items| => (items[k], RowAt(cells, k, t, |items|)))
  }

  lemma TableItem<T, U>(items: seq<T>, cells: seq<U>, t: nat, slot: nat, x: T)
    requires RowsFit(|items|, t, |cells|) && slot < |items|
    ensures var s := Table(items, cells, t);
            Table(items[slot := x], cells, t) == s[slot := (x, s[slot].1)]
  {
  }

  /** One write to the second array changes one cell of one row. */
  lemma TableCell<T, U>(items: seq<T>, cells: seq<U>, t: nat, slot: nat, j: nat, x: U)
    requires RowsFit(|items|, t, |cells|) && slot < |items| && j < t
    ensures CellIndex(slot, t, j) < |cells|
    ensures var s := Table(items, cells, t);
            Table(items, cells[CellIndex(slot, t, j) := x], t)
            == s[slot := (s[slot].0, s[slot].1[j := x])]
  {
    var n := |items|;
    TimesMonotone(slot, n, t);
    var written := cells[CellIndex(slot, t, j) := x];
    forall k | 0 <= k < n
      ensures RowAt(written, k, t, n)
              == if k == slot then RowAt(cells, k, t, n)[j := x] else RowAt(cells, k, t, n)
    {
      TimesMonotone(k, n, t);
      if k < slot {
        TimesMonotone(k, slot, t);
      } else if slot < k {
        TimesMonotone(slot, k, t);
      }
    }
  }

  /** A row of which the first `j` cells have been written. */
  function Mixed<T, U>(row: (T, seq<U>), before: seq<U>, j: nat): (T, seq<U>)
    requires |row.1| == |before| && j <= |before|
  {
    (row.0, row.1[..j] + before[j..])
  }

  lemma MixedStep<T, U>(row: (T, seq<U>), before: seq<U>, j: nat)
    requires |row.1| == |before| && j < |before|
    ensures var m := Mixed(row, before, j);
            Mixed(row, before, j + 1) == (m.0, m.1[j := row.1[j]])
  {
    var m := row.1[..j] + before[j..];
    assert m[j := row.1[j]] == row.1[..j + 1] + before[j + 1..];
  }

  lemma MixedEnds<T, U>(row: (T, seq<U>), before: seq<U>)
    requires |row.1| == |before|
    ensures Mixed(row, before, 0) == (row.0, before) && Mixed(row, before, |before|) == row
  {
    assert row.1[..0] + before[0..] == before && row.1[..|before|] + before[|before|..] == row.1;
  }

  class Ring2D<T(0), U(0)> {
    const items: array<T>
    const cells: array<U>
    const width: nat
    var begin: nat
    var size: nat
    var emplaceStart: nat
    var emplaceSize: nat
    var rowSize: nat

    ghost predicate Valid()
      reads this
    {
      && begin < items.Length && size <= items.Length
      && RowsFit(items.Length, width, cells.Length) && RowsFit(items.Length, rowSize, cells.Length)
      && rowSize <= width && emplaceStart < items.Length && emplaceSize <= items.Length
      && (items as object) != cells
    }

    ghost function Slots(t: nat): (s: seq<(T, seq<U>)>)
      reads items, cells
      requires RowsFit(items.Length, t, cells.Length)
      ensures |s| == items.Length
    {
      Table(items[..], cells[..], t)
    }

    /** What a reader sees. */
    ghost function Contents(): seq<(T, seq<U>)>
      reads this, items, cells
      requires Valid()
    {
      Window(Slots(rowSize), begin, size)
    }

    /** What has been written behind the contents. */
    ghost function Staged(): (s: seq<(T, seq<U>)>)
      reads this, items, cells
      requires Valid()
      ensures |s| == emplaceSize && forall i :: 0 <= i < |s| ==> |s[i].1| == rowSize
    {
      Window(Slots(rowSize), emplaceStart, emplaceSize)
    }

    /** A batch is open: the staged slots follow the live ones and there is room. */
    ghost predicate Prepared()
      reads this
      requires Valid()
    {
      size + emplaceSize <= items.Length && emplaceStart == Slot(begin, size, items.Length)
    }

    constructor (capacity: nat, width: nat)
      requires capacity > 0
      ensures Valid() && fresh(items) && fresh(cells) && items.Length == capacity && this.width == width
      ensures Contents() == []
    {
      items := new T[capacity];
      TimesIsProduct(capacity, width);
      TimesGrows(capacity, 0, width);
      cells := new U[capacity * width];
      this.width := width;
      begin, size, emplaceStart, emplaceSize, rowSize := 0, 0, 0, 0, 0;
    }

    method EffPopFront()
      requires Valid() && size > 0
      modifies `begin, `size
      ensures Valid() && size == old(size) - 1 && begin == Slot(old(begin), 1, items.Length)
      ensures Contents() == old(Contents())[1..]
      ensures old(Prepared()) ==> Prepared() && Staged() == old(Staged())
    {
      WindowDrop(Slots(rowSize), begin, size, 1);
      size := size - 1;
      begin := Wrap(begin + 1, items.Length);
    }

    /** The eviction loop: its effect on the window, ... */
    method Evict(s: nat)
      requires Valid() && s <= items.Length
      modifies `begin, `size
      ensures size == if old(size) + s > items.Length then items.Length - s else old(size)
      ensures begin == Slot(old(begin), old(size) - size, items.Length)
    {
      while size + s > items.Length
        invariant begin < items.Length
        invariant size <= old(size) && (size == old(size) || size + s >= items.Length)
        invariant begin == Slot(old(begin), old(size) - size, items.Length)
        decreases size
      {
        size := size - 1;
        begin := Wrap(begin + 1, items.Length);
      }
    }

    /** ... and on what the window shows, whatever row size `t` it is read with. */
    method MakeRoom(s: nat, ghost t: nat)
      requires Valid() && s <= items.Length && RowsFit(items.Length, t, cells.Length)
      modifies `begin, `size
      ensures Valid()
      ensures size == if old(size) + s > items.Length then items.Length - s else old(size)
      ensures Window(Slots(t), begin, size) == old(Window(Slots(t), begin, size))[old(size) - size..]
    {
      ghost var slots, start, count := Slots(t), begin, size;
      Evict(s);
      WindowDrop(slots, start, count, count - size);
      assert Slots(t) == slots;
    }

    /** Opens a batch of `s` items with rows of `t`. The contents lose just what has to make
        room, from the front, and are then read with the new row size. */
    method PrepareEmplaceBack(s: nat, t: nat)
      requires Valid() && s <= items.Length && t <= width
      modifies `begin, `size, `emplaceStart, `emplaceSize, `rowSize
      ensures Valid() && Prepared() && emplaceSize == s && rowSize == t
      ensures size == if old(size) + s > items.Length then items.Length - s else old(size)
      ensures RowsFit(items.Length, t, cells.Length)
      ensures Contents() == old(Window(Slots(t), begin, size))[old(size) - size..]
    {
      TimesGrows(items.Length, t, width);
      MakeRoom(s, t);
      ghost var slots := Slots(t);
      emplaceStart, emplaceSize, rowSize := Wrap(begin + size, items.Length), s, t;
      assert Slots(t) == slots;
    }

    /** Writing the staged item `i` shows in no live item and in no other staged one. */
    method EmplaceBackAt(i: nat, item: T)
      requires Valid() && Prepared() && i < emplaceSize
      modifies items
      ensures Contents() == old(Contents())
      ensures Staged() == old(Staged())[i := (item, old(Staged())[i].1)]
    {
      var slot := Wrap(emplaceStart + i, items.Length);
      ghost var before := Slots(rowSize);
      WindowWrite(before, begin, size, emplaceSize, i, (item, before[slot].1));
      TableItem(items[..], cells[..], rowSize, slot, item);
      items[slot] := item;
      assert items[..] == old(items[..])[slot := item] && cells[..] == old(cells[..]);
      assert Slots(rowSize) == before[slot := (item, before[slot].1)];
    }

    /** The same for column `j` of its row. */
    method EmplaceCellAt(i: nat, j: nat, item: U)
      requires Valid() && Prepared() && i < emplaceSize && j < rowSize
      modifies cells
      ensures Contents() == old(Contents())
      ensures Staged() == old(Staged())[i := (old(Staged())[i].0, old(Staged())[i].1[j := item])]
    {
      var slot := Wrap(emplaceStart + i, items.Length);
      ghost var before := Slots(rowSize);
      WindowWrite(before, begin, size, emplaceSize, i, (before[slot].0, before[slot].1[j := item]));
      TableCell(items[..], cells[..], rowSize, slot, j, item);
      cells[CellIndex(slot, rowSize, j)] := item;
      assert cells[..] == old(cells[..])[CellIndex(slot, rowSize, j) := item] && items[..] == old(items[..]);
      assert Slots(rowSize) == before[slot := (before[slot].0, before[slot].1[j := item])];
    }

    method PeekBackAt(i: nat) returns (item: T)
      requires Valid() && i < emplaceSize
      ensures item == Staged()[i].0
    {
      var slot := Wrap(emplaceStart + i, items.Length);
      return items[slot];
    }

    method PeekBackCellAt(i: nat, j: nat) returns (item: U)
      requires Valid() && i < emplaceSize && j < rowSize
      ensures item == Staged()[i].1[j]
    {
      var slot := Wrap(emplaceStart + i, items.Length);
      TimesMonotone(slot, items.Length, rowSize);
      return cells[CellIndex(slot, rowSize, j)];
    }

    /** Closes the batch: everything staged appears at once, behind what was there. */
    method FinishEmplaceBack()
      requires Valid() && Prepared()
      modifies `size
      ensures Valid() && Contents() == old(Contents()) + old(Staged())
    {
      WindowConcat(Slots(rowSize), begin, size, emplaceSize);
      size := size + emplaceSize;
    }

    method PeekFrontCell(j: nat) returns (item: U)
      requires Valid() && size > 0 && j < rowSize
      ensures item == Slots(rowSize)[begin].1[j] && Contents()[0] == Slots(rowSize)[begin]
    {
      TimesMonotone(begin, items.Length, rowSize);
      return cells[CellIndex(begin, rowSize, j)];
    }

    /** Stages one item with its row. */
    method EmplaceRow(i: nat, row: (T, seq<U>))
      requires Valid() && Prepared() && i < emplaceSize && |row.1| == rowSize
      modifies items, cells
      ensures Contents() == old(Contents()) && Staged() == old(Staged())[i := row]
    {
      ghost var first := Staged();
      EmplaceBackAt(i, row.0);
      ghost var blank := first[i].1;
      MixedEnds(row, blank);
      for j := 0 to rowSize
        invariant Contents() == old(Contents())
        invariant Staged() == first[i := Mixed(row, blank, j)]
      {
        EmplaceCellAt(i, j, row.1[j]);
        MixedStep(row, blank, j);
      }
    }

    /** Items that must go to make room for `n` more */
    ghost function Evicted(n: nat): (r: nat)
      requires size <= items.Length && n <= items.Length
      reads `size
      ensures r <= size
    {
      if size + n > items.Length then size + n - items.Length else 0
    }

    /** The opening, with rows of one size */
    method OpenBatch(s: nat, t: nat)
      requires Valid() && s <= items.Length && t <= width
      requires t == rowSize || size == 0
      modifies `begin, `size, `emplaceStart, `emplaceSize, `rowSize
      ensures Valid() && Prepared() && emplaceSize == s && rowSize == t
      ensures Contents() == old(Contents())[old(Evicted(s))..]
    {
      TimesGrows(items.Length, t, width);
      ghost var before := Contents();
      assert Window(Slots(t), begin, size) == before;
      PrepareEmplaceBack(s, t);
    }

    /** The whole protocol. With rows of one size, appending a batch keeps the newest items
        there is room for and puts the batch behind them. */
    method Append(batch: seq<(T, seq<U>)>, t: nat)
      requires Valid() && |batch| <= items.Length && t <= width
      requires forall b <- batch :: |b.1| == t
      requires t == rowSize || size == 0
      modifies this, items, cells
      ensures Valid() && rowSize == t
      ensures Contents() == old(Contents())[old(Evicted(|batch|))..] + batch
    {
      OpenBatch(|batch|, t);
      Fill(batch);
      FinishEmplaceBack();
    }

    /** Stages a whole batch. */
    method Fill(batch: seq<(T, seq<U>)>)
      requires Valid() && Prepared() && emplaceSize == |batch|
      requires forall b <- batch :: |b.1| == rowSize
      modifies items, cells
      ensures Contents() == old(Contents()) && Staged() == batch
    {
      for i := 0 to |batch|
        invariant Contents() == old(Contents())
        invariant Staged()[..i] == batch[..i]
      {
        assert batch[i] in batch;
        EmplaceRow(i, batch[i]);
      }
    }
  }
}
