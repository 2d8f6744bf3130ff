/** Decoding an ET packet of version 2.6: row by row, the first returns and then the second. */
module Udp2_6 {
  import opened Bytes
  import opened EtPoints
  import opened Products

  const PRE_HEADER: nat := 6
  const HEADER: nat := 8
  const POINT_ID: nat := 2
  const SEQ2: nat := 6
  const UNIT_1: nat := 3
  const UNIT_2: nat := 4
  const TAIL: nat := 22
  const TAIL_SEQ_NUM: nat := 4
  const CYBER_SECURITY: nat := 32

  datatype Header = Header(laserNum: nat, blockNum: nat, seqNum: nat, secRetNum: nat)

  /** The fields' widths. No packet with a zero `seqNum` can be decoded: the code divides by it. */
  predicate Proper(h: Header) {
    h.laserNum < U16 && h.blockNum < 256 && 0 < h.seqNum < 256 && h.secRetNum < 256
  }

  /** What the loops count to: rows, first returns and second returns in each row; and how far
      behind a packet's first slot its second returns go. */
  datatype Shape = Shape(rows: nat, width: nat, second: nat, lasers: nat)

  /** The rows' first returns stay below the second returns. */
  predicate Apart(l: Shape) {
    Times(l.rows, l.width) <= l.lasers
  }

  function ShapeOf(h: Header): Shape
    requires Proper(h)
  {
    Shape(h.seqNum, h.laserNum / h.seqNum, h.secRetNum, h.laserNum)
  }

  lemma ShapeApart(h: Header)
    requires Proper(h)
    ensures Apart(ShapeOf(h))
  {
    WholeRows(h.laserNum, h.seqNum);
  }

  /** Bytes in one row */
  function Stride(l: Shape): nat {
    SEQ2 + UNIT_1 * l.width + UNIT_2 * l.second
  }

  /** Where row `s` starts */
  function RowAt(l: Shape, s: nat): nat {
    PRE_HEADER + HEADER + POINT_ID + Times(s, Stride(l))
  }

  /** Slots of one block */
  function Slots(l: Shape): nat {
    l.lasers + Times(l.rows, l.second)
  }

  /** `GetPacketSize` before it is cut to 16 bits */
  function FullSize(h: Header): int
    requires Proper(h)
  {
    PRE_HEADER + HEADER
    + (POINT_ID + (SEQ2 + UNIT_1 * (h.laserNum / h.seqNum) + UNIT_2 * h.secRetNum) * h.seqNum) * h.blockNum
    + TAIL + TAIL_SEQ_NUM + CYBER_SECURITY
  }

  function GetPacketSize(h: Header): nat
    requires Proper(h)
  {
    FullSize(h) % U16
  }

  /** Where the decoder looks for the tail */
  function TailAt(h: Header): int
    requires Proper(h)
  {
    GetPacketSize(h) - CYBER_SECURITY - TAIL_SEQ_NUM - TAIL
  }

  function FirstWrite(row: nat, u: nat): Write {
    First(row, row + SEQ2 + UNIT_1 * u, u)
  }

  function SecondWrite(row: nat, width: nat, v: nat): Write {
    Second(row, row + SEQ2 + UNIT_1 * width + UNIT_2 * v)
  }

  /** The writes to slot `i`, with that of the row at `row` whose first returns go to `first` on */
  function WithFirst(hits: History, l: Shape, row: nat, first: nat, i: nat): History {
    if first <= i < first + l.width then Then(hits, FirstWrite(row, i - first)) else hits
  }

  function WithSecond(hits: History, l: Shape, row: nat, second: nat, i: nat): History {
    if second <= i < second + l.second then Then(hits, SecondWrite(row, l.width, i - second)) else hits
  }

  /** The writes to slot `i`, in order, of the first `s` rows of a packet whose first slot is `index` */
  function RowsHits(l: Shape, index: nat, s: nat, i: nat): History {
    if s == 0 then Never
    else
      var row := RowAt(l, s - 1);
      WithSecond(WithFirst(RowsHits(l, index, s - 1, i), l, row, index + Times(s - 1, l.width), i),
                 l, row, index + l.lasers + Times(s - 1, l.second), i)
  }

  // ---------------------------------------------------------------- the loops

  /** The first inner loop: `unitId` counts to `width`, `pUnit1` and `index_unit` move along. */
  method DecodeFirst(b: seq<byte>, points: array<PointDecodeData>, seq2: nat, width: nat, pUnit1: nat, indexUnit: nat)
    returns (unit1: nat, index: nat)
    requires pUnit1 == seq2 + SEQ2 && seq2 + SEQ2 + UNIT_1 * width <= |b|
    requires indexUnit + width <= points.Length
    modifies points
    ensures unit1 == pUnit1 + UNIT_1 * width && index == indexUnit + width
    ensures forall i :: 0 <= i < points.Length ==>
              points[i] == if indexUnit <= i < indexUnit + width
                           then Assigned(b, old(points[i]), FirstWrite(seq2, i - indexUnit)) else old(points[i])
  {
    unit1, index := pUnit1, indexUnit;
    for u := 0 to width
      invariant unit1 == pUnit1 + UNIT_1 * u && index == indexUnit + u
      invariant forall i :: 0 <= i < points.Length ==>
                  points[i] == if indexUnit <= i < indexUnit + u
                               then Assigned(b, old(points[i]), FirstWrite(seq2, i - indexUnit)) else old(points[i])
    {
      var point := points[index].(azimuth := Degrees(Int16(b[seq2], b[seq2 + 1])),
                                  elevation := Degrees(Int16(b[seq2 + 2], b[seq2 + 3])),
                                  distances := FromLe16(b[unit1], b[unit1 + 1]),
                                  reflectivities := b[unit1 + 2] as nat, channel := u % 256);
      assert point == Assigned(b, points[index], FirstWrite(seq2, u));
      points[index] := point;
      unit1, index := unit1 + UNIT_1, index + 1;
    }
  }

  /** The second inner loop */
  method DecodeSecond(b: seq<byte>, points: array<PointDecodeData>, seq2: nat, ghost width: nat, count: nat,
                      pUnit2: nat, indexUnit2: nat)
    returns (unit2: nat, index: nat)
    requires pUnit2 == seq2 + SEQ2 + UNIT_1 * width && pUnit2 + UNIT_2 * count <= |b|
    requires indexUnit2 + count <= points.Length
    modifies points
    ensures unit2 == pUnit2 + UNIT_2 * count && index == indexUnit2 + count
    ensures forall i :: 0 <= i < points.Length ==>
              points[i] == if indexUnit2 <= i < indexUnit2 + count
                           then Assigned(b, old(points[i]), SecondWrite(seq2, width, i - indexUnit2))
                           else old(points[i])
  {
    unit2, index := pUnit2, indexUnit2;
    for v := 0 to count
      invariant unit2 == pUnit2 + UNIT_2 * v && index == indexUnit2 + v
      invariant forall i :: 0 <= i < points.Length ==>
                  points[i] == if indexUnit2 <= i < indexUnit2 + v
                               then Assigned(b, old(points[i]), SecondWrite(seq2, width, i - indexUnit2))
                               else old(points[i])
    {
      var point := points[index].(azimuth := Degrees(Int16(b[seq2], b[seq2 + 1])),
                                  elevation := Degrees(Int16(b[seq2 + 2], b[seq2 + 3])),
                                  distances := FromLe16(b[unit2 + 1], b[unit2 + 2]),
                                  reflectivities := b[unit2 + 3] as nat, channel := b[unit2] as nat);
      assert point == Assigned(b, points[index], SecondWrite(seq2, width, v));
      points[index] := point;
      unit2, index := unit2 + UNIT_2, index + 1;
    }
  }

  /** Up to `k` rows stay within what all rows take. */
  lemma Rooms(l: Shape, k: nat)
    requires Apart(l) && k < l.rows
    ensures RowAt(l, k + 1) <= RowAt(l, l.rows)
    ensures Times(k + 1, l.width) <= l.lasers && Times(k + 1, l.second) <= Times(l.rows, l.second)
  {
    TimesMonotone(k, l.rows, Stride(l));
    TimesMonotone(k, l.rows, l.width);
    TimesMonotone(k, l.rows, l.second);
  }

  /** One turn of the loop over the rows: each inner loop leaves its cursor where the next thing
      starts. */
  method DecodeRow(b: seq<byte>, l: Shape, points: array<PointDecodeData>, ghost start: seq<PointDecodeData>,
                   ghost index: nat, ghost s: nat, seq2: nat, pUnit1: nat, pUnit2: nat, first: nat, second: nat)
    returns (unit1: nat, unit2: nat, indexUnit: nat, indexUnit2: nat)
    requires seq2 == RowAt(l, s) && pUnit1 == seq2 + SEQ2 && pUnit2 == pUnit1 + UNIT_1 * l.width
    requires RowAt(l, s + 1) <= |b| && first + l.width <= points.Length && second + l.second <= points.Length
    requires first == index + Times(s, l.width) && second == index + l.lasers + Times(s, l.second)
    requires |start| == points.Length
    requires forall i :: 0 <= i < points.Length ==> points[i] == Stored(b, start[i], RowsHits(l, index, s, i))
    modifies points
    ensures unit1 == pUnit2 && unit2 == RowAt(l, s + 1)
    ensures indexUnit == first + l.width && indexUnit2 == second + l.second
    ensures forall i :: 0 <= i < points.Length ==> points[i] == Stored(b, start[i], RowsHits(l, index, s + 1, i))
  {
    unit1, indexUnit := DecodeFirst(b, points, seq2, l.width, pUnit1, first);
    unit2, indexUnit2 := DecodeSecond(b, points, seq2, l.width, l.second, pUnit2, second);
  }

  /** The loop over the rows. The cursors end where a further row would start. */
  method DecodeBody(b: seq<byte>, l: Shape, points: array<PointDecodeData>, index: nat)
    returns (seq2: nat, unit1: nat, unit2: nat)
    requires Apart(l) && RowAt(l, l.rows) <= |b| && index + Slots(l) <= points.Length
    modifies points
    ensures seq2 == RowAt(l, l.rows) && unit1 == seq2 + SEQ2 && unit2 == unit1 + UNIT_1 * l.width
    ensures forall i :: 0 <= i < points.Length ==>
              points[i] == Stored(b, old(points[i]), RowsHits(l, index, l.rows, i))
  {
    seq2 := PRE_HEADER + HEADER + POINT_ID;
    unit1 := seq2 + SEQ2;
    unit2 := unit1 + UNIT_1 * l.width;
    var indexUnit, indexUnit2 := index, index + l.lasers;
    ghost var start := points[..];
    for seqId := 0 to l.rows
      invariant seq2 == RowAt(l, seqId) && unit1 == seq2 + SEQ2 && unit2 == unit1 + UNIT_1 * l.width
      invariant indexUnit == index + Times(seqId, l.width)
      invariant indexUnit2 == index + l.lasers + Times(seqId, l.second)
      invariant forall i :: 0 <= i < points.Length ==>
                  points[i] == Stored(b, start[i], RowsHits(l, index, seqId, i))
    {
      Rooms(l, seqId);
      unit1, unit2, indexUnit, indexUnit2 :=
        DecodeRow(b, l, points, start, index, seqId, seq2, unit1, unit2, indexUnit, indexUnit2);
      seq2 := seq2 + SEQ2 + UNIT_1 * l.width + UNIT_2 * l.second;
      unit1 := seq2 + SEQ2;
      unit2 := unit1 + UNIT_1 * l.width;
    }
  }

  // ---------------------------------------------------------------- slot by slot

  /** The slot of first return `u` of row `s` is written once, with that unit and its row's angles. */
  lemma {:induction false} FirstHit(l: Shape, index: nat, k: nat, s: nat, u: nat)
    requires Apart(l) && k <= l.rows && s < l.rows && u < l.width
    ensures RowsHits(l, index, k, index + (Times(s, l.width) + u))
            == if s < k then Once(FirstWrite(RowAt(l, s), u)) else Never
  {
    Rooms(l, s);
    if k > 0 {
      FirstHit(l, index, k - 1, s, u);
      TimesMonotone(s, k - 1, l.width);
      TimesMonotone(k - 1, s, l.width);
    }
  }

  lemma {:induction false} SecondHit(l: Shape, index: nat, k: nat, s: nat, v: nat)
    requires Apart(l) && k <= l.rows && s < l.rows && v < l.second
    ensures RowsHits(l, index, k, index + l.lasers + (Times(s, l.second) + v))
            == if s < k then Once(SecondWrite(RowAt(l, s), l.width, v)) else Never
  {
    if k > 0 {
      Rooms(l, k - 1);
      SecondHit(l, index, k - 1, s, v);
      TimesMonotone(s, k - 1, l.second);
      TimesMonotone(k - 1, s, l.second);
    }
  }

  /** No other slot is written. */
  lemma {:induction false} Miss(l: Shape, index: nat, k: nat, i: nat)
    requires Apart(l) && k <= l.rows
    requires i < index || index + Slots(l) <= i || index + Times(l.rows, l.width) <= i < index + l.lasers
    ensures RowsHits(l, index, k, i) == Never
  {
    if k > 0 {
      Rooms(l, k - 1);
      TimesMonotone(k - 1, l.rows, l.width);
      Miss(l, index, k - 1, i);
    }
  }

  // ---------------------------------------------------------------- from bytes to points

  /** A row: its angles in 512ths of a degree, a number not used here, its first and its second returns */
  datatype Row = Row(horizontal: int, vertical: int, confidence: int, first: seq<Unit>, second: seq<Unit>)

  predicate RowFits(r: Row, l: Shape) {
    && Fits16(r.horizontal) && Fits16(r.vertical) && UnitsFit(r.first) && UnitsFit(r.second)
    && |r.first| == l.width && |r.second| == l.second
  }

  function RowData(r: Row, l: Shape): (b: seq<byte>)
    requires RowFits(r, l)
    ensures |b| == Stride(l)
  {
    AngleBytes(r.horizontal, r.vertical) + (Le16Signed(r.confidence)
    + (UnitsBytes(r.first) + ChannelUnitsBytes(r.second)))
  }

  predicate AllFit(rows: seq<Row>, l: Shape) {
    |rows| <= l.rows && forall s :: 0 <= s < |rows| ==> RowFits(rows[s], l)
  }

  function RowsData(rows: seq<Row>, l: Shape): (b: seq<byte>)
    requires AllFit(rows, l)
    ensures |b| == Times(|rows|, Stride(l))
    decreases |rows|
  {
    if rows == [] then [] else RowsData(rows[..|rows| - 1], l) + RowData(rows[|rows| - 1], l)
  }

  lemma {:induction false} RowStands(b: seq<byte>, at: nat, rows: seq<Row>, l: Shape, s: nat)
    requires AllFit(rows, l) && s < |rows| && Stands(b, at, RowsData(rows, l))
    ensures Stands(b, at + Times(s, Stride(l)), RowData(rows[s], l))
    decreases |rows|
  {
    var n := |rows| - 1;
    StandsInTwo(b, at, RowsData(rows[..n], l), RowData(rows[n], l));
    if s < n {
      RowStands(b, at, rows[..n], l, s);
    }
  }

  /** A packet: six and eight bytes of headers, the point id, and the rows, before the tail */
  predicate Carries(b: seq<byte>, pointId: nat, rows: seq<Row>, l: Shape) {
    |rows| == l.rows && AllFit(rows, l) && pointId < U16 && Stands(b, 6 + 8, Le16(pointId) + RowsData(rows, l))
  }

  lemma RowParts(b: seq<byte>, pointId: nat, rows: seq<Row>, l: Shape, s: nat)
    requires Carries(b, pointId, rows, l) && s < l.rows
    ensures var at, r := RowAt(l, s), rows[s];
            && Stands(b, at, AngleBytes(r.horizontal, r.vertical)) && Stands(b, at + 6, UnitsBytes(r.first))
            && Stands(b, at + 6 + 3 * l.width, ChannelUnitsBytes(r.second))
  {
    var at, r := RowAt(l, s), rows[s];
    StandsInTwo(b, 14, Le16(pointId), RowsData(rows, l));
    RowStands(b, 16, rows, l, s);
    var units := UnitsBytes(r.first) + ChannelUnitsBytes(r.second);
    StandsInTwo(b, at, AngleBytes(r.horizontal, r.vertical), Le16Signed(r.confidence) + units);
    StandsInTwo(b, at + 4, Le16Signed(r.confidence), units);
    StandsInTwo(b, at + 6, UnitsBytes(r.first), ChannelUnitsBytes(r.second));
  }

  lemma FirstRead(b: seq<byte>, pointId: nat, rows: seq<Row>, l: Shape, s: nat, u: nat, p: PointDecodeData)
    requires Carries(b, pointId, rows, l) && s < l.rows && u < l.width
    ensures Assigned(b, p, FirstWrite(RowAt(l, s), u))
            == PointOf(p, rows[s].horizontal, rows[s].vertical, rows[s].first[u]).(channel := u % 256)
  {
    RowParts(b, pointId, rows, l, s);
    UnitStands(b, RowAt(l, s) + 6, rows[s].first, u);
    AssignedRead(b, p, FirstWrite(RowAt(l, s), u), rows[s].horizontal, rows[s].vertical, rows[s].first[u]);
  }

  lemma SecondRead(b: seq<byte>, pointId: nat, rows: seq<Row>, l: Shape, s: nat, v: nat, p: PointDecodeData)
    requires Carries(b, pointId, rows, l) && s < l.rows && v < l.second
    ensures Assigned(b, p, SecondWrite(RowAt(l, s), l.width, v))
            == PointOf(p, rows[s].horizontal, rows[s].vertical, rows[s].second[v]).(
                 channel := rows[s].second[v].channel as nat)
  {
    RowParts(b, pointId, rows, l, s);
    ChannelUnitStands(b, RowAt(l, s) + 6 + 3 * l.width, rows[s].second, v);
    AssignedRead(b, p, SecondWrite(RowAt(l, s), l.width, v), rows[s].horizontal, rows[s].vertical, rows[s].second[v]);
  }

  /** Where the packet carries a first return, the slot of that return holds it after decoding: with
      what the unit says, and its row's angles in degrees. */
  lemma FirstRoundTrip(b: seq<byte>, pointId: nat, rows: seq<Row>, l: Shape, index: nat, s: nat, u: nat,
                       p: PointDecodeData)
    requires Apart(l) && Carries(b, pointId, rows, l) && s < l.rows && u < l.width
    ensures Stored(b, p, RowsHits(l, index, l.rows, index + (Times(s, l.width) + u)))
            == PointOf(p, rows[s].horizontal, rows[s].vertical, rows[s].first[u]).(channel := u % 256)
  {
    FirstHit(l, index, l.rows, s, u);
    FirstRead(b, pointId, rows, l, s, u, p);
  }

  /** The same for a second return, behind all first ones; its unit says the channel, too. */
  lemma SecondRoundTrip(b: seq<byte>, pointId: nat, rows: seq<Row>, l: Shape, index: nat, s: nat, v: nat,
                        p: PointDecodeData)
    requires Apart(l) && Carries(b, pointId, rows, l) && s < l.rows && v < l.second
    ensures Stored(b, p, RowsHits(l, index, l.rows, index + l.lasers + (Times(s, l.second) + v)))
            == PointOf(p, rows[s].horizontal, rows[s].vertical, rows[s].second[v]).(
                 channel := rows[s].second[v].channel as nat)
  {
    SecondHit(l, index, l.rows, s, v);
    SecondRead(b, pointId, rows, l, s, v, p);
  }

  // ---------------------------------------------------------------- against the header

  /** Bytes of all rows */
  function RowBytes(h: Header): nat
    requires Proper(h)
  {
    Times(h.seqNum, Stride(ShapeOf(h)))
  }

  lemma SizeByRows(h: Header)
    requires Proper(h)
    ensures FullSize(h) == 74 + RowBytes(h) + (POINT_ID + RowBytes(h)) * (h.blockNum - 1)
  {
    var rows := Stride(ShapeOf(h)) * h.seqNum;
    TimesIsProduct(h.seqNum, Stride(ShapeOf(h)));
    assert FullSize(h) == 72 + (POINT_ID + rows) * h.blockNum;
    assert (POINT_ID + rows) * h.blockNum == (POINT_ID + rows) + (POINT_ID + rows) * (h.blockNum - 1);
  }

  lemma CutToItself(x: nat, more: int)
    ensures (x + more) % U16 == x <==> x < U16 && more % U16 == 0
  {
  }

  /** The body ends where the decoder looks for the tail exactly when the size with one block fits its
      16 bits and the other blocks vanish in the cut: when there is one block, and for some headers
      with many. */
  lemma TailExact(h: Header)
    requires Proper(h)
    ensures RowAt(ShapeOf(h), h.seqNum) == TailAt(h)
            <==> 74 + RowBytes(h) < U16 && (POINT_ID + RowBytes(h)) * (h.blockNum - 1) % U16 == 0
  {
    SizeByRows(h);
    CutToItself(74 + RowBytes(h), (POINT_ID + RowBytes(h)) * (h.blockNum - 1));
  }

  /** With one block, exactly when the size fits. */
  lemma TailOfOneBlock(h: Header)
    requires Proper(h) && h.blockNum == 1
    ensures RowAt(ShapeOf(h), h.seqNum) == TailAt(h) <==> FullSize(h) < U16
  {
    SizeByRows(h);
    TailExact(h);
  }

  /** 65 blocks whose size of 66632 bytes is cut to 1096: the tail is looked for behind the first. */
  lemma CutSizeHitsTail()
    ensures var h := Header(6, 65, 2, 124);
            && Proper(h) && FullSize(h) == 66632 && GetPacketSize(h) == 1096
            && RowAt(ShapeOf(h), h.seqNum) == TailAt(h) == 1038
  {
    var l := ShapeOf(Header(6, 65, 2, 124));
    assert l.width == 3 && Stride(l) == 511;
    TimesIsProduct(2, 511);
  }

  /** `per_points_num` */
  function PerPoints(h: Header): nat {
    (h.laserNum + h.secRetNum * h.seqNum) * h.blockNum
  }

  lemma PointsOfBlocks(h: Header)
    requires Proper(h)
    ensures h.blockNum == 0 ==> PerPoints(h) == 0
    ensures h.blockNum == 1 ==> PerPoints(h) == Slots(ShapeOf(h))
    ensures h.blockNum > 1 ==> PerPoints(h) >= 2 * Slots(ShapeOf(h))
  {
    TimesIsProduct(h.seqNum, h.secRetNum);
    MoreBlocks(h.laserNum + h.secRetNum * h.seqNum, h.blockNum);
  }

  lemma OneBlockFills(h: Header, index: nat, i: nat)
    requires Proper(h) && h.blockNum == 1 && h.laserNum % h.seqNum == 0 && index <= i < index + PerPoints(h)
    ensures WrittenOnce(RowsHits(ShapeOf(h), index, h.seqNum, i))
  {
    var l := ShapeOf(h);
    ShapeApart(h);
    WholeRows(h.laserNum, h.seqNum);
    PointsOfBlocks(h);
    if i < index + h.laserNum {
      var s, u := RowOf(i - index, h.seqNum, l.width);
      FirstHit(l, index, h.seqNum, s, u);
    } else {
      var s, v := RowOf(i - index - h.laserNum, h.seqNum, l.second);
      SecondHit(l, index, h.seqNum, s, v);
    }
  }

  /** The packet's slots are written, each once, exactly when it has none, or there is one block and
      the rows divide the lasers. Otherwise some slot keeps what an older packet left there. */
  lemma FillsExactly(h: Header, index: nat)
    requires Proper(h)
    ensures (forall i :: index <= i < index + PerPoints(h) ==> WrittenOnce(RowsHits(ShapeOf(h), index, h.seqNum, i)))
            <==> PerPoints(h) == 0 || (h.blockNum == 1 && h.laserNum % h.seqNum == 0)
  {
    var l := ShapeOf(h);
    ShapeApart(h);
    WholeRows(h.laserNum, h.seqNum);
    PointsOfBlocks(h);
    if PerPoints(h) == 0 {
    } else if h.blockNum == 1 && h.laserNum % h.seqNum == 0 {
      forall i | index <= i < index + PerPoints(h)
        ensures WrittenOnce(RowsHits(l, index, h.seqNum, i))
      {
        OneBlockFills(h, index, i);
      }
    } else if h.laserNum % h.seqNum != 0 {
      Miss(l, index, h.seqNum, index + h.laserNum - 1);
    } else {
      Miss(l, index, h.seqNum, index + Slots(l));
    }
  }

  /** No slot outside the packet's range is written, exactly unless the header says there is no block
      and the rows hold units all the same. */
  lemma StaysInRange(h: Header, index: nat)
    requires Proper(h)
    ensures (forall i :: 0 <= i < index || index + PerPoints(h) <= i ==>
               RowsHits(ShapeOf(h), index, h.seqNum, i) == Never)
            <==> h.blockNum > 0 || (h.laserNum < h.seqNum && h.secRetNum == 0)
  {
    var l := ShapeOf(h);
    ShapeApart(h);
    PointsOfBlocks(h);
    if h.blockNum > 0 || (h.laserNum < h.seqNum && h.secRetNum == 0) {
      forall i | 0 <= i < index || index + PerPoints(h) <= i
        ensures RowsHits(l, index, h.seqNum, i) == Never
      {
        OutsideMiss(h, index, i);
      }
    } else if h.secRetNum > 0 {
      SecondHit(l, index, h.seqNum, 0, 0);
    } else {
      FirstHit(l, index, h.seqNum, 0, 0);
    }
  }

  lemma OutsideMiss(h: Header, index: nat, i: nat)
    requires Proper(h) && (i < index || index + PerPoints(h) <= i)
    requires h.blockNum > 0 || (h.laserNum < h.seqNum && h.secRetNum == 0)
    ensures RowsHits(ShapeOf(h), index, h.seqNum, i) == Never
  {
    var l := ShapeOf(h);
    if h.blockNum > 0 {
      ShapeApart(h);
      PointsOfBlocks(h);
      Miss(l, index, l.rows, i);
    } else {
      NoWidth(h);
      NoUnits(l, index, h.seqNum, i);
    }
  }

  lemma NoWidth(h: Header)
    requires Proper(h) && h.laserNum < h.seqNum
    ensures ShapeOf(h).width == 0
  {
  }

  lemma {:induction false} NoUnits(l: Shape, index: nat, k: nat, i: nat)
    requires l.width == 0 && l.second == 0
    ensures RowsHits(l, index, k, i) == Never
  {
    if k > 0 {
      NoUnits(l, index, k - 1, i);
    }
  }
}
