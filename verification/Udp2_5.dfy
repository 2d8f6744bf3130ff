/** Decoding an ET packet of version 2.5: blocks of rows, each block behind a point id. */
module Udp2_5 {
  import opened Bytes
  import opened EtPoints
  import opened Products

  const PRE_HEADER: nat := 6
  const HEADER: nat := 7
  const POINT_ID: nat := 2
  const SEQ3: nat := 5
  const UNIT: nat := 3
  const BODY_CRC: nat := 4
  const TAIL: nat := 23
  const TAIL_SEQ_NUM: nat := 4
  const TAIL_CRC: nat := 4
  const CYBER_SECURITY: nat := 32

  datatype Header = Header(laserNum: nat, blockNum: nat, seqNum: nat)

  /** The fields' widths. No packet with a zero `seqNum` can be decoded: the code divides by it. */
  predicate Proper(h: Header) {
    h.laserNum < 256 && h.blockNum < 256 && 0 < h.seqNum < 256
  }

  /** What the loops count to: blocks, rows in each block, units in each row */
  datatype Shape = Shape(blocks: nat, rows: nat, width: nat)

  function ShapeOf(h: Header): Shape
    requires Proper(h)
  {
    Shape(h.blockNum, h.seqNum, h.laserNum / h.seqNum)
  }

  /** Bytes in one row */
  function Stride(l: Shape): nat {
    SEQ3 + UNIT * l.width
  }

  /** Bytes in one block, point id included */
  function BlockSize(l: Shape): nat {
    Times(l.rows, Stride(l)) + POINT_ID
  }

  /** Where the first row of block `k` starts, behind its point id */
  function BlockAt(l: Shape, k: nat): nat {
    PRE_HEADER + HEADER + POINT_ID + Times(k, BlockSize(l))
  }

  function RowAt(l: Shape, k: nat, s: nat): nat {
    BlockAt(l, k) + Times(s, Stride(l))
  }

  /** The body ends here: the point ids and rows of all blocks. */
  function BodyEnd(l: Shape): nat {
    PRE_HEADER + HEADER + Times(l.blocks, BlockSize(l))
  }

  /** `GetPacketSize` before it is cut to 16 bits */
  function FullSize(h: Header): int
    requires Proper(h)
  {
    PRE_HEADER + HEADER + (POINT_ID + (UNIT * (h.laserNum / h.seqNum) + 5) * h.seqNum) * h.blockNum
    + BODY_CRC + TAIL + TAIL_SEQ_NUM + TAIL_CRC + CYBER_SECURITY
  }

  function GetPacketSize(h: Header): nat
    requires Proper(h)
  {
    FullSize(h) % U16
  }

  /** Where the decoder looks for the tail */
  function TailAt(h: Header): int
    requires Proper(h)
  {
    GetPacketSize(h) - CYBER_SECURITY - TAIL_CRC - TAIL_SEQ_NUM - TAIL
  }

  /** Turn `u` of the loop over the row at `row` */
  function UnitWrite(row: nat, mirror: nat, u: nat): Write {
    Mirrored(row, row + SEQ3 + UNIT * u, mirror)
  }

  /** Units in one block */
  function PerBlock(l: Shape): nat {
    Times(l.rows, l.width)
  }

  /** The writes to slot `i`, if `hits` came before, of the first `s` rows of a block whose first slot
      is `slot` */
  function RowsHits(hits: History, l: Shape, mirror: nat, slot: nat, block: nat, s: nat, i: nat): History {
    if s == 0 then hits
    else
      var before, at := RowsHits(hits, l, mirror, slot, block, s - 1, i), slot + Times(s - 1, l.width);
      if at <= i < at + l.width then Then(before, UnitWrite(RowAt(l, block, s - 1), mirror, i - at)) else before
  }

  /** The writes to slot `i` of the first `k` blocks of a packet whose first slot is `index` */
  function BlocksHits(l: Shape, mirror: nat, index: nat, k: nat, i: nat): History {
    if k == 0 then Never
    else RowsHits(BlocksHits(l, mirror, index, k - 1, i), l, mirror, index + Times(k - 1, PerBlock(l)),
                  k - 1, l.rows, i)
  }

  lemma {:induction false} StoreRows(b: seq<byte>, p: PointDecodeData, hits: History, l: Shape, mirror: nat, slot: nat,
                                     block: nat, s: nat, i: nat)
    ensures Stored(b, p, RowsHits(hits, l, mirror, slot, block, s, i))
            == Stored(b, Stored(b, p, hits), RowsHits(Never, l, mirror, slot, block, s, i))
  {
    if s > 0 {
      StoreRows(b, p, hits, l, mirror, slot, block, s - 1, i);
    }
  }

  // ---------------------------------------------------------------- the loops

  /** The innermost loop */
  method DecodeRow(b: seq<byte>, points: array<PointDecodeData>, seq3: nat, width: nat, mirror: nat, pUnit: nat,
                   slot: nat)
    returns (unit: nat, index: nat)
    requires pUnit == seq3 + SEQ3 && seq3 + SEQ3 + UNIT * width <= |b|
    requires slot + width <= points.Length
    modifies points
    ensures unit == pUnit + UNIT * width && index == slot + width
    ensures forall i :: 0 <= i < points.Length ==>
              points[i] == if slot <= i < slot + width
                           then Assigned(b, old(points[i]), UnitWrite(seq3, mirror, i - slot)) else old(points[i])
  {
    unit, index := pUnit, slot;
    for u := 0 to width
      invariant unit == pUnit + UNIT * u && index == slot + u
      invariant forall i :: 0 <= i < points.Length ==>
                  points[i] == if slot <= i < slot + u
                               then Assigned(b, old(points[i]), UnitWrite(seq3, mirror, i - slot)) else old(points[i])
    {
      var point := points[index].(azimuth := Degrees(Int16(b[seq3], b[seq3 + 1])),
                                  elevation := Degrees(Int16(b[seq3 + 2], b[seq3 + 3])),
                                  distances := FromLe16(b[unit], b[unit + 1]),
                                  reflectivities := b[unit + 2] as nat, mirror := mirror);
      assert point == Assigned(b, points[index], UnitWrite(seq3, mirror, u));
      points[index] := point;
      unit, index := unit + UNIT, index + 1;
    }
  }

  /** The loop over the rows of a block */
  method DecodeBlock(b: seq<byte>, l: Shape, points: array<PointDecodeData>, ghost block: nat, mirror: nat,
                     pSeq3: nat, pUnit: nat, slot: nat)
    returns (seq3: nat, unit: nat, index: nat)
    requires RowAt(l, block, l.rows) <= |b|
    requires pSeq3 == BlockAt(l, block) && pUnit == pSeq3 + SEQ3 && slot + PerBlock(l) <= points.Length
    modifies points
    ensures seq3 == RowAt(l, block, l.rows) && unit == seq3 + SEQ3 && index == slot + PerBlock(l)
    ensures forall i :: 0 <= i < points.Length ==>
              points[i] == Stored(b, old(points[i]), RowsHits(Never, l, mirror, slot, block, l.rows, i))
  {
    seq3, unit, index := pSeq3, pUnit, slot;
    for seqId := 0 to l.rows
      invariant seq3 == RowAt(l, block, seqId) && unit == seq3 + SEQ3 && index == slot + Times(seqId, l.width)
      invariant forall i :: 0 <= i < points.Length ==>
                  points[i] == Stored(b, old(points[i]), RowsHits(Never, l, mirror, slot, block, seqId, i))
    {
      TimesMonotone(seqId, l.rows, Stride(l));
      TimesMonotone(seqId, l.rows, l.width);
      unit, index := DecodeRow(b, points, seq3, l.width, mirror, unit, index);
      seq3 := seq3 + SEQ3 + UNIT * l.width;
      unit := seq3 + SEQ3;
    }
  }

  /** The loop over the blocks: the point id is skipped behind the last block, too. */
  method DecodeBody(b: seq<byte>, l: Shape, points: array<PointDecodeData>, mirror: nat, packetIndex: nat)
    returns (seq3: nat, unit: nat, index: nat)
    requires BodyEnd(l) <= |b| && packetIndex + Times(l.blocks, PerBlock(l)) <= points.Length
    modifies points
    ensures seq3 == BodyEnd(l) + POINT_ID && unit == seq3 + SEQ3
    ensures index == packetIndex + Times(l.blocks, PerBlock(l))
    ensures forall i :: 0 <= i < points.Length ==>
              points[i] == Stored(b, old(points[i]), BlocksHits(l, mirror, packetIndex, l.blocks, i))
  {
    seq3 := PRE_HEADER + HEADER + 2;
    unit := seq3 + SEQ3;
    index := packetIndex;
    for blockId := 0 to l.blocks
      invariant seq3 == BlockAt(l, blockId) && unit == seq3 + SEQ3
      invariant index == packetIndex + Times(blockId, PerBlock(l))
      invariant forall i :: 0 <= i < points.Length ==>
                  points[i] == Stored(b, old(points[i]), BlocksHits(l, mirror, packetIndex, blockId, i))
    {
      TimesMonotone(blockId, l.blocks, BlockSize(l));
      TimesMonotone(blockId, l.blocks, PerBlock(l));
      ghost var slot := index;
      seq3, unit, index := DecodeBlock(b, l, points, blockId, mirror, seq3, unit, index);
      forall i | 0 <= i < points.Length
        ensures points[i] == Stored(b, old(points[i]), BlocksHits(l, mirror, packetIndex, blockId + 1, i))
      {
        StoreRows(b, old(points[i]), BlocksHits(l, mirror, packetIndex, blockId, i),
                  l, mirror, slot, blockId, l.rows, i);
      }
      if blockId < l.blocks {
        seq3, unit := seq3 + 2, unit + 2;
      }
    }
  }

  // ---------------------------------------------------------------- slot by slot

  /** Number of unit `u` in row `s` of block `block` */
  function Number(l: Shape, block: nat, s: nat, u: nat): nat {
    Times(block, PerBlock(l)) + (Times(s, l.width) + u)
  }

  lemma {:induction false} RowHit(hits: History, l: Shape, mirror: nat, slot: nat, block: nat, k: nat, s: nat, u: nat)
    requires u < l.width
    ensures RowsHits(hits, l, mirror, slot, block, k, slot + (Times(s, l.width) + u))
            == if s < k then Then(hits, UnitWrite(RowAt(l, block, s), mirror, u)) else hits
  {
    if k > 0 {
      RowHit(hits, l, mirror, slot, block, k - 1, s, u);
      TimesMonotone(s, k - 1, l.width);
      TimesMonotone(k - 1, s, l.width);
    }
  }

  lemma {:induction false} RowMiss(hits: History, l: Shape, mirror: nat, slot: nat, block: nat, k: nat, i: nat)
    requires i < slot || slot + Times(k, l.width) <= i
    ensures RowsHits(hits, l, mirror, slot, block, k, i) == hits
  {
    if k > 0 {
      RowMiss(hits, l, mirror, slot, block, k - 1, i);
    }
  }

  /** The slot of each unit of the first `k` blocks is written once, with that unit and its row's angles. */
  lemma {:induction false} BodyHit(l: Shape, mirror: nat, index: nat, k: nat, block: nat, s: nat, u: nat)
    requires block < k && s < l.rows && u < l.width
    ensures BlocksHits(l, mirror, index, k, index + Number(l, block, s, u))
            == Once(UnitWrite(RowAt(l, block, s), mirror, u))
  {
    var i, at := index + Number(l, block, s, u), index + Times(k - 1, PerBlock(l));
    TimesMonotone(s, l.rows, l.width);
    TimesMonotone(block, k - 1, PerBlock(l));
    if block < k - 1 {
      BodyHit(l, mirror, index, k - 1, block, s, u);
      RowMiss(BlocksHits(l, mirror, index, k - 1, i), l, mirror, at, k - 1, l.rows, i);
    } else {
      BodyMiss(l, mirror, index, k - 1, i);
      RowHit(Never, l, mirror, at, block, l.rows, s, u);
    }
  }

  /** No other slot is written. */
  lemma {:induction false} BodyMiss(l: Shape, mirror: nat, index: nat, k: nat, i: nat)
    requires i < index || index + Times(k, PerBlock(l)) <= i
    ensures BlocksHits(l, mirror, index, k, i) == Never
  {
    if k > 0 {
      BodyMiss(l, mirror, index, k - 1, i);
      RowMiss(Never, l, mirror, index + Times(k - 1, PerBlock(l)), k - 1, l.rows, i);
    }
  }

  // ---------------------------------------------------------------- from bytes to points

  /** A row: its angles in 512ths of a degree, a number not used here, and its units */
  datatype Row = Row(horizontal: int, vertical: int, confidence: byte, units: seq<Unit>)

  predicate RowFits(r: Row, l: Shape) {
    Fits16(r.horizontal) && Fits16(r.vertical) && UnitsFit(r.units) && |r.units| == l.width
  }

  function RowData(r: Row, l: Shape): (b: seq<byte>)
    requires RowFits(r, l)
    ensures |b| == Stride(l)
  {
    AngleBytes(r.horizontal, r.vertical) + ([r.confidence] + UnitsBytes(r.units))
  }

  predicate AllFit(rows: seq<Row>, l: Shape) {
    forall s :: 0 <= s < |rows| ==> RowFits(rows[s], l)
  }

  function RowsData(rows: seq<Row>, l: Shape): (b: seq<byte>)
    requires AllFit(rows, l)
    ensures |b| == Times(|rows|, Stride(l))
    decreases |rows|
  {
    if rows == [] then [] else RowsData(rows[..|rows| - 1], l) + RowData(rows[|rows| - 1], l)
  }

  /** A block: its point id and its rows */
  datatype Block = Block(pointId: nat, rows: seq<Row>)

  predicate BlockFits(k: Block, l: Shape) {
    k.pointId < U16 && |k.rows| == l.rows && AllFit(k.rows, l)
  }

  function BlockData(k: Block, l: Shape): (b: seq<byte>)
    requires BlockFits(k, l)
    ensures |b| == BlockSize(l)
  {
    Le16(k.pointId) + RowsData(k.rows, l)
  }

  predicate BlocksFit(blocks: seq<Block>, l: Shape) {
    forall k :: 0 <= k < |blocks| ==> BlockFits(blocks[k], l)
  }

  function BlocksData(blocks: seq<Block>, l: Shape): (b: seq<byte>)
    requires BlocksFit(blocks, l)
    ensures |b| == Times(|blocks|, BlockSize(l))
    decreases |blocks|
  {
    if blocks == [] then [] else BlocksData(blocks[..|blocks| - 1], l) + BlockData(blocks[|blocks| - 1], l)
  }

  lemma {:induction false} RowStands(b: seq<byte>, at: nat, rows: seq<Row>, l: Shape, s: nat)
    requires AllFit(rows, l) && s < |rows| && Stands(b, at, RowsData(rows, l))
    ensures Stands(b, at + Times(s, Stride(l)), RowData(rows[s], l))
    decreases |rows|
  {
    var n := |rows| - 1;
    StandsInTwo(b, at, RowsData(rows[..n], l), RowData(rows[n], l));
    if s < n {
      RowStands(b, at, rows[..n], l, s);
    }
  }

  lemma {:induction false} BlockStands(b: seq<byte>, at: nat, blocks: seq<Block>, l: Shape, k: nat)
    requires BlocksFit(blocks, l) && k < |blocks| && Stands(b, at, BlocksData(blocks, l))
    ensures Stands(b, at + Times(k, BlockSize(l)), BlockData(blocks[k], l))
    decreases |blocks|
  {
    var n := |blocks| - 1;
    StandsInTwo(b, at, BlocksData(blocks[..n], l), BlockData(blocks[n], l));
    if k < n {
      BlockStands(b, at, blocks[..n], l, k);
    }
  }

  /** A packet: six and seven bytes of headers, and the blocks, before the tail */
  predicate Carries(b: seq<byte>, blocks: seq<Block>, l: Shape) {
    |blocks| == l.blocks && BlocksFit(blocks, l) && Stands(b, 6 + 7, BlocksData(blocks, l))
  }

  lemma RowParts(b: seq<byte>, blocks: seq<Block>, l: Shape, k: nat, s: nat)
    requires Carries(b, blocks, l) && k < l.blocks && s < l.rows
    ensures var at, r := RowAt(l, k, s), blocks[k].rows[s];
            Stands(b, at, AngleBytes(r.horizontal, r.vertical)) && Stands(b, at + 5, UnitsBytes(r.units))
  {
    var at, r := RowAt(l, k, s), blocks[k].rows[s];
    BlockStands(b, 13, blocks, l, k);
    StandsInTwo(b, 13 + Times(k, BlockSize(l)), Le16(blocks[k].pointId), RowsData(blocks[k].rows, l));
    RowStands(b, 15 + Times(k, BlockSize(l)), blocks[k].rows, l, s);
    StandsInTwo(b, at, AngleBytes(r.horizontal, r.vertical), [r.confidence] + UnitsBytes(r.units));
    StandsInTwo(b, at + 4, [r.confidence], UnitsBytes(r.units));
  }

  lemma UnitOfRowRead(b: seq<byte>, blocks: seq<Block>, l: Shape, mirror: nat, k: nat, s: nat, u: nat,
                      p: PointDecodeData)
    requires Carries(b, blocks, l) && k < l.blocks && s < l.rows && u < l.width
    ensures var r := blocks[k].rows[s];
            Assigned(b, p, UnitWrite(RowAt(l, k, s), mirror, u))
            == PointOf(p, r.horizontal, r.vertical, r.units[u]).(mirror := mirror)
  {
    var r := blocks[k].rows[s];
    RowParts(b, blocks, l, k, s);
    UnitStands(b, RowAt(l, k, s) + 5, r.units, u);
    AssignedRead(b, p, UnitWrite(RowAt(l, k, s), mirror, u), r.horizontal, r.vertical, r.units[u]);
  }

  /** Where the packet carries a unit, the slot of that unit holds it after decoding: with what the unit
      says, its row's angles in degrees, and the packet's mirror. */
  lemma BodyRoundTrip(b: seq<byte>, blocks: seq<Block>, l: Shape, mirror: nat, index: nat, k: nat, s: nat, u: nat,
                      p: PointDecodeData)
    requires Carries(b, blocks, l) && k < l.blocks && s < l.rows && u < l.width
    ensures var r := blocks[k].rows[s];
            Stored(b, p, BlocksHits(l, mirror, index, l.blocks, index + Number(l, k, s, u)))
            == PointOf(p, r.horizontal, r.vertical, r.units[u]).(mirror := mirror)
  {
    BodyHit(l, mirror, index, l.blocks, k, s, u);
    UnitOfRowRead(b, blocks, l, mirror, k, s, u, p);
  }

  // ---------------------------------------------------------------- against the header

  /** Every slot up to the last is the slot of one unit. */
  lemma UnitOfSlot(l: Shape, j: nat) returns (block: nat, s: nat, u: nat)
    requires j < Times(l.blocks, PerBlock(l))
    ensures block < l.blocks && s < l.rows && u < l.width && j == Number(l, block, s, u)
  {
    var c;
    block, c := RowOf(j, l.blocks, PerBlock(l));
    s, u := RowOf(c, l.rows, l.width);
  }

  /** Every unit of the body is read inside it. */
  lemma ReadsInBody(l: Shape, block: nat, s: nat)
    requires block < l.blocks && s < l.rows
    ensures PRE_HEADER + HEADER + POINT_ID <= RowAt(l, block, s) && RowAt(l, block, s) + Stride(l) <= BodyEnd(l)
  {
    TimesMonotone(s, l.rows, Stride(l));
    TimesMonotone(block, l.blocks, BlockSize(l));
  }

  /** The body ends where the body's CRC is expected, four bytes before the tail, exactly when the
      size fits its 16 bits; then the decoder's cursor ends two bytes into that CRC. */
  lemma BodyEndsAtCrc(h: Header)
    requires Proper(h)
    ensures BodyEnd(ShapeOf(h)) == TailAt(h) - BODY_CRC <==> FullSize(h) < U16
  {
    var block := POINT_ID + Stride(ShapeOf(h)) * h.seqNum;
    TimesIsProduct(h.seqNum, Stride(ShapeOf(h)));
    TimesIsProduct(h.blockNum, block);
    assert BlockSize(ShapeOf(h)) == block;
    var blocks := block * h.blockNum;
    assert FullSize(h) == 13 + blocks + 67;
  }

  /** A packet of 64 lasers in four blocks of eight rows: 1016 bytes, with the tail at 953 */
  lemma UsualSize()
    ensures var h := Header(64, 4, 8);
            && Proper(h) && GetPacketSize(h) == 1016 && TailAt(h) == 953 && BodyEnd(ShapeOf(h)) == 949
  {
    var l := ShapeOf(Header(64, 4, 8));
    TimesIsProduct(8, 29);
    TimesIsProduct(4, 234);
    assert Stride(l) == 29 && BlockSize(l) == 234;
  }

  /** `per_points_num` */
  function PerPoints(h: Header): nat {
    h.blockNum * h.laserNum
  }

  /** The packet's slots are written, each once, exactly when there is no block or the rows divide the
      lasers. Otherwise the blocks close up, and the last slots keep what an older packet left there.
      No slot outside the packet's range is written. */
  lemma FillsExactly(h: Header, mirror: nat, index: nat)
    requires Proper(h)
    ensures (forall i :: index <= i < index + PerPoints(h) ==>
               WrittenOnce(BlocksHits(ShapeOf(h), mirror, index, h.blockNum, i)))
            <==> h.blockNum == 0 || h.laserNum % h.seqNum == 0
    ensures forall i :: 0 <= i < index || index + PerPoints(h) <= i ==>
              BlocksHits(ShapeOf(h), mirror, index, h.blockNum, i) == Never
  {
    var l := ShapeOf(h);
    WholeRows(h.laserNum, h.seqNum);
    TimesIsProduct(h.blockNum, PerBlock(l));
    MoreLasers(h.blockNum, PerBlock(l), h.laserNum);
    if h.blockNum == 0 || h.laserNum % h.seqNum == 0 {
      forall i | index <= i < index + PerPoints(h)
        ensures WrittenOnce(BlocksHits(l, mirror, index, h.blockNum, i))
      {
        var block, s, u := UnitOfSlot(l, i - index);
        BodyHit(l, mirror, index, h.blockNum, block, s, u);
      }
    } else {
      BodyMiss(l, mirror, index, h.blockNum, index + PerPoints(h) - 1);
    }
    forall i | 0 <= i < index || index + PerPoints(h) <= i
      ensures BlocksHits(l, mirror, index, h.blockNum, i) == Never
    {
      BodyMiss(l, mirror, index, h.blockNum, i);
    }
  }

  lemma MoreLasers(blocks: nat, m: nat, n: nat)
    requires m <= n
    ensures blocks * m <= blocks * n && (blocks > 0 && m < n ==> blocks * m < blocks * n)
  {
    assert blocks * n == blocks * m + blocks * (n - m);
  }
}
