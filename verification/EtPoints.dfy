/** What the two ET decoders share: the units read from a packet, and the point array they are
    written to. */
module EtPoints {
  import opened Bytes

  datatype PointDecodeData = PointDecodeData(azimuth: real, elevation: real, distances: nat, reflectivities: nat,
                                             confidence: nat, channel: nat, mirror: nat)

  /** Which unit of a packet is stored: one turn of an inner loop. The row's angles are at `row`,
      the unit is at `at`; the channel of a first return is the turn's number. */
  datatype Write =
    | First(row: nat, at: nat, channel: nat)
    | Second(row: nat, at: nat)
    | Mirrored(row: nat, at: nat, mirror: nat)

  /** Byte `i` of a packet, for the specification: behind the end there is nothing to read. */
  function At(b: seq<byte>, i: nat): byte {
    if i < |b| then b[i] else 0
  }

  function Int16(lo: byte, hi: byte): int {
    var v := FromLe16(lo, hi);
    if v < 0x8000 then v else v - U16
  }

  function Degrees(angle: int): real {
    angle as real / 512.0
  }

  /** The fields a decoder assigns; the others keep what they held. */
  function Assigned(b: seq<byte>, p: PointDecodeData, w: Write): PointDecodeData {
    var q := p.(azimuth := Degrees(Int16(At(b, w.row), At(b, w.row + 1))),
                elevation := Degrees(Int16(At(b, w.row + 2), At(b, w.row + 3))));
    match w
    case First(_, at, channel) =>
      q.(distances := FromLe16(At(b, at), At(b, at + 1)), reflectivities := At(b, at + 2) as nat,
         channel := channel % 256)
    case Second(_, at) =>
      q.(distances := FromLe16(At(b, at + 1), At(b, at + 2)), reflectivities := At(b, at + 3) as nat,
         channel := At(b, at) as nat)
    case Mirrored(_, at, mirror) =>
      q.(distances := FromLe16(At(b, at), At(b, at + 1)), reflectivities := At(b, at + 2) as nat, mirror := mirror)
  }

  // ---------------------------------------------------------------- what the bytes mean

  /** A signed number of 16 bits, least significant byte first */
  function Le16Signed(v: int): (r: seq<byte>)
    ensures |r| == 2
  {
    Le16(v % U16)
  }

  predicate Fits16(v: int) { -0x8000 <= v < 0x8000 }

  lemma Int16RoundTrip(v: int)
    requires Fits16(v)
    ensures Int16(Le16Signed(v)[0], Le16Signed(v)[1]) == v
  {
    Le16RoundTrip(v % U16);
  }

  /** What a unit tells of a point; the units of first returns have no channel. */
  datatype Unit = Unit(distance: nat, reflectivity: byte, channel: byte)

  function UnitBytes(u: Unit): (r: seq<byte>)
    requires u.distance < U16
    ensures |r| == 3
  {
    Le16(u.distance) + [u.reflectivity]
  }

  function ChannelUnitBytes(u: Unit): (r: seq<byte>)
    requires u.distance < U16
    ensures |r| == 4
  {
    [u.channel] + Le16(u.distance) + [u.reflectivity]
  }

  /** The angles of a row, in 512ths of a degree */
  function AngleBytes(horizontal: int, vertical: int): (r: seq<byte>)
    ensures |r| == 4
  {
    Le16Signed(horizontal) + Le16Signed(vertical)
  }

  /** The point a unit stands for */
  function PointOf(p: PointDecodeData, horizontal: int, vertical: int, u: Unit): PointDecodeData {
    p.(azimuth := horizontal as real / 512.0, elevation := vertical as real / 512.0,
       distances := u.distance, reflectivities := u.reflectivity as nat)
  }

  lemma AtStands(b: seq<byte>, at: nat, a: seq<byte>, i: nat)
    requires Stands(b, at, a) && i < |a|
    ensures At(b, at + i) == a[i]
  {
    assert b[at..at + |a|][i] == b[at + i];
  }

  lemma AnglesRead(b: seq<byte>, row: nat, horizontal: int, vertical: int)
    requires Fits16(horizontal) && Fits16(vertical) && Stands(b, row, AngleBytes(horizontal, vertical))
    ensures Int16(At(b, row), At(b, row + 1)) == horizontal && Int16(At(b, row + 2), At(b, row + 3)) == vertical
  {
    var a := AngleBytes(horizontal, vertical);
    AtStands(b, row, a, 0);
    AtStands(b, row, a, 1);
    AtStands(b, row, a, 2);
    AtStands(b, row, a, 3);
    Int16RoundTrip(horizontal);
    Int16RoundTrip(vertical);
  }

  lemma UnitRead(b: seq<byte>, at: nat, u: Unit)
    requires u.distance < U16 && Stands(b, at, UnitBytes(u))
    ensures FromLe16(At(b, at), At(b, at + 1)) == u.distance && At(b, at + 2) == u.reflectivity
  {
    var a := UnitBytes(u);
    AtStands(b, at, a, 0);
    AtStands(b, at, a, 1);
    AtStands(b, at, a, 2);
    Le16RoundTrip(u.distance);
  }

  lemma ChannelUnitRead(b: seq<byte>, at: nat, u: Unit)
    requires u.distance < U16 && Stands(b, at, ChannelUnitBytes(u))
    ensures At(b, at) == u.channel
    ensures FromLe16(At(b, at + 1), At(b, at + 2)) == u.distance && At(b, at + 3) == u.reflectivity
  {
    var a := ChannelUnitBytes(u);
    AtStands(b, at, a, 0);
    AtStands(b, at, a, 1);
    AtStands(b, at, a, 2);
    AtStands(b, at, a, 3);
    Le16RoundTrip(u.distance);
  }

  /** A row's angles and a unit, met at the places of a write, are what the write stores. */
  lemma AssignedRead(b: seq<byte>, p: PointDecodeData, w: Write, horizontal: int, vertical: int, u: Unit)
    requires Fits16(horizontal) && Fits16(vertical) && u.distance < U16
    requires Stands(b, w.row, AngleBytes(horizontal, vertical))
    requires Stands(b, w.at, if w.Second? then ChannelUnitBytes(u) else UnitBytes(u))
    ensures var q := PointOf(p, horizontal, vertical, u);
            Assigned(b, p, w) == match w
                                 case First(_, _, channel) => q.(channel := channel % 256)
                                 case Second(_, _) => q.(channel := u.channel as nat)
                                 case Mirrored(_, _, mirror) => q.(mirror := mirror)
  {
    AnglesRead(b, w.row, horizontal, vertical);
    if w.Second? {
      ChannelUnitRead(b, w.at, u);
    } else {
      UnitRead(b, w.at, u);
    }
  }

  // ---------------------------------------------------------------- units one after the other

  predicate UnitsFit(units: seq<Unit>) {
    forall k :: 0 <= k < |units| ==> units[k].distance < U16
  }

  function UnitsBytes(units: seq<Unit>): (r: seq<byte>)
    requires UnitsFit(units)
    ensures |r| == 3 * |units|
    decreases |units|
  {
    if units == [] then [] else UnitsBytes(units[..|units| - 1]) + UnitBytes(units[|units| - 1])
  }

  function ChannelUnitsBytes(units: seq<Unit>): (r: seq<byte>)
    requires UnitsFit(units)
    ensures |r| == 4 * |units|
    decreases |units|
  {
    if units == [] then [] else ChannelUnitsBytes(units[..|units| - 1]) + ChannelUnitBytes(units[|units| - 1])
  }

  lemma {:induction false} UnitStands(b: seq<byte>, at: nat, units: seq<Unit>, k: nat)
    requires UnitsFit(units) && k < |units| && Stands(b, at, UnitsBytes(units))
    ensures Stands(b, at + 3 * k, UnitBytes(units[k]))
    decreases |units|
  {
    var n := |units| - 1;
    StandsInTwo(b, at, UnitsBytes(units[..n]), UnitBytes(units[n]));
    if k < n {
      UnitStands(b, at, units[..n], k);
    }
  }

  lemma {:induction false} ChannelUnitStands(b: seq<byte>, at: nat, units: seq<Unit>, k: nat)
    requires UnitsFit(units) && k < |units| && Stands(b, at, ChannelUnitsBytes(units))
    ensures Stands(b, at + 4 * k, ChannelUnitBytes(units[k]))
    decreases |units|
  {
    var n := |units| - 1;
    StandsInTwo(b, at, ChannelUnitsBytes(units[..n]), ChannelUnitBytes(units[n]));
    if k < n {
      ChannelUnitStands(b, at, units[..n], k);
    }
  }

  // ---------------------------------------------------------------- writes to a slot

  /** The writes to one slot, the latest outermost */
  datatype History = Never | Then(before: History, last: Write)

  function Once(w: Write): History {
    Then(Never, w)
  }

  predicate WrittenOnce(writes: History) {
    writes.Then? && writes.before == Never
  }

  /** What a slot that held `p` holds after these writes. */
  function Stored(b: seq<byte>, p: PointDecodeData, writes: History): PointDecodeData {
    match writes
    case Never => p
    case Then(before, last) => Assigned(b, Stored(b, p, before), last)
  }
}
