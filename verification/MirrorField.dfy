/** How the AT128 parser finds the mirror field an azimuth belongs to. Angles are
    1/25600 degree, 36000 * 256 to a turn. The field limits are `uint32_t`, so the sums
    of the membership test are taken modulo 2^32. */
module MirrorField {
  import opened Options

  const CIRCLE: int := 36000 * 256
  const U32: int := 0x1_0000_0000

  datatype Field = Field(start: int, end: int)
  predicate OnCircle(x: int) { 0 <= x < CIRCLE }

  predicate Valid(f: Field) { OnCircle(f.start) && OnCircle(f.end) }

  /** An unsigned sum, taken to a turn */
  function Residue(sum: int): (r: int)
    ensures 0 <= r < CIRCLE
  {
    sum % U32 % CIRCLE
  }

  /** The test in the loop condition, negated. */
  predicate Accepts(f: Field, azimuth: int) {
    (Residue(azimuth + CIRCLE - f.start) + Residue(f.end + CIRCLE - azimuth)) % U32
    == Residue(f.end + CIRCLE - f.start)
  }

  lemma NoWrap(a: int, b: int)
    requires 0 <= a < CIRCLE && 0 <= b < CIRCLE
    ensures (a + b) % U32 == a + b
  {
  }

  /** The outer sum does not wrap. */
  lemma AcceptsBySum(f: Field, azimuth: int, x: int, y: int)
    requires x == azimuth - f.start && y == f.end - azimuth
    ensures Accepts(f, azimuth) <==> Residue(x + CIRCLE) + Residue(y + CIRCLE) == Residue(x + y + CIRCLE)
  {
    assert azimuth + CIRCLE - f.start == x + CIRCLE && f.end + CIRCLE - azimuth == y + CIRCLE;
    assert f.end + CIRCLE - f.start == x + y + CIRCLE;
    NoWrap(Residue(x + CIRCLE), Residue(y + CIRCLE));
  }

  /** Turning forward from `start`, `azimuth` comes no later than `end`. */
  predicate OnArc(f: Field, azimuth: int) {
    (azimuth - f.start) % CIRCLE <= (f.end - f.start) % CIRCLE
  }

  /** An unsigned sum that does not wrap. */
  lemma AddTurn(x: int)
    requires -CIRCLE <= x < U32 - CIRCLE
    ensures Residue(x + CIRCLE) == x % CIRCLE
  {
    assert (x + CIRCLE) % U32 == x + CIRCLE;
    assert (x + CIRCLE) % CIRCLE == x % CIRCLE;
  }

  /** Two arcs in a row fill a third exactly when the first is no longer than the third. */
  lemma ArcsInARow(x: int, y: int)
    ensures x % CIRCLE + y % CIRCLE == (x + y) % CIRCLE <==> x % CIRCLE <= (x + y) % CIRCLE
  {
    var a, b := x % CIRCLE, y % CIRCLE;
    var i, j := x / CIRCLE, y / CIRCLE;
    assert x + y == (i + j) * CIRCLE + (a + b);
    if a + b < CIRCLE {
      Remainder(x + y, i + j, a + b);
    } else {
      Remainder(x + y, i + j + 1, a + b - CIRCLE);
    }
  }

  lemma Remainder(n: int, q: int, r: int)
    requires n == q * CIRCLE + r && 0 <= r < CIRCLE
    ensures n % CIRCLE == r
  {
  }

  /** The azimuth lies within a turn of the field. */
  predicate WithinTurn(f: Field, azimuth: int) {
    f.start - CIRCLE <= azimuth <= f.end + CIRCLE
  }

  lemma AcceptsWithinTurn(f: Field, azimuth: int)
    requires Valid(f) && WithinTurn(f, azimuth)
    ensures Accepts(f, azimuth) <==> OnArc(f, azimuth)
  {
    var x, y := azimuth - f.start, f.end - azimuth;
    AddTurn(x);
    AddTurn(y);
    AddTurn(x + y);
    ArcsInARow(x, y);
    AcceptsBySum(f, azimuth, x, y);
  }

  /** An unsigned sum that wraps is 311296 off, which is no multiple of a turn. */
  lemma AddTurnWraps(x: int)
    requires CIRCLE - U32 <= x < -CIRCLE
    ensures Residue(x + CIRCLE) == (x + 311296) % CIRCLE
  {
    assert (x + CIRCLE) % U32 == x + CIRCLE + U32;
    Remainder(x + CIRCLE + U32, (x + 311296) / CIRCLE + 467, (x + 311296) % CIRCLE);
  }

  /** One of two arcs being off, they do not fill the third. */
  lemma ArcsOff(x: int, y: int)
    ensures (x + 311296) % CIRCLE + y % CIRCLE != (x + y) % CIRCLE
  {
    var a, b, c := (x + 311296) % CIRCLE, y % CIRCLE, (x + y) % CIRCLE;
    var i, j, k := (x + 311296) / CIRCLE, y / CIRCLE, (x + y) / CIRCLE;
    assert x + 311296 == i * CIRCLE + a && y == j * CIRCLE + b && x + y == k * CIRCLE + c;
    if a + b == c {
      assert false;
    }
  }

  lemma RejectsFarAway(f: Field, azimuth: int)
    requires Valid(f) && Int32(azimuth) && !WithinTurn(f, azimuth)
    ensures !Accepts(f, azimuth)
  {
    var x, y := azimuth - f.start, f.end - azimuth;
    AddTurn(x + y);
    if azimuth < f.start - CIRCLE {
      AddTurnWraps(x);
      AddTurn(y);
      ArcsOff(x, y);
    } else {
      AddTurn(x);
      AddTurnWraps(y);
      ArcsOff(y, x);
    }
    AcceptsBySum(f, azimuth, x, y);
  }

  /** An `int` */
  predicate Int32(azimuth: int) { -0x8000_0000 <= azimuth < 0x8000_0000 }

  /** What the field is meant to hold, as far as the unsigned sums do not wrap */
  predicate Holds(f: Field, azimuth: int) {
    OnArc(f, azimuth) && WithinTurn(f, azimuth)
  }

  /** For any azimuth, also one that is no angle of a turn, the test accepts exactly those on the arc,
      wrapping allowed, that lie within a turn of the field. */
  lemma AcceptsExact(f: Field, azimuth: int)
    requires Valid(f) && Int32(azimuth)
    ensures Accepts(f, azimuth) <==> Holds(f, azimuth)
  {
    if WithinTurn(f, azimuth) {
      AcceptsWithinTurn(f, azimuth);
    } else {
      RejectsFarAway(f, azimuth);
    }
  }

  /** So every azimuth a packet can carry, 16 bits and a fine byte, is judged rightly unless it lies on
      the arc and more than a turn behind its end. */
  lemma AcceptsOfPacket(f: Field, azimuth: int)
    requires Valid(f) && 0 <= azimuth < 0x100_0000
    ensures (Accepts(f, azimuth) <==> OnArc(f, azimuth)) <==> (OnArc(f, azimuth) ==> azimuth <= f.end + CIRCLE)
  {
    AcceptsExact(f, azimuth);
  }

  /** The field from 290 to 10 degrees rejects 652 degrees, which is 292. */
  lemma OnArcButRejected()
    ensures var f := Field(29000 * 256, 1000 * 256);
            Valid(f) && OnArc(f, 65200 * 256) && !Accepts(f, 65200 * 256)
  {
    AcceptsExact(Field(29000 * 256, 1000 * 256), 65200 * 256);
  }

  predicate AllValid(fields: seq<Field>) {
    forall f <- fields :: Valid(f)
  }

  /** The first `n` fields do not hold the azimuth. */
  predicate NoneBefore(fields: seq<Field>, azimuth: int, n: nat)
    requires n <= |fields|
  {
    forall i :: 0 <= i < n ==> !Holds(fields[i], azimuth)
  }

  lemma Advance(fields: seq<Field>, azimuth: int, n: nat)
    requires n < |fields| && AllValid(fields) && Int32(azimuth) && NoneBefore(fields, azimuth, n)
    ensures Accepts(fields[n], azimuth) <==> Holds(fields[n], azimuth)
    ensures !Accepts(fields[n], azimuth) ==> NoneBefore(fields, azimuth, n + 1)
  {
    AcceptsExact(fields[n], azimuth);
  }

  function CyclicNext(i: nat, n: nat): (r: nat)
    requires i < n
    ensures r == if i + 1 == n then 0 else i + 1
  {
    (i + 1) % n
  }

  /** The cyclic search: the least-numbered field that holds the azimuth, or none. */
  method FindField(fields: seq<Field>, azimuth: int) returns (found: Option<nat>)
    requires AllValid(fields) && Int32(azimuth)
    ensures found.Some? ==> found.value < |fields| && Holds(fields[found.value], azimuth)
                            && NoneBefore(fields, azimuth, found.value)
    ensures found.None? ==> NoneBefore(fields, azimuth, |fields|)
  {
    var field, count := 0, 0;
    while count < |fields| && !Accepts(fields[field], azimuth)
      invariant 0 <= count <= |fields|
      invariant field == if count == |fields| then 0 else count
      invariant NoneBefore(fields, azimuth, count)
    {
      Advance(fields, azimuth, count);
      field := CyclicNext(field, |fields|);
      count := count + 1;
    }
    if count >= |fields| {
      return None;
    }
    Advance(fields, azimuth, count);
    return Some(field);
  }
}
