/** Framing of PTC 1.0 commands. A reply is recovered from a byte stream that arrives in
    chunks of any size: first an eight-byte header that starts with the identifier pair,
    then as many bytes as it announces. */
module PtcFraming {
  import opened Bytes
  import opened Integers
  import opened Options

  const IDENTIFIER0: byte := 0x47
  const IDENTIFIER1: byte := 0x74
  const HEADER_SIZE: nat := 8

  // ---------------------------------------------------------------- encoding

  function Header(cmd: byte, returnCode: byte, length: nat): (r: seq<byte>)
    requires length < U32
    ensures |r| == HEADER_SIZE
  {
    [IDENTIFIER0, IDENTIFIER1, cmd, returnCode] + Be32(length)
  }

  /** A size stored in a `uint32_t` */
  function ToUint32(size: nat): (r: nat)
    ensures r < U32 && r <= size && (size < U32 ==> r == size)
  {
    size % U32
  }

  /** A whole frame */
  function Frame(payload: seq<byte>, cmd: byte): seq<byte> {
    Header(cmd, 0, ToUint32(|payload|)) + payload
  }

  method PtcStreamEncode(payload: seq<byte>, cmd: byte) returns (out: array<byte>)
    ensures fresh(out) && out[..] == Frame(payload, cmd)
  {
    out := new byte[HEADER_SIZE + |payload|];
    out[0], out[1], out[2], out[3] := IDENTIFIER0, IDENTIFIER1, cmd, 0;
    var length := Be32(ToUint32(|payload|));
    out[4], out[5], out[6], out[7] := length[0], length[1], length[2], length[3];
    assert out[..HEADER_SIZE] == Header(cmd, 0, ToUint32(|payload|));
    for i := 0 to |payload|
      invariant out[..HEADER_SIZE + i] == Header(cmd, 0, ToUint32(|payload|)) + payload[..i]
    {
      out[HEADER_SIZE + i] := payload[i];
      assert out[..HEADER_SIZE + i + 1] == out[..HEADER_SIZE + i] + [payload[i]];
      assert payload[..i + 1] == payload[..i] + [payload[i]];
    }
    assert payload[..|payload|] == payload;
  }

  // ---------------------------------------------------------------- the connection

  /** Bytes still to come and how much each receive call will deliver at most; a plan entry
      that is not positive is a timeout or an error. */
  datatype Wire = Wire(bytes: seq<byte>, plan: seq<int>)

  /** What one receive call delivers; nothing when it fails. */
  function Chunk(w: Wire, limit: nat): (r: seq<byte>)
    ensures |r| <= limit && r <= w.bytes
  {
    if w.plan == [] || w.plan[0] <= 0 then [] else w.bytes[..Min(w.plan[0], Min(limit, |w.bytes|))]
  }

  function After(w: Wire, limit: nat): Wire {
    Wire(w.bytes[|Chunk(w, limit)|..], if w.plan == [] then [] else w.plan[1..])
  }

  class Channel {
    var wire: Wire

    constructor (wire: Wire)
      ensures this.wire == wire
    {
      this.wire := wire;
    }

    method Receive(buffer: array<byte>, at: nat, limit: nat) returns (n: int)
      requires at + limit <= buffer.Length
      modifies this, buffer
      ensures wire == After(old(wire), limit)
      ensures n == |Chunk(old(wire), limit)|
      ensures buffer[..at + n] == old(buffer[..at]) + Chunk(old(wire), limit)
      ensures at == 0 ==> buffer[..n] == Chunk(old(wire), limit)
    {
      var chunk := Chunk(wire, limit);
      wire := After(wire, limit);
      n := |chunk|;
      forall i | 0 <= i < n {
        buffer[at + i] := chunk[i];
      }
    }
  }

  // ---------------------------------------------------------------- the receive loops

  predicate PairAt(s: seq<byte>, k: nat) {
    k + 1 < |s| && s[k] == IDENTIFIER0 && s[k + 1] == IDENTIFIER1
  }

  /** The first place of the identifier pair at or after `from`. */
  function FindPair(chunk: seq<byte>, from: nat): (r: Option<nat>)
    ensures r.Some? ==> from <= r.value && PairAt(chunk, r.value)
    decreases |chunk| - from
  {
    if from + 1 >= |chunk| then None
    else if PairAt(chunk, from) then Some(from)
    else FindPair(chunk, from + 1)
  }

  /** No pair is passed over. */
  lemma {:induction false} FindPairIsFirst(chunk: seq<byte>, from: nat, k: nat)
    requires from <= k && PairAt(chunk, k)
    ensures FindPair(chunk, from).Some? && FindPair(chunk, from).value <= k
    decreases k - from
  {
    if from < k {
      FindPairIsFirst(chunk, from + 1, k);
    }
  }

  datatype Got = Got(bytes: seq<byte>, rest: Wire)

  /** The header so far, after one more chunk: nothing is kept until the pair has been seen
      inside one chunk. */
  function Keep(valid: seq<byte>, chunk: seq<byte>): (r: seq<byte>)
    ensures |r| <= |valid| + |chunk|
  {
    if valid != [] then valid + chunk
    else
      match FindPair(chunk, 0)
      case None => []
      case Some(i) => chunk[i..]
  }

  /** The header loop. */
  function ReceiveHeader(w: Wire, valid: seq<byte>): (r: Got)
    requires |valid| <= HEADER_SIZE
    ensures |r.bytes| <= HEADER_SIZE
    decreases |w.bytes|
  {
    var limit := HEADER_SIZE - |valid|;
    var chunk := Chunk(w, limit);
    if limit == 0 then Got(valid, w)
    else if chunk == [] then Got(valid, After(w, limit))
    else ReceiveHeader(After(w, limit), Keep(valid, chunk))
  }

  /** The body loop. */
  function ReceiveBody(w: Wire, got: seq<byte>, length: nat): (r: Got)
    requires |got| <= length
    ensures |r.bytes| <= length
    decreases |w.bytes|
  {
    var limit := length - |got|;
    var chunk := Chunk(w, limit);
    if limit == 0 then Got(got, w)
    else if chunk == [] then Got(got, After(w, limit))
    else ReceiveBody(After(w, limit), got + chunk, length)
  }

  /** A `uint32_t` length stored in an `int`. */
  function ToInt(v: nat): int {
    if v < 0x8000_0000 then v else v - U32
  }

  datatype Answer = Answer(ret: int, out: seq<byte>, rest: Wire)

  /** `QueryCommand` after a send that did, or did not, take all bytes. */
  function Query(sent: bool, w: Wire, cmd: byte, out: seq<byte>): Answer {
    if !sent then Answer(-1, out, w)
    else
      var header := ReceiveHeader(w, []);
      var h := header.bytes;
      if |h| < HEADER_SIZE || h[0] != IDENTIFIER0 || h[1] != IDENTIFIER1 || h[3] != 0 || h[2] != cmd
      then Answer(-1, out, header.rest)
      else
        var length := ToInt(FromBe32(h[4..]));
        if length <= 0 then Answer(0, out, header.rest)
        else
          var body := ReceiveBody(header.rest, [], length);
          if |body.bytes| < length then Answer(-1, out, body.rest) else Answer(0, body.bytes, body.rest)
  }

  /** `memcpy` between two buffers. */
  method Copy(to: array<byte>, at: nat, from: array<byte>, start: nat, n: nat)
    requires to != from && at + n <= to.Length && start + n <= from.Length
    modifies to
    ensures to[..at + n] == old(to[..at]) + from[start..start + n]
  {
    forall i | 0 <= i < n {
      to[at + i] := from[start + i];
    }
  }

  /** The search for the identifier pair in what one receive call delivered. */
  method SearchPair(buffer: array<byte>, n: nat) returns (r: Option<nat>)
    requires n <= buffer.Length
    ensures r == FindPair(buffer[..n], 0)
  {
    var i := 0;
    while i < n - 1
      invariant 0 <= i <= n
      invariant FindPair(buffer[..n], i) == FindPair(buffer[..n], 0)
    {
      if buffer[i] == IDENTIFIER0 && buffer[i + 1] == IDENTIFIER1 {
        return Some(i);
      }
      i := i + 1;
    }
    return None;
  }

  /** Takes `n` fresh bytes into a header of which `valid` bytes are there already. */
  method KeepInto(header: array<byte>, valid: nat, buffer: array<byte>, n: nat) returns (more: nat)
    requires header != buffer && n <= buffer.Length && valid + n <= header.Length
    modifies header
    ensures more <= header.Length && header[..more] == Keep(old(header[..valid]), buffer[..n])
  {
    more := valid;
    if valid == 0 {
      var pair := SearchPair(buffer, n);
      if pair.Some? {
        more := n - pair.value;
        Copy(header, 0, buffer, pair.value, more);
        assert header[..more] == buffer[..n][pair.value..];
      }
    } else {
      Copy(header, valid, buffer, 0, n);
      more := valid + n;
    }
  }

  /** `left` is what is still missing of the header. */
  method ReceiveHeaderInto(channel: Channel, header: array<byte>) returns (left: int)
    requires header.Length == HEADER_SIZE
    modifies channel, header
    ensures var r := ReceiveHeader(old(channel.wire), []);
            && channel.wire == r.rest && left == HEADER_SIZE - |r.bytes|
            && header[..|r.bytes|] == r.bytes
  {
    var buffer := new byte[HEADER_SIZE];
    left := HEADER_SIZE;
    var valid := 0;
    while left > 0
      invariant fresh(buffer) && buffer != header
      invariant 0 <= valid <= HEADER_SIZE && left == HEADER_SIZE - valid
      invariant ReceiveHeader(channel.wire, header[..valid]) == ReceiveHeader(old(channel.wire), [])
      decreases |channel.wire.bytes|
    {
      var n := channel.Receive(buffer, 0, left);
      if n <= 0 {
        break;
      }
      valid := KeepInto(header, valid, buffer, n);
      left := HEADER_SIZE - valid;
    }
  }

  lemma BodyUnfold(w: Wire, got: seq<byte>, length: nat)
    requires |got| < length
    ensures ReceiveBody(w, got, length)
            == if Chunk(w, length - |got|) == [] then Got(got, After(w, length - |got|))
               else ReceiveBody(After(w, length - |got|), got + Chunk(w, length - |got|), length)
  {
  }

  method ReceiveBodyInto(channel: Channel, body: array<byte>) returns (left: int)
    modifies channel, body
    ensures var r := ReceiveBody(old(channel.wire), [], body.Length);
            && channel.wire == r.rest && left == body.Length - |r.bytes|
            && body[..|r.bytes|] == r.bytes
  {
    left := body.Length;
    var at := 0;
    ghost var w: Wire, got: seq<byte> := channel.wire, [];
    ghost var all := ReceiveBody(w, got, body.Length);
    while left > 0
      invariant 0 <= at <= body.Length && left == body.Length - at == body.Length - |got|
      invariant channel.wire == w && body[..at] == got
      invariant ReceiveBody(w, got, body.Length) == all
      decreases |w.bytes|
    {
      BodyUnfold(w, got, body.Length);
      got := got + Chunk(w, left);
      w := After(w, left);
      var n := channel.Receive(body, at, left);
      if n <= 0 {
        break;
      }
      left := left - n;
      at := at + n;
    }
  }

  /** The body of `QueryCommand`; `sent` tells whether the request went out. */
  method QueryCommand(channel: Channel, sent: bool, cmd: byte, previous: seq<byte>)
    returns (ret: int, out: seq<byte>)
    modifies channel
    ensures Answer(ret, out, channel.wire) == Query(sent, old(channel.wire), cmd, previous)
  {
    ret, out := 0, previous;
    if !sent {
      return -1, out;
    }
    var header := new byte[HEADER_SIZE];
    var length := 0;
    var left := ReceiveHeaderInto(channel, header);
    if left > 0 {
      return -1, out;
    }
    assert header[..HEADER_SIZE] == header[..];
    if header[0] != IDENTIFIER0 || header[1] != IDENTIFIER1 || header[3] != 0 || header[2] != cmd {
      return -1, out;
    }
    length := ToInt(FromBe32(header[4..]));
    assert header[..][4..] == header[4..];
    if length > 0 {
      var body := new byte[length];
      left := ReceiveBodyInto(channel, body);
      if left > 0 {
        ret := -1;
      } else {
        assert body[..length] == body[..];
        out := body[..];
      }
    }
  }

  // ---------------------------------------------------------------- what the loops deliver

  predicate StartsWithPair(h: seq<byte>) {
    |h| >= 2 && h[0] == IDENTIFIER0 && h[1] == IDENTIFIER1
  }

  predicate Suffix(a: seq<byte>, b: seq<byte>) {
    |a| <= |b| && b[|b| - |a|..] == a
  }

  lemma WireSplit(w: Wire, limit: nat)
    ensures w.bytes == Chunk(w, limit) + After(w, limit).bytes
  {
  }

  lemma SuffixTransitive(a: seq<byte>, b: seq<byte>, c: seq<byte>)
    requires Suffix(a, b) && Suffix(b, c)
    ensures Suffix(a, c)
  {
    assert c[|c| - |a|..] == c[|c| - |b|..][|b| - |a|..];
  }

  lemma KeepIsSuffix(kept: seq<byte>, chunk: seq<byte>)
    requires kept == [] || StartsWithPair(kept)
    ensures Suffix(Keep(kept, chunk), kept + chunk)
    ensures Keep(kept, chunk) == [] || StartsWithPair(Keep(kept, chunk))
  {
    if kept == [] {
      assert kept + chunk == chunk;
    } else {
      assert (kept + chunk)[0..] == kept + chunk;
    }
  }

  /** However the stream is cut, what the header loop keeps is contiguous, directly followed by
      what is left on the wire, and starts with the identifier pair. `kept` is the header so far. */
  lemma {:induction false} HeaderContiguous(w: Wire, kept: seq<byte>)
    requires |kept| <= HEADER_SIZE && (kept == [] || StartsWithPair(kept))
    ensures var r := ReceiveHeader(w, kept);
            && (r.bytes == [] || StartsWithPair(r.bytes))
            && Suffix(r.bytes + r.rest.bytes, kept + w.bytes)
    decreases |w.bytes|
  {
    var limit := HEADER_SIZE - |kept|;
    var chunk, next := Chunk(w, limit), After(w, limit);
    if limit > 0 && chunk != [] {
      var more := Keep(kept, chunk);
      var r := ReceiveHeader(next, more);
      KeepIsSuffix(kept, chunk);
      HeaderContiguous(next, more);
      WireSplit(w, limit);
      Associative(kept, chunk, next.bytes);
      SuffixExtend(more, kept + chunk, next.bytes);
      SuffixTransitive(r.bytes + r.rest.bytes, more + next.bytes, kept + w.bytes);
    }
  }

  lemma SuffixExtend(a: seq<byte>, b: seq<byte>, c: seq<byte>)
    requires Suffix(a, b)
    ensures Suffix(a + c, b + c)
  {
    var d := |b| - |a|;
    assert (b + c)[d..] == b[d..] + c;
  }

  lemma {:induction false} BodyContiguous(w: Wire, got: seq<byte>, length: nat)
    requires |got| <= length
    ensures var r := ReceiveBody(w, got, length);
            got <= r.bytes && r.bytes + r.rest.bytes == got + w.bytes
    decreases |w.bytes|
  {
    var limit := length - |got|;
    var chunk := Chunk(w, limit);
    if limit > 0 && chunk != [] {
      BodyContiguous(After(w, limit), got + chunk, length);
      WireSplit(w, limit);
      Associative(got, chunk, After(w, limit).bytes);
    }
  }

  /** The announced length lies in (0, 2^31): only then is there a body to receive. */
  predicate HasBody(length: nat) { 0 < length < 0x8000_0000 }

  /** A header announcing `length`, and the body behind it, have been taken off the stream. */
  predicate Taken(w: Wire, cmd: byte, length: nat, out: seq<byte>, a: Answer)
    requires length < U32
  {
    if HasBody(length) then |a.out| == length && Suffix(Header(cmd, 0, length) + (a.out + a.rest.bytes), w.bytes)
    else a.out == out && Suffix(Header(cmd, 0, length) + a.rest.bytes, w.bytes)
  }

  lemma HeaderRebuilt(h: seq<byte>)
    requires |h| == HEADER_SIZE && StartsWithPair(h)
    ensures h == Header(h[2], h[3], FromBe32(h[4..]))
  {
    FromBe32RoundTrip(h[4..]);
    assert h == [h[0], h[1], h[2], h[3]] + h[4..];
  }

  /** The header of a successful query, rebuilt from its fields. */
  lemma HeaderTaken(w: Wire, cmd: byte, out: seq<byte>)
    requires Query(true, w, cmd, out).ret == 0
    ensures var r := ReceiveHeader(w, []);
            && |r.bytes| == HEADER_SIZE
            && r.bytes == Header(cmd, 0, FromBe32(r.bytes[4..]))
            && Suffix(r.bytes + r.rest.bytes, w.bytes)
  {
    HeaderContiguous(w, []);
    assert [] + w.bytes == w.bytes;
    HeaderRebuilt(ReceiveHeader(w, []).bytes);
  }

  lemma BodyTaken(w: Wire, cmd: byte, out: seq<byte>)
    requires Query(true, w, cmd, out).ret == 0 && HasBody(FromBe32(ReceiveHeader(w, []).bytes[4..]))
    ensures var a := Query(true, w, cmd, out);
            var r := ReceiveHeader(w, []);
            |a.out| == FromBe32(r.bytes[4..]) && a.out + a.rest.bytes == r.rest.bytes
  {
    var r := ReceiveHeader(w, []);
    BodyContiguous(r.rest, [], FromBe32(r.bytes[4..]));
    assert [] + r.rest.bytes == r.rest.bytes;
  }

  /** Success means that the stream holds a header for this command, and behind it exactly the
      bytes returned; everything up to there, and nothing more, has been read. A length of 2^31
      or more turns negative and succeeds without a body. */
  lemma QuerySound(sent: bool, w: Wire, cmd: byte, out: seq<byte>)
    requires Query(sent, w, cmd, out).ret == 0
    ensures sent && exists length: nat | length < U32 :: Taken(w, cmd, length, out, Query(sent, w, cmd, out))
  {
    HeaderTaken(w, cmd, out);
    var length := FromBe32(ReceiveHeader(w, []).bytes[4..]);
    if HasBody(length) {
      BodyTaken(w, cmd, out);
    }
    assert Taken(w, cmd, length, out, Query(sent, w, cmd, out));
  }

  /** On the wire a frame begins with 0x47 and 0x74, the command, the return code 0 and the length, most
      significant byte first; the payload follows. */
  lemma FrameLayout(payload: seq<byte>, cmd: byte)
    requires |payload| < U32
    ensures var f := Frame(payload, cmd);
            && |f| == 8 + |payload| && f[0] == 0x47 && f[1] == 0x74 && f[2] == cmd && f[3] == 0
            && f[4] as nat == |payload| / 0x100_0000 && f[5] as nat == |payload| / 0x1_0000 % 256
            && f[6] as nat == |payload| / 0x100 % 256 && f[7] as nat == |payload| % 256 && f[8..] == payload
  {
    var h := Header(cmd, 0, |payload|);
    ByteOrder(|payload|);
    assert h == [IDENTIFIER0, IDENTIFIER1, cmd, 0] + Be32(|payload|) && (h + payload)[8..] == payload;
    assert forall i :: 0 <= i < 8 ==> (h + payload)[i] == h[i];
  }

  /** Failure leaves the output as it was; and if the request was not sent nothing is read. */
  lemma FailureKeepsOutput(sent: bool, w: Wire, cmd: byte, out: seq<byte>)
    ensures var a := Query(sent, w, cmd, out);
            && (a.ret == 0 || (a.ret == -1 && a.out == out))
            && (!sent ==> a == Answer(-1, out, w))
  {
  }

  /** No receive call fails. */
  predicate Steady(plan: seq<int>) {
    forall i :: 0 <= i < |plan| ==> plan[i] > 0
  }

  /** Once the pair has been seen, the rest of the header follows whatever the chunks. */
  lemma {:induction false} HeaderCompletes(w: Wire, kept: seq<byte>)
    requires 0 < |kept| <= HEADER_SIZE && Steady(w.plan)
    requires |w.plan| >= HEADER_SIZE - |kept| && |w.bytes| >= HEADER_SIZE - |kept|
    ensures var r := ReceiveHeader(w, kept);
            && r.bytes == kept + w.bytes[..HEADER_SIZE - |kept|]
            && r.rest.bytes == w.bytes[HEADER_SIZE - |kept|..]
            && Steady(r.rest.plan) && |r.rest.plan| >= |w.plan| - (HEADER_SIZE - |kept|)
    decreases |w.bytes|
  {
    var limit := HEADER_SIZE - |kept|;
    if limit > 0 {
      var chunk, next := Chunk(w, limit), After(w, limit);
      HeaderCompletes(next, kept + chunk);
      WireSplit(w, limit);
      TakeAcross(chunk, next.bytes, limit);
      Associative(kept, chunk, next.bytes[..limit - |chunk|]);
    } else {
      assert kept + w.bytes[..0] == kept;
    }
  }

  lemma {:induction false} BodyCompletes(w: Wire, got: seq<byte>, length: nat)
    requires |got| <= length && Steady(w.plan)
    requires |w.plan| >= length - |got| && |w.bytes| >= length - |got|
    ensures var r := ReceiveBody(w, got, length);
            r.bytes == got + w.bytes[..length - |got|] && r.rest.bytes == w.bytes[length - |got|..]
    decreases |w.bytes|
  {
    var limit := length - |got|;
    if limit > 0 {
      var chunk, next := Chunk(w, limit), After(w, limit);
      BodyCompletes(next, got + chunk, length);
      WireSplit(w, limit);
      TakeAcross(chunk, next.bytes, limit);
      Associative(got, chunk, next.bytes[..limit - |chunk|]);
    } else {
      assert got + w.bytes[..0] == got;
    }
  }

  /** The first identifier pair of the stream is at `n`. */
  predicate FirstPair(bytes: seq<byte>, n: nat) {
    PairAt(bytes, n) && forall k :: 0 <= k < n ==> !PairAt(bytes, k)
  }

  /** Behind `n` bytes some piece ends between the two bytes of the identifier; while the pair has not
      been seen a piece has at most eight bytes. */
  predicate Cut(plan: seq<int>, n: nat)
    decreases |plan|
  {
    if plan == [] || plan[0] <= 0 then false
    else
      var size := Min(plan[0], HEADER_SIZE);
      size == n + 1 || (size <= n && Cut(plan[1..], n - size))
  }

  lemma FirstPairLater(bytes: seq<byte>, n: nat, size: nat)
    requires FirstPair(bytes, n) && size <= n
    ensures FirstPair(bytes[size..], n - size)
  {
    forall k | 0 <= k < n - size
      ensures !PairAt(bytes[size..], k)
    {
      assert !PairAt(bytes, size + k);
    }
  }

  /** A piece before the pair, with or without its first byte, is dropped. */
  lemma PairNotSeen(bytes: seq<byte>, n: nat, size: nat)
    requires FirstPair(bytes, n) && size <= n + 1
    ensures Keep([], bytes[..size]) == []
  {
    var found := FindPair(bytes[..size], 0);
    assert found.Some? ==> PairAt(bytes, found.value);
  }

  /** In a piece with both bytes the pair is found, and what lies before it is dropped. */
  lemma PairSeen(bytes: seq<byte>, n: nat, size: nat)
    requires FirstPair(bytes, n) && n + 2 <= size <= |bytes|
    ensures Keep([], bytes[..size]) == bytes[n..size]
  {
    assert PairAt(bytes[..size], n);
    FindPairIsFirst(bytes[..size], 0, n);
    var found := FindPair(bytes[..size], 0);
    assert PairAt(bytes, found.value);
  }

  /** The eight bytes at `n` have been taken, and nothing behind them. */
  predicate HeaderAt(bytes: seq<byte>, n: nat, r: Got)
    requires n + HEADER_SIZE <= |bytes|
  {
    r.bytes == bytes[n..n + HEADER_SIZE] && r.rest.bytes == bytes[n + HEADER_SIZE..]
  }

  /** The stream behind its first `size` bytes, which came in one piece. */
  function Later(w: Wire, size: nat): Wire
    requires size <= |w.bytes| && w.plan != []
  {
    Wire(w.bytes[size..], w.plan[1..])
  }

  lemma JunkDropped(w: Wire, n: nat, size: nat)
    requires FirstPair(w.bytes, n) && n + HEADER_SIZE <= |w.bytes| && w.plan != []
    requires 0 < size == Min(w.plan[0], HEADER_SIZE) <= n + 1
    ensures ReceiveHeader(w, []) == ReceiveHeader(Later(w, size), [])
  {
    PairNotSeen(w.bytes, n, size);
  }

  lemma HeaderNoLonger(w: Wire)
    ensures |ReceiveHeader(w, []).bytes| + |ReceiveHeader(w, []).rest.bytes| <= |w.bytes|
  {
    HeaderContiguous(w, []);
  }

  lemma HeaderCut(w: Wire, n: nat)
    requires FirstPair(w.bytes, n) && n + HEADER_SIZE <= |w.bytes| && w.plan != []
    requires Min(w.plan[0], HEADER_SIZE) == n + 1
    ensures !HeaderAt(w.bytes, n, ReceiveHeader(w, []))
  {
    JunkDropped(w, n, n + 1);
    HeaderNoLonger(Later(w, n + 1));
  }

  lemma TwoSlices(bytes: seq<byte>, from: nat, middle: nat, to: nat)
    requires from <= middle <= to <= |bytes|
    ensures bytes[from..middle] + bytes[middle..][..to - middle] == bytes[from..to]
    ensures bytes[middle..][to - middle..] == bytes[to..]
  {
  }

  lemma HeaderKept(w: Wire, n: nat, size: nat)
    requires FirstPair(w.bytes, n) && n + HEADER_SIZE <= |w.bytes|
    requires Steady(w.plan) && |w.plan| >= HEADER_SIZE && n + 2 <= size == Min(w.plan[0], HEADER_SIZE)
    ensures var r := ReceiveHeader(w, []);
            HeaderAt(w.bytes, n, r) && Steady(r.rest.plan) && |r.rest.plan| >= |w.plan| - HEADER_SIZE
  {
    PairSeen(w.bytes, n, size);
    HeaderCompletes(Later(w, size), w.bytes[n..size]);
    TwoSlices(w.bytes, n, size, n + HEADER_SIZE);
  }

  lemma HeaderAtLater(bytes: seq<byte>, n: nat, size: nat, r: Got)
    requires size <= n && n + HEADER_SIZE <= |bytes|
    ensures HeaderAt(bytes, n, r) <==> HeaderAt(bytes[size..], n - size, r)
  {
    assert bytes[size..][n - size..n - size + HEADER_SIZE] == bytes[n..n + HEADER_SIZE];
    assert bytes[size..][n - size + HEADER_SIZE..] == bytes[n + HEADER_SIZE..];
  }

  /** The first frame of a stream has its header recovered exactly when no piece ends between the two
      bytes of its identifier. */
  lemma {:induction false} RecoveredExactly(w: Wire, n: nat)
    requires FirstPair(w.bytes, n) && n + HEADER_SIZE <= |w.bytes|
    requires Steady(w.plan) && |w.plan| >= n + HEADER_SIZE
    ensures var r := ReceiveHeader(w, []);
            && (HeaderAt(w.bytes, n, r) <==> !Cut(w.plan, n))
            && (!Cut(w.plan, n) ==> Steady(r.rest.plan) && |r.rest.plan| >= |w.plan| - n - HEADER_SIZE)
    decreases n
  {
    var size := Min(w.plan[0], HEADER_SIZE);
    if size <= n {
      JunkDropped(w, n, size);
      FirstPairLater(w.bytes, n, size);
      RecoveredExactly(Later(w, size), n - size);
      HeaderAtLater(w.bytes, n, size, ReceiveHeader(w, []));
    } else if size == n + 1 {
      HeaderCut(w, n);
    } else {
      HeaderKept(w, n, size);
    }
  }

  lemma HeaderAnnounces(cmd: byte, length: nat)
    requires length < U32
    ensures var h := Header(cmd, 0, length);
            StartsWithPair(h) && h[2] == cmd && h[3] == 0 && FromBe32(h[4..]) == length
  {
    var h := Header(cmd, 0, length);
    assert h[4..] == Be32(length);
    Le32RoundTrip(length);
  }

  /** From `n` on the stream is a frame and what follows it. */
  predicate FrameAt(bytes: seq<byte>, n: nat, payload: seq<byte>, cmd: byte, more: seq<byte>) {
    n <= |bytes| && bytes[n..] == Frame(payload, cmd) + more
  }

  lemma FrameParts(bytes: seq<byte>, n: nat, payload: seq<byte>, cmd: byte, more: seq<byte>)
    requires FrameAt(bytes, n, payload, cmd, more)
    ensures n + HEADER_SIZE <= |bytes|
    ensures bytes[n..n + HEADER_SIZE] == Header(cmd, 0, ToUint32(|payload|))
    ensures bytes[n + HEADER_SIZE..] == payload + more
  {
    var h := Header(cmd, 0, ToUint32(|payload|));
    Associative(h, payload, more);
    assert bytes[n..n + HEADER_SIZE] == bytes[n..][..HEADER_SIZE] == h;
    assert bytes[n + HEADER_SIZE..] == bytes[n..][HEADER_SIZE..] == payload + more;
  }

  lemma TakeWithin(a: seq<byte>, b: seq<byte>, n: nat)
    requires n <= |a|
    ensures (a + b)[..n] == a[..n] && (a + b)[n..] == a[n..] + b
  {
  }

  lemma BodyArrives(w: Wire, payload: seq<byte>, more: seq<byte>, n: nat)
    requires w.bytes == payload + more && n <= |payload| <= |w.plan| && Steady(w.plan)
    ensures ReceiveBody(w, [], n).bytes == payload[..n]
    ensures ReceiveBody(w, [], n).rest.bytes == payload[n..] + more
  {
    BodyCompletes(w, [], n);
    TakeWithin(payload, more, n);
    assert [] + payload[..n] == payload[..n];
  }

  /** As many bytes as announced, if that is the length of a body at all; else none. */
  predicate Decided(a: Answer, payload: seq<byte>, more: seq<byte>, out: seq<byte>) {
    var length := ToUint32(|payload|);
    if HasBody(length) then a.out == payload[..length] && a.rest.bytes == payload[length..] + more
    else a.out == out && a.rest.bytes == payload + more
  }

  /** Where a frame's header is recovered, its length field alone decides what comes back. */
  lemma LengthDecides(w: Wire, n: nat, payload: seq<byte>, cmd: byte, more: seq<byte>, out: seq<byte>)
    requires n + HEADER_SIZE <= |w.bytes| && HeaderAt(w.bytes, n, ReceiveHeader(w, []))
    requires FrameAt(w.bytes, n, payload, cmd, more)
    requires var plan := ReceiveHeader(w, []).rest.plan; Steady(plan) && |plan| >= |payload|
    ensures Query(true, w, cmd, out).ret == 0 && Decided(Query(true, w, cmd, out), payload, more, out)
  {
    var length := ToUint32(|payload|);
    FrameParts(w.bytes, n, payload, cmd, more);
    HeaderAnnounces(cmd, length);
    if HasBody(length) {
      BodyArrives(ReceiveHeader(w, []).rest, payload, more, length);
    }
  }

  /** What a query gives for a reply made by the encoder. */
  predicate Returned(a: Answer, payload: seq<byte>, more: seq<byte>, out: seq<byte>) {
    a.out == (if payload == [] then out else payload) && a.rest.bytes == more
  }

  lemma ReturnedIfShort(a: Answer, payload: seq<byte>, more: seq<byte>, out: seq<byte>)
    requires Decided(a, payload, more, out)
    ensures Returned(a, payload, more, out) <==> |payload| < 0x8000_0000
  {
    if payload == [] {
      assert payload + more == more;
    } else if |payload| < 0x8000_0000 {
      assert payload[..|payload|] == payload && payload[|payload|..] + more == more;
    } else {
      assert |a.rest.bytes| > |more|;
    }
  }

  /** A reply made by the encoder, of any length, the first in the stream that has an identifier pair,
      and cut in any way that leaves the two bytes of its identifier together: the query succeeds, and
      the payload comes back whole, with what follows it left on the stream, exactly when it is shorter
      than 2^31 bytes. From there to 2^32 the length turns negative: the query succeeds without a body,
      and leaves the payload on the stream. */
  lemma RoundTrip(w: Wire, n: nat, payload: seq<byte>, cmd: byte, more: seq<byte>, out: seq<byte>)
    requires FrameAt(w.bytes, n, payload, cmd, more) && FirstPair(w.bytes, n) && !Cut(w.plan, n)
    requires Steady(w.plan) && |w.plan| >= n + HEADER_SIZE + |payload|
    ensures var a := Query(true, w, cmd, out);
            && a.ret == 0
            && (Returned(a, payload, more, out) <==> |payload| < 0x8000_0000)
            && (0x8000_0000 <= |payload| < U32 ==> a.out == out && a.rest.bytes == payload + more)
  {
    FrameParts(w.bytes, n, payload, cmd, more);
    RecoveredExactly(w, n);
    LengthDecides(w, n, payload, cmd, more, out);
    ReturnedIfShort(Query(true, w, cmd, out), payload, more, out);
  }
}
