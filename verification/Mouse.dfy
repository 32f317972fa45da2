/** The PS/2 mouse: motion cut into packets, and the queue the guest reads them
    from. */
module Mouse {
  import opened Sequences

  type Byte = b: int | 0 <= b < 256

  const QUEUE_SIZE := 256
  const REMOTE_MARGIN := 16

  // --------------------------------------------------------------------- packets

  /** Motion still to be reported; `z` is the wheel. */
  datatype Motion = Motion(x: int, y: int, z: int)

  const STILL := Motion(0, 0, 0)

  function Add(a: Motion, b: Motion): Motion {
    Motion(a.x + b.x, a.y + b.y, a.z + b.z)
  }

  function Clamp(v: int, limit: nat): int {
    if v > limit then limit else if v < 0 - limit then 0 - limit else v
  }

  /** The clamping as the packetiser does it. */
  method Limit(v: int, limit: nat) returns (r: int)
    ensures r == Clamp(v, limit)
  {
    r := v;
    if r > limit {
      r := limit;
    } else if r < 0 - limit {
      r := 0 - limit;
    }
  }

  function Low(v: int, modulus: nat): int
    requires modulus > 0
  {
    if v < 0 then v + modulus else v
  }

  /** Types 3 and 4 have a wheel and a fourth byte. */
  predicate Wheel(kind: Byte) {
    kind == 3 || kind == 4
  }

  function Size(kind: Byte): nat {
    if Wheel(kind) then 4 else 3
  }

  /** The part of the motion one packet takes. */
  function Part(kind: Byte, m: Motion): Motion {
    Motion(Clamp(m.x, 127), Clamp(m.y, 127), if kind == 3 then Clamp(m.z, 127) else if kind == 4 then Clamp(m.z, 7) else m.z)
  }

  function Left(kind: Byte, m: Motion): Motion {
    var p := Part(kind, m);
    Motion(m.x - p.x, m.y - p.y, m.z - p.z)
  }

  function WheelBytes(kind: Byte, z: int, buttons: Byte): seq<Byte>
    requires (Wheel(kind) ==> -127 <= z <= 127) && (kind == 4 ==> -7 <= z <= 7)
  {
    if kind == 3 then [Low(z, 256)] else if kind == 4 then [Low(z, 16) + buttons / 8 % 4 * 16] else []
  }

  /** Byte `i` of a packet: signs and buttons, the two axes, the wheel. */
  function PacketByte(kind: Byte, m: Motion, buttons: Byte, i: nat): Byte {
    var p := Part(kind, m);
    if i == 0 then 8 + (if p.x < 0 then 16 else 0) + (if p.y < 0 then 32 else 0) + buttons % 8
    else if i == 1 then Low(p.x, 256)
    else if i == 2 then Low(p.y, 256)
    else if kind == 3 then Low(p.z, 256)
    else if kind == 4 then Low(p.z, 16) + buttons / 8 % 4 * 16
    else 0
  }

  function PacketFrom(kind: Byte, m: Motion, buttons: Byte, i: nat): (bytes: seq<Byte>)
    requires i <= Size(kind)
    ensures |bytes| == Size(kind) - i
    decreases Size(kind) - i
  {
    if i == Size(kind) then [] else [PacketByte(kind, m, buttons, i)] + PacketFrom(kind, m, buttons, i + 1)
  }

  function Packet(kind: Byte, m: Motion, buttons: Byte): (bytes: seq<Byte>)
    ensures |bytes| == Size(kind)
  {
    PacketFrom(kind, m, buttons, 0)
  }

  lemma {:induction false} PacketAt(kind: Byte, m: Motion, buttons: Byte, i: nat, k: nat)
    requires i + k < Size(kind)
    ensures PacketFrom(kind, m, buttons, i)[k] == PacketByte(kind, m, buttons, i + k)
    decreases k
  {
    if k > 0 {
      PacketAt(kind, m, buttons, i + 1, k - 1);
    }
  }

  lemma PacketBytes(kind: Byte, m: Motion, buttons: Byte)
    ensures
      var p := Packet(kind, m, buttons);
      && p[0] == PacketByte(kind, m, buttons, 0) && p[1] == PacketByte(kind, m, buttons, 1) && p[2] == PacketByte(kind, m, buttons, 2)
      && (Wheel(kind) ==> p[3] == PacketByte(kind, m, buttons, 3))
  {
    PacketAt(kind, m, buttons, 0, 0);
    PacketAt(kind, m, buttons, 0, 1);
    PacketAt(kind, m, buttons, 0, 2);
    if Wheel(kind) {
      PacketAt(kind, m, buttons, 0, 3);
    }
  }

  /** A packet as it crosses the wire: the first byte has bit 3 set, the buttons in
      bits 0 to 2 and the signs in bits 4 and 5; then come the two axes, at most 127
      either way, and the wheel, at most 127 or 7, in two's complement; type 4 has
      two more buttons above it. What is over stays for the next packet. */
  lemma PacketOnTheWire(kind: Byte, m: Motion, buttons: Byte)
    ensures
      var p, left := Packet(kind, m, buttons), Left(kind, m);
      var x := if m.x > 127 then 127 else if m.x < -127 then -127 else m.x;
      var y := if m.y > 127 then 127 else if m.y < -127 then -127 else m.y;
      var most := if kind == 3 then 127 else 7;
      var z := if m.z > most then most else if m.z < -most then -most else m.z;
      && |p| == (if kind == 3 || kind == 4 then 4 else 3)
      && p[0] % 8 == buttons % 8 && p[0] / 8 % 2 == 1 && p[0] / 64 == 0
      && (p[0] / 16 % 2 == 1 <==> x < 0) && (p[0] / 32 % 2 == 1 <==> y < 0)
      && p[1] == x % 256 && p[2] == y % 256
      && (kind == 3 ==> p[3] == z % 256) && (kind == 4 ==> p[3] % 16 == z % 16 && p[3] / 16 == buttons / 8 % 4)
      && left.x == m.x - x && left.y == m.y - y && left.z == (if kind == 3 || kind == 4 then m.z - z else 0)
  {
    PacketBytes(kind, m, buttons);
    var p := Part(kind, m);
    var sx, sy, low := if p.x < 0 then 1 else 0, if p.y < 0 then 1 else 0, buttons % 8;
    var first := PacketByte(kind, m, buttons, 0);
    assert first == 16 * (sx + 2 * sy) + (8 + low);
    assert first / 16 == sx + 2 * sy && first / 32 == sy && first / 8 == 2 * (sx + 2 * sy) + 1 && first % 8 == low;
  }

  /** Five to the right and three down with the left button held. */
  lemma PacketExample()
    ensures Packet(0, Motion(5, -3, 0), 1) == [0x29, 5, 0xfd]
  {
    PacketBytes(0, Motion(5, -3, 0), 1);
  }

  function Abs(v: int): nat {
    if v < 0 then 0 - v else v
  }

  function Distance(m: Motion): nat {
    Abs(m.x) + Abs(m.y) + Abs(m.z)
  }

  lemma AxisMoves(v: int, limit: nat)
    requires limit > 0
    ensures Abs(v - Clamp(v, limit)) == if Abs(v) > limit then Abs(v) - limit else 0
  {
  }

  lemma WheelMoves(kind: Byte, m: Motion)
    ensures Abs(Left(kind, m).z) <= Abs(m.z) && (m.z != 0 ==> Abs(Left(kind, m).z) < Abs(m.z))
  {
  }

  /** Every packet with motion in it brings the end nearer. */
  lemma PacketMoves(kind: Byte, m: Motion)
    ensures m != STILL ==> Distance(Left(kind, m)) < Distance(m)
    ensures m == STILL ==> Left(kind, m) == STILL
  {
    var left := Left(kind, m);
    var x, y, z, x', y', z' := Abs(m.x), Abs(m.y), Abs(m.z), Abs(left.x), Abs(left.y), Abs(left.z);
    AxisMoves(m.x, 127);
    AxisMoves(m.y, 127);
    WheelMoves(kind, m);
    assert x' <= x && (x > 0 ==> x' < x);
    assert y' <= y && (y > 0 ==> y' < y);
  }

  /** The packets for a motion: at least one. */
  function Packets(kind: Byte, m: Motion, buttons: Byte): seq<Byte>
    decreases Distance(m)
  {
    PacketMoves(kind, m);
    Packet(kind, m, buttons) + if Left(kind, m) == STILL then [] else Packets(kind, Left(kind, m), buttons)
  }

  // -------------------------------------------------------------------- decoding

  function Signed(v: int, sign: bool, modulus: nat): int {
    if sign then v - modulus else v
  }

  /** What a guest makes of one packet. */
  function DecodeOne(kind: Byte, p: seq<Byte>): Motion
    requires |p| >= Size(kind)
  {
    Motion(Signed(p[1], p[0] / 16 % 2 == 1, 256), Signed(p[2], p[0] / 32 % 2 == 1, 256),
           if kind == 3 then Signed(p[3], p[3] >= 128, 256) else if kind == 4 then Signed(p[3] % 16, p[3] % 16 >= 8, 16) else 0)
  }

  /** And of a stream of them: the motions add up. */
  function Decode(kind: Byte, bytes: seq<Byte>): Motion {
    if |bytes| < Size(kind) then STILL else Add(DecodeOne(kind, bytes), Decode(kind, bytes[Size(kind)..]))
  }

  predicate Whole(kind: Byte, bytes: seq<Byte>) {
    bytes == [] || (|bytes| >= Size(kind) && Whole(kind, bytes[Size(kind)..]))
  }

  /** The wheel counts for the types that have one. */
  function Counted(kind: Byte, m: Motion): Motion {
    if Wheel(kind) then m else m.(z := 0)
  }

  lemma PacketDecodes(kind: Byte, m: Motion, buttons: Byte, rest: seq<Byte>)
    ensures DecodeOne(kind, Packet(kind, m, buttons) + rest) == Counted(kind, Part(kind, m))
  {
    var p, bytes := Part(kind, m), Packet(kind, m, buttons);
    PacketBytes(kind, m, buttons);
    var x, y, low := if p.x < 0 then 1 else 0, if p.y < 0 then 1 else 0, buttons % 8;
    assert bytes[0] == 16 * (x + 2 * y) + (8 + low);
    assert bytes[0] / 16 == x + 2 * y;
    assert bytes[0] / 32 == y;
    assert kind == 4 ==> bytes[3] == Low(p.z, 16) + 16 * (buttons / 8 % 4);
  }

  lemma AddAssociates(a: Motion, b: Motion, c: Motion)
    ensures Add(Add(a, b), c) == Add(a, Add(b, c)) && Add(STILL, c) == c
  {
  }

  lemma DecodeFirst(kind: Byte, a: seq<Byte>, b: seq<Byte>)
    requires |a| >= Size(kind)
    ensures DecodeOne(kind, a + b) == DecodeOne(kind, a)
  {
  }

  lemma PartAndLeft(kind: Byte, m: Motion)
    ensures Add(Counted(kind, Part(kind, m)), Counted(kind, Left(kind, m))) == Counted(kind, m)
  {
  }

  lemma DecodePacketFirst(kind: Byte, m: Motion, buttons: Byte, rest: seq<Byte>)
    ensures
      Decode(kind, Packet(kind, m, buttons) + rest) == Add(Counted(kind, Part(kind, m)), Decode(kind, rest))
    ensures Whole(kind, rest) ==> Whole(kind, Packet(kind, m, buttons) + rest)
  {
    PacketDecodes(kind, m, buttons, rest);
    TailOfJoined(Packet(kind, m, buttons), rest, Size(kind));
    NothingBefore(Packet(kind, m, buttons)[Size(kind)..], rest);
  }

  /** Decoding the packets gives the motion back. */
  lemma {:induction false} PacketsDecode(kind: Byte, m: Motion, buttons: Byte)
    ensures Decode(kind, Packets(kind, m, buttons)) == Counted(kind, m)
    ensures Whole(kind, Packets(kind, m, buttons))
    decreases Distance(m)
  {
    NothingBefore([], Packets(kind, m, buttons));
    var rest := FirstPacket(kind, m, buttons, [], Packets(kind, m, buttons));
    NothingBefore([], Packet(kind, m, buttons));
    PacketMoves(kind, m);
    PartAndLeft(kind, m);
    DecodePacketFirst(kind, m, buttons, rest);
    if Left(kind, m) != STILL {
      PacketsDecode(kind, Left(kind, m), buttons);
    }
  }

  lemma {:induction false} WholeApart(kind: Byte, a: seq<Byte>, b: seq<Byte>)
    requires Whole(kind, a) && Whole(kind, b)
    ensures Whole(kind, a + b)
  {
    if a == [] {
      NothingBefore(a, b);
    } else {
      TailOfJoined(a, b, Size(kind));
      WholeApart(kind, a[Size(kind)..], b);
    }
  }

  lemma DecodeJoined(kind: Byte, a: seq<Byte>, b: seq<Byte>, rest: Motion)
    requires |a| >= Size(kind) && rest == Decode(kind, a[Size(kind)..] + b)
    ensures Decode(kind, a + b) == Add(DecodeOne(kind, a), rest)
  {
    TailOfJoined(a, b, Size(kind));
    DecodeFirst(kind, a, b);
  }

  lemma {:induction false} DecodeApart(kind: Byte, a: seq<Byte>, b: seq<Byte>)
    requires Whole(kind, a)
    ensures Decode(kind, a + b) == Add(Decode(kind, a), Decode(kind, b))
  {
    if a == [] {
      AddAssociates(STILL, STILL, Decode(kind, b));
      NothingBefore(a, b);
    } else {
      var tail := a[Size(kind)..];
      DecodeApart(kind, tail, b);
      DecodeJoined(kind, a, b, Decode(kind, tail + b));
      AddAssociates(DecodeOne(kind, a), Decode(kind, tail), Decode(kind, b));
    }
  }

  /** How far `k` packets reach. */
  predicate Reaches(kind: Byte, m: Motion, k: nat) {
    Abs(m.x) <= 127 * k && Abs(m.y) <= 127 * k && (kind == 3 ==> Abs(m.z) <= 127 * k) && (kind == 4 ==> Abs(m.z) <= 7 * k)
  }

  lemma ReachesLeft(kind: Byte, m: Motion, k: nat)
    requires k > 0
    ensures Reaches(kind, m, k) <==> Reaches(kind, Left(kind, m), k - 1)
  {
    AxisMoves(m.x, 127);
    AxisMoves(m.y, 127);
    if kind == 3 {
      AxisMoves(m.z, 127);
    } else if kind == 4 {
      AxisMoves(m.z, 7);
    }
  }

  lemma StillReach(kind: Byte, m: Motion)
    ensures Reaches(kind, m, 0) <==> Counted(kind, m) == STILL
  {
  }

  lemma NoWheelLeft(kind: Byte, m: Motion)
    ensures Counted(kind, Left(kind, m)) == Left(kind, m)
  {
  }

  /** The packets are no more than the motion needs: `k` are enough exactly if
      each axis fits in `k` times its range. */
  lemma {:induction false} PacketCount(kind: Byte, m: Motion, buttons: Byte, k: nat)
    requires k > 0
    ensures |Packets(kind, m, buttons)| <= Size(kind) * k <==> Reaches(kind, m, k)
    decreases k
  {
    var left := Left(kind, m);
    PacketMoves(kind, m);
    ReachesLeft(kind, m, k);
    StillReach(kind, left);
    NoWheelLeft(kind, m);
    if left == STILL {
      ReachesMore(kind, left, k - 1);
    } else {
      PacketsSize(kind, left, buttons);
      if k > 1 {
        PacketCount(kind, left, buttons, k - 1);
      }
    }
  }

  lemma ReachesMore(kind: Byte, m: Motion, k: nat)
    requires Reaches(kind, m, 0)
    ensures Reaches(kind, m, k)
  {
  }

  lemma PacketsSize(kind: Byte, m: Motion, buttons: Byte)
    ensures |Packets(kind, m, buttons)| >= Size(kind)
  {
  }

  // ----------------------------------------------------------------------- queue

  /** A 256-byte queue drops what does not fit. */
  function Queued(queue: seq<Byte>, bytes: seq<Byte>): (q: seq<Byte>)
    requires |queue| <= QUEUE_SIZE
    ensures |q| <= QUEUE_SIZE
  {
    if |queue| + |bytes| <= QUEUE_SIZE then queue + bytes else queue + bytes[..QUEUE_SIZE - |queue|]
  }

  lemma QueuedTwice(queue: seq<Byte>, a: seq<Byte>, b: seq<Byte>)
    requires |queue| <= QUEUE_SIZE
    ensures Queued(Queued(queue, a), b) == Queued(queue, a + b)
  {
  }

  /** `n` bytes around a buffer from `r` on. */
  function Around(d: seq<Byte>, r: nat, n: nat): (c: seq<Byte>)
    requires |d| == QUEUE_SIZE && r < QUEUE_SIZE && n <= QUEUE_SIZE
    ensures |c| == n
  {
    if r + n <= QUEUE_SIZE then d[r..r + n] else d[r..] + d[..r + n - QUEUE_SIZE]
  }

  function Onward(r: nat, n: nat): nat {
    if r + n < QUEUE_SIZE then r + n else r + n - QUEUE_SIZE
  }

  lemma AroundFirst(d: seq<Byte>, r: nat, n: nat)
    requires |d| == QUEUE_SIZE && r < QUEUE_SIZE && 0 < n <= QUEUE_SIZE
    ensures Around(d, r, n) == [d[r]] + Around(d, Onward(r, 1), n - 1)
  {
  }

  lemma AroundLast(d: seq<Byte>, r: nat, n: nat, b: Byte)
    requires |d| == QUEUE_SIZE && r < QUEUE_SIZE && n < QUEUE_SIZE
    ensures Around(d[Onward(r, n) := b], r, n + 1) == Around(d, r, n) + [b]
  {
  }

  class Ps2Mouse {
    const data: array<Byte>
    var rptr: nat
    var wptr: nat
    var count: nat
    var irq: bool
    var enabled: bool
    var remote: bool
    var kind: Byte
    var dx: int
    var dy: int
    var dz: int
    var buttons: Byte

    constructor ()
      ensures Valid() && fresh(data) && Contents() == [] && Pending() == STILL && !enabled
    {
      data := new Byte[QUEUE_SIZE](_ => 0);
      rptr, wptr, count, irq := 0, 0, 0, false;
      enabled, remote, kind, dx, dy, dz, buttons := false, false, 0, 0, 0, 0, 0;
    }

    ghost predicate Valid()
      reads this
    {
      && data.Length == QUEUE_SIZE && rptr < QUEUE_SIZE && wptr < QUEUE_SIZE && count <= QUEUE_SIZE
      && wptr == Onward(rptr, count)
    }

    /** The bytes waiting, oldest first. */
    ghost function Contents(): (c: seq<Byte>)
      requires Valid()
      reads this, data
    {
      Around(data[..], rptr, count)
    }

    /** Motion not yet sent. */
    function Pending(): Motion
      reads this
    {
      Motion(dx, dy, dz)
    }

    method Put(b: Byte)
      requires Valid()
      modifies this`wptr, this`count, this`irq, data
      ensures Valid() && Contents() == Queued(old(Contents()), [b])
    {
      if count >= QUEUE_SIZE {
        return;
      }
      ghost var was := data[..];
      AroundLast(was, rptr, count, b);
      data[wptr] := b;
      assert data[..] == was[wptr := b];
      wptr := wptr + 1;
      if wptr == QUEUE_SIZE {
        wptr := 0;
      }
      count := count + 1;
      irq := true;
    }

    /** Reading an empty queue gives the last byte again. */
    method ReadData() returns (b: Byte)
      requires Valid()
      modifies this`rptr, this`count, this`irq
      ensures Valid()
      ensures old(Contents()) == [] ==> Contents() == [] && b == data[if rptr == 0 then QUEUE_SIZE - 1 else rptr - 1] && irq == old(irq)
      ensures old(Contents()) != [] ==> [b] + Contents() == old(Contents()) && (irq <==> Contents() != [])
    {
      if count == 0 {
        var index := rptr - 1;
        if index < 0 {
          index := QUEUE_SIZE - 1;
        }
        b := data[index];
      } else {
        AroundFirst(data[..], rptr, count);
        b := data[rptr];
        rptr := rptr + 1;
        if rptr == QUEUE_SIZE {
          rptr := 0;
        }
        count := count - 1;
        irq := count != 0;
      }
    }

    method PutThree(b0: Byte, b1: Byte, b2: Byte)
      requires Valid()
      modifies this`wptr, this`count, this`irq, data
      ensures Valid() && Contents() == Queued(old(Contents()), [b0, b1, b2])
    {
      ghost var before := Contents();
      Put(b0);
      Put(b1);
      QueuedTwice(before, [b0], [b1]);
      Put(b2);
      QueuedTwice(before, [b0] + [b1], [b2]);
      assert [b0] + [b1] + [b2] == [b0, b1, b2];
    }

    /** One packet, and the motion it takes. */
    method SendPacket()
      requires Valid()
      modifies this`wptr, this`count, this`irq, this`dx, this`dy, this`dz, data
      ensures Valid() && Contents() == Queued(old(Contents()), Packet(kind, old(Pending()), buttons))
      ensures Pending() == Left(kind, old(Pending()))
    {
      var p := NextPart();
      PutPacket(p.x, p.y, p.z, Pending());
      dx, dy, dz := dx - p.x, dy - p.y, dz - p.z;
    }

    method NextPart() returns (p: Motion)
      ensures p == Part(kind, Pending())
    {
      var x := Limit(dx, 127);
      var y := Limit(dy, 127);
      var z := dz;
      if kind == 3 {
        z := Limit(dz, 127);
      } else if kind == 4 {
        z := Limit(dz, 7);
      }
      p := Motion(x, y, z);
    }

    method PutPacket(x: int, y: int, z: int, ghost m: Motion)
      requires Valid() && Part(kind, m) == Motion(x, y, z)
      modifies this`wptr, this`count, this`irq, data
      ensures Valid() && Contents() == Queued(old(Contents()), Packet(kind, m, buttons))
    {
      ghost var before := Contents();
      PartBounds(kind, m);
      var b, b1, b2 := 8 + (if x < 0 then 16 else 0) + (if y < 0 then 32 else 0) + buttons % 8, Low(x, 256), Low(y, 256);
      PutThree(b, b1, b2);
      PutWheel(z);
      PacketIs(kind, m, buttons, b, x, y, z);
      QueuedTwice(before, [b, b1, b2], WheelBytes(kind, z, buttons));
    }

    method PutWheel(z: int)
      requires Valid() && (Wheel(kind) ==> -127 <= z <= 127) && (kind == 4 ==> -7 <= z <= 7)
      modifies this`wptr, this`count, this`irq, data
      ensures Valid() && Contents() == Queued(old(Contents()), WheelBytes(kind, z, buttons))
    {
      if kind == 3 {
        Put(Low(z, 256));
      } else if kind == 4 {
        Put(Low(z, 16) + buttons / 8 % 4 * 16);
      }
    }

    /** All packets for the motion, until none is left. */
    method SendAll()
      requires Valid()
      modifies this`wptr, this`count, this`irq, this`dx, this`dy, this`dz, data
      ensures Valid() && Pending() == STILL
      ensures Contents() == Queued(old(Contents()), Packets(kind, old(Pending()), buttons))
    {
      hide Packets, Packet, Left, Distance;
      ghost var before, all := Contents(), Packets(kind, Pending(), buttons);
      ghost var sent, rest := [], all;
      var more := true;
      while more
        invariant Valid() && Contents() == Queued(before, sent) && sent + rest == all
        invariant rest == if more then Packets(kind, Pending(), buttons) else []
        invariant !more ==> Pending() == STILL
        decreases more, Distance(Pending())
      {
        ghost var m := Pending();
        PacketMoves(kind, m);
        SendPacket();
        QueuedTwice(before, sent, Packet(kind, m, buttons));
        rest := FirstPacket(kind, m, buttons, sent, all);
        sent := sent + Packet(kind, m, buttons);
        more := dx != 0 || dy != 0 || dz != 0;
      }
    }

    ghost function Now(): State
      requires Valid()
      reads this, data
    {
      State(Contents(), Pending(), buttons)
    }

    /** Moving the mouse or pressing a button. */
    method Event(x: int, y: int, z: int, pressed: Byte) returns (sent: bool)
      requires Valid()
      modifies this`wptr, this`count, this`irq, this`dx, this`dy, this`dz, this`buttons, data
      ensures Valid()
      ensures !enabled ==> !sent && Now() == old(Now())
      ensures
        enabled ==>
          var m := Add(old(Pending()), Motion(x, -y, z));
          && Now() == Moves(kind, remote, old(Now()), m, pressed)
          && (sent <==> (m != Motion(0, 0, 0) || pressed != old(buttons)) && !remote && old(|Contents()|) < 240)
          && Pending() == (if sent then Motion(0, 0, 0) else m) && buttons == pressed
          && Contents() == Queued(old(Contents()), if sent then Packets(kind, m, pressed) else [])
    {
      if !enabled {
        return false;
      }
      Accumulate(x, y, z);
      sent := Report(pressed);
    }

    method Accumulate(x: int, y: int, z: int)
      modifies this`dx, this`dy, this`dz
      ensures Pending() == Add(old(Pending()), Motion(x, -y, z))
    {
      dx, dy, dz := dx + x, dy - y, dz + z;
    }

    method Report(pressed: Byte) returns (sent: bool)
      requires Valid()
      modifies this`wptr, this`count, this`irq, this`dx, this`dy, this`dz, this`buttons, data
      ensures Valid() && (sent <==> Sends(old(Now()), remote, old(Pending()), pressed))
      ensures Now() == Moves(kind, remote, old(Now()), old(Pending()), pressed)
    {
      if dx == 0 && dy == 0 && dz == 0 && buttons == pressed {
        return false;
      }
      ghost var s, m := Now(), Pending();
      buttons := pressed;
      if remote || count >= QUEUE_SIZE - REMOTE_MARGIN {
        return false;
      }
      MovesSent(kind, remote, s, m, pressed);
      SendAll();
      sent := true;
    }

    /** Any run of events and reads of an enabled mouse. */
    method Run(happenings: seq<Happening>) returns (read: seq<Byte>)
      requires Valid() && enabled
      modifies this`rptr, this`wptr, this`count, this`irq, this`dx, this`dy, this`dz, this`buttons, data
      ensures Valid() && Now() == StateAfter(kind, remote, old(Now()), happenings)
      ensures read == ReadOf(kind, remote, old(Now()), happenings)
    {
      read := [];
      ghost var rest, all := happenings, ReadOf(kind, remote, Now(), happenings);
      var i := 0;
      while i < |happenings|
        invariant i <= |happenings| && rest == happenings[i..] && Valid()
        invariant StateAfter(kind, remote, Now(), rest) == StateAfter(kind, remote, old(Now()), happenings)
        invariant read + ReadOf(kind, remote, Now(), rest) == all
      {
        ghost var before := Now();
        var bytes := Happen(happenings[i]);
        Regroup(read, bytes, ReadOf(kind, remote, Now(), rest[1..]));
        read, rest, i := read + bytes, rest[1..], i + 1;
      }
      NothingAfter(read, ReadOf(kind, remote, Now(), rest));
    }

    method Happen(h: Happening) returns (bytes: seq<Byte>)
      requires Valid() && enabled
      modifies this`rptr, this`wptr, this`count, this`irq, this`dx, this`dy, this`dz, this`buttons, data
      ensures Valid() && Now() == After(kind, remote, old(Now()), h) && bytes == Taken(old(Now()), h)
    {
      hide Around, Queued;
      bytes := [];
      match h {
        case Moved(x, y, z, pressed) =>
          var sent := Event(x, y, z, pressed);
        case Looked =>
          if count != 0 {
            var b := ReadData();
            bytes := [b];
          }
      }
    }
  }

  // ------------------------------------------------------------------------ runs

  /** The bytes waiting, the motion not yet sent, and the buttons last reported. */
  datatype State = State(queue: seq<Byte>, pending: Motion, buttons: Byte)

  datatype Happening = Moved(x: int, y: int, z: int, pressed: Byte) | Looked

  /** Whether an event with motion `m` in all is reported at once. */
  predicate Sends(s: State, remote: bool, m: Motion, pressed: Byte) {
    !(m == STILL && s.buttons == pressed) && !remote && |s.queue| < QUEUE_SIZE - REMOTE_MARGIN
  }

  function Moves(kind: Byte, remote: bool, s: State, m: Motion, pressed: Byte): State
    requires |s.queue| <= QUEUE_SIZE
  {
    if Sends(s, remote, m, pressed) then State(Queued(s.queue, Packets(kind, m, pressed)), STILL, pressed)
    else State(s.queue, m, pressed)
  }

  lemma MovesSent(kind: Byte, remote: bool, s: State, m: Motion, pressed: Byte)
    requires |s.queue| <= QUEUE_SIZE && Sends(s, remote, m, pressed)
    ensures Moves(kind, remote, s, m, pressed) == State(Queued(s.queue, Packets(kind, m, pressed)), STILL, pressed)
  {
  }

  function After(kind: Byte, remote: bool, s: State, h: Happening): (s': State)
    requires |s.queue| <= QUEUE_SIZE
    ensures |s'.queue| <= QUEUE_SIZE
  {
    if h.Moved? then Moves(kind, remote, s, Add(s.pending, Delta(h)), h.pressed)
    else if s.queue == [] then s
    else s.(queue := s.queue[1..])
  }

  /** The byte a read takes, if one waits. */
  function Taken(s: State, h: Happening): seq<Byte> {
    if h.Looked? && s.queue != [] then s.queue[..1] else []
  }

  function StateAfter(kind: Byte, remote: bool, s: State, happenings: seq<Happening>): State
    requires |s.queue| <= QUEUE_SIZE
    decreases |happenings|
  {
    if happenings == [] then s else StateAfter(kind, remote, After(kind, remote, s, happenings[0]), happenings[1..])
  }

  function ReadOf(kind: Byte, remote: bool, s: State, happenings: seq<Happening>): seq<Byte>
    requires |s.queue| <= QUEUE_SIZE
    decreases |happenings|
  {
    if happenings == [] then []
    else Taken(s, happenings[0]) + ReadOf(kind, remote, After(kind, remote, s, happenings[0]), happenings[1..])
  }

  /** The packets an event reports. */
  function Reported(kind: Byte, remote: bool, s: State, h: Happening): seq<Byte> {
    if h.Moved? && Sends(s, remote, Add(s.pending, Delta(h)), h.pressed) then Packets(kind, Add(s.pending, Delta(h)), h.pressed) else []
  }

  /** And a run. */
  function AllReported(kind: Byte, remote: bool, s: State, happenings: seq<Happening>): seq<Byte>
    requires |s.queue| <= QUEUE_SIZE
    decreases |happenings|
  {
    if happenings == [] then []
    else Reported(kind, remote, s, happenings[0]) + AllReported(kind, remote, After(kind, remote, s, happenings[0]), happenings[1..])
  }

  /** Every event's packets fit in the queue as it is then. */
  predicate AllFit(kind: Byte, remote: bool, s: State, happenings: seq<Happening>)
    requires |s.queue| <= QUEUE_SIZE
    decreases |happenings|
  {
    happenings != [] ==>
      && |s.queue| + |Reported(kind, remote, s, happenings[0])| <= QUEUE_SIZE
      && AllFit(kind, remote, After(kind, remote, s, happenings[0]), happenings[1..])
  }

  /** Every event reported has motion for five packets of three bytes, or four of
      four. */
  predicate AllReach(kind: Byte, remote: bool, s: State, happenings: seq<Happening>)
    requires |s.queue| <= QUEUE_SIZE
    decreases |happenings|
  {
    happenings != [] ==>
      && (Reported(kind, remote, s, happenings[0]) != [] ==> Reaches(kind, Add(s.pending, Delta(happenings[0])), if Wheel(kind) then 4 else 5))
      && AllReach(kind, remote, After(kind, remote, s, happenings[0]), happenings[1..])
  }

  /** A happening only adds what it reports and takes what it reads. */
  lemma AfterOne(kind: Byte, remote: bool, s: State, h: Happening)
    requires |s.queue| <= QUEUE_SIZE
    ensures
      var s', more := After(kind, remote, s, h), Reported(kind, remote, s, h);
      Taken(s, h) + s'.queue == if |s.queue| + |more| <= QUEUE_SIZE then s.queue + more else s.queue + more[..QUEUE_SIZE - |s.queue|]
  {
    if Reported(kind, remote, s, h) == [] {
      NothingAfter(s.queue, Reported(kind, remote, s, h));
    }
  }

  /** No run reads and keeps more than was there and was reported; it is all of
      that, in order, exactly if every event's packets fit. */
  lemma {:induction false} NothingDroppedIff(kind: Byte, remote: bool, s: State, happenings: seq<Happening>)
    requires |s.queue| <= QUEUE_SIZE
    ensures
      var read, left, more := ReadOf(kind, remote, s, happenings), StateAfter(kind, remote, s, happenings).queue,
                              AllReported(kind, remote, s, happenings);
      && |read + left| <= |s.queue + more|
      && (read + left == s.queue + more <==> AllFit(kind, remote, s, happenings))
    decreases |happenings|
  {
    if happenings == [] {
      NothingAfter(s.queue, AllReported(kind, remote, s, happenings));
      NothingBefore(ReadOf(kind, remote, s, happenings), s.queue);
    } else {
      var h := happenings[0];
      var s' := After(kind, remote, s, h);
      NothingDroppedIff(kind, remote, s', happenings[1..]);
      AfterOne(kind, remote, s, h);
      DroppedOne(Taken(s, h), ReadOf(kind, remote, s', happenings[1..]), StateAfter(kind, remote, s', happenings[1..]).queue,
                 s.queue, s'.queue, Reported(kind, remote, s, h), AllReported(kind, remote, s', happenings[1..]));
    }
  }

  lemma DroppedOne(byte: seq<Byte>, read: seq<Byte>, left: seq<Byte>, queue: seq<Byte>, queue': seq<Byte>, now: seq<Byte>, later: seq<Byte>)
    requires |queue| <= QUEUE_SIZE && |read + left| <= |queue' + later|
    requires byte + queue' == if |queue| + |now| <= QUEUE_SIZE then queue + now else queue + now[..QUEUE_SIZE - |queue|]
    ensures |byte + read + left| <= |queue + (now + later)|
    ensures
      byte + read + left == queue + (now + later) <==>
      |queue| + |now| <= QUEUE_SIZE && read + left == queue' + later
  {
    Regroup(byte, read, left);
    Regroup(queue, now, later);
    Regroup(byte, queue', later);
    if |queue| + |now| <= QUEUE_SIZE {
      SameBehind(byte, read + left, queue' + later);
    } else {
      assert |byte + queue'| < |queue + now|;
    }
  }

  /** What a run reports, with what it leaves pending, is all the motion there was. */
  lemma {:induction false} ReportedIsMotion(kind: Byte, remote: bool, s: State, happenings: seq<Happening>)
    requires |s.queue| <= QUEUE_SIZE
    ensures Whole(kind, AllReported(kind, remote, s, happenings))
    ensures
      Add(Decode(kind, AllReported(kind, remote, s, happenings)), Counted(kind, StateAfter(kind, remote, s, happenings).pending))
      == Counted(kind, Add(s.pending, Total(happenings)))
    decreases |happenings|
  {
    if happenings == [] {
      AddStill(s.pending);
      AddStill(Counted(kind, s.pending));
    } else {
      var h := happenings[0];
      var s' := After(kind, remote, s, h);
      ReportedIsMotion(kind, remote, s', happenings[1..]);
      OneIsMotion(kind, remote, s, h);
      var now, later := Reported(kind, remote, s, h), AllReported(kind, remote, s', happenings[1..]);
      WholeApart(kind, now, later);
      DecodeApart(kind, now, later);
      MotionsAdd(kind, Decode(kind, now), Decode(kind, later), s.pending, s'.pending,
                 StateAfter(kind, remote, s', happenings[1..]).pending, Delta(h), Total(happenings[1..]));
    }
  }

  lemma OneIsMotion(kind: Byte, remote: bool, s: State, h: Happening)
    requires |s.queue| <= QUEUE_SIZE
    ensures Whole(kind, Reported(kind, remote, s, h))
    ensures
      Add(Decode(kind, Reported(kind, remote, s, h)), Counted(kind, After(kind, remote, s, h).pending))
      == Counted(kind, Add(s.pending, Delta(h)))
  {
    AddStill(s.pending);
    AddStill(Counted(kind, Add(s.pending, Delta(h))));
    if h.Moved? {
      PacketsDecode(kind, Add(s.pending, Delta(h)), h.pressed);
    }
  }

  lemma MotionsAdd(kind: Byte, now: Motion, later: Motion, before: Motion, between: Motion, after: Motion, d: Motion, total: Motion)
    requires Add(now, Counted(kind, between)) == Counted(kind, Add(before, d))
    requires Add(later, Counted(kind, after)) == Counted(kind, Add(between, total))
    ensures Add(Add(now, later), Counted(kind, after)) == Counted(kind, Add(before, Add(d, total)))
  {
  }

  /** Over any run whose packets fit, what was read and what is queued decode to
      what was queued and all motion since, save what is still pending. */
  lemma RunKeepsMotion(kind: Byte, remote: bool, s: State, happenings: seq<Happening>)
    requires |s.queue| <= QUEUE_SIZE && Whole(kind, s.queue) && AllFit(kind, remote, s, happenings)
    ensures
      var s', stream := StateAfter(kind, remote, s, happenings), ReadOf(kind, remote, s, happenings) + StateAfter(kind, remote, s, happenings).queue;
      && Whole(kind, stream)
      && Add(Decode(kind, stream), Counted(kind, s'.pending)) == Add(Decode(kind, s.queue), Counted(kind, Add(s.pending, Total(happenings))))
  {
    var more := AllReported(kind, remote, s, happenings);
    NothingDroppedIff(kind, remote, s, happenings);
    ReportedIsMotion(kind, remote, s, happenings);
    WholeApart(kind, s.queue, more);
    DecodeApart(kind, s.queue, more);
    AddAssociates(Decode(kind, s.queue), Decode(kind, more), Counted(kind, StateAfter(kind, remote, s, happenings).pending));
  }

  /** Small motions always fit. */
  lemma {:induction false} SmallMotionsFit(kind: Byte, remote: bool, s: State, happenings: seq<Happening>)
    requires |s.queue| <= QUEUE_SIZE && AllReach(kind, remote, s, happenings)
    ensures AllFit(kind, remote, s, happenings)
    decreases |happenings|
  {
    if happenings != [] {
      var h := happenings[0];
      if h.Moved? {
        NothingDropped(s.queue, kind, Add(s.pending, Delta(h)), h.pressed);
      }
      SmallMotionsFit(kind, remote, After(kind, remote, s, h), happenings[1..]);
    }
  }

  /** The motion of an event, upwards positive as the mouse counts it. */
  function Delta(h: Happening): Motion {
    if h.Moved? then Motion(h.x, -h.y, h.z) else STILL
  }

  function Total(happenings: seq<Happening>): Motion {
    if happenings == [] then STILL else Add(Delta(happenings[0]), Total(happenings[1..]))
  }

  lemma AddStill(m: Motion)
    ensures Add(m, STILL) == m && Add(STILL, m) == m
  {
  }

  lemma PartBounds(kind: Byte, m: Motion)
    ensures
      var p := Part(kind, m);
      -127 <= p.x <= 127 && -127 <= p.y <= 127 && (Wheel(kind) ==> -127 <= p.z <= 127) && (kind == 4 ==> -7 <= p.z <= 7)
  {
  }

  lemma PacketIs(kind: Byte, m: Motion, buttons: Byte, b: Byte, x: int, y: int, z: int)
    requires Part(kind, m) == Motion(x, y, z) && -127 <= x <= 127 && -127 <= y <= 127
    requires (Wheel(kind) ==> -127 <= z <= 127) && (kind == 4 ==> -7 <= z <= 7)
    requires b == 8 + (if x < 0 then 16 else 0) + (if y < 0 then 32 else 0) + buttons % 8
    ensures Packet(kind, m, buttons) == [b, Low(x, 256), Low(y, 256)] + WheelBytes(kind, z, buttons)
  {
    PacketBytes(kind, m, buttons);
  }

  /** Nothing is dropped exactly when the packets fit in the queue, as they do,
      when the event is reported at all, for motion within five packets of three
      bytes or four of four. */
  lemma NothingDropped(queue: seq<Byte>, kind: Byte, m: Motion, buttons: Byte)
    requires |queue| <= QUEUE_SIZE
    ensures
      var packets := Packets(kind, m, buttons);
      && (Queued(queue, packets) == queue + packets <==> |packets| <= QUEUE_SIZE - |queue|)
      && (|queue| < QUEUE_SIZE - REMOTE_MARGIN && Reaches(kind, m, if Wheel(kind) then 4 else 5) ==> |packets| <= QUEUE_SIZE - |queue|)
  {
    PacketCount(kind, m, buttons, if Wheel(kind) then 4 else 5);
    var packets := Packets(kind, m, buttons);
    if |packets| > QUEUE_SIZE - |queue| {
      assert |Queued(queue, packets)| < |queue + packets|;
    }
  }

  lemma FirstPacket(kind: Byte, m: Motion, buttons: Byte, sent: seq<Byte>, all: seq<Byte>) returns (rest: seq<Byte>)
    requires sent + Packets(kind, m, buttons) == all
    ensures rest == if Left(kind, m) == STILL then [] else Packets(kind, Left(kind, m), buttons)
    ensures sent + Packet(kind, m, buttons) + rest == all
  {
    PacketMoves(kind, m);
    rest := if Left(kind, m) == STILL then [] else Packets(kind, Left(kind, m), buttons);
    Regroup(sent, Packet(kind, m, buttons), rest);
  }
}
