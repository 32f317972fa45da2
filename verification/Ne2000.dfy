/** The NE2000's receive ring and remote DMA. */
module Ne2000 {
  import opened Sequences

  type Byte = b: int | 0 <= b < 256

  const PAGE := 256
  const PMEM_START := 0x4000
  const MEM_SIZE := 0xc000
  const MAX_FRAME := 1514
  const MIN_FRAME := 60

  // ----------------------------------------------------------------------- ring

  /** Pages `first` up to `last` of the card's memory, used in a circle. */
  datatype Ring = Ring(first: nat, last: nat) {
    predicate Valid() {
      PMEM_START <= PAGE * first && first < last && PAGE * last <= MEM_SIZE
    }

    function Start(): nat {
      PAGE * first
    }

    function Stop(): nat {
      PAGE * last
    }

    function Size(): nat
      requires Valid()
    {
      Stop() - Start()
    }

    predicate Has(a: nat) {
      Start() <= a < Stop()
    }

    /** The address `k` bytes on. */
    function Plus(a: nat, k: nat): (b: nat)
      requires Valid() && Has(a) && k <= Size()
      ensures Has(b)
    {
      if a + k < Stop() then a + k else a + k - Size()
    }

    /** How far on `b` is from `a`. */
    function Dist(a: nat, b: nat): (d: nat)
      requires Valid() && Has(a) && Has(b)
      ensures d < Size() && Plus(a, d) == b
    {
      if a <= b then b - a else b + Size() - a
    }
  }

  lemma PlusTwice(r: Ring, a: nat, j: nat, k: nat)
    requires r.Valid() && r.Has(a) && j + k <= r.Size()
    ensures r.Plus(r.Plus(a, j), k) == r.Plus(a, j + k)
  {
  }

  /** The bytes of `data` lie in memory from `at` on, around the ring. */
  predicate Holds(mem: seq<Byte>, r: Ring, at: nat, data: seq<Byte>)
    requires |mem| == MEM_SIZE && r.Valid() && r.Has(at) && |data| <= r.Size()
  {
    forall k :: 0 <= k < |data| ==> mem[r.Plus(at, k)] == data[k]
  }

  /** Address `a` is none of the `n` from `at` on. */
  predicate Outside(r: Ring, at: nat, n: nat, a: nat)
    requires r.Valid() && r.Has(at)
  {
    r.Has(a) ==> r.Dist(at, a) >= n
  }

  /** Nothing but those changed. */
  predicate OnlyWrote(mem: seq<Byte>, mem': seq<Byte>, r: Ring, at: nat, n: nat)
    requires |mem| == MEM_SIZE == |mem'| && r.Valid() && r.Has(at)
  {
    forall a :: 0 <= a < MEM_SIZE && Outside(r, at, n, a) ==> mem'[a] == mem[a]
  }

  // --------------------------------------------------------------------- packets

  function Padded(frame: seq<Byte>): (p: seq<Byte>)
    ensures |p| >= MIN_FRAME && frame <= p && (|frame| >= MIN_FRAME ==> p == frame)
  {
    if |frame| < MIN_FRAME then frame + seq(MIN_FRAME - |frame|, _ => 0) else frame
  }

  /** The pages a packet takes, counting its header and the checksum. */
  function Pages(size: nat): nat {
    (size + 4 + 4 + 255) / 256
  }

  function NextPage(r: Ring, page: nat, size: nat): nat
    requires r.Valid()
  {
    if PAGE * (page + Pages(size)) >= r.Stop() then page + Pages(size) - (r.last - r.first) else page + Pages(size)
  }

  function Status(frame: seq<Byte>): Byte
    requires |frame| > 0
  {
    if frame[0] % 2 == 1 then 0x21 else 1
  }

  /** What the driver should find: a 4-byte header and the padded frame. */
  function Packet(frame: seq<Byte>, next: nat): (p: seq<Byte>)
    requires |frame| > 0
    ensures |p| == |Padded(frame)| + 4
  {
    var total := |Padded(frame)| + 4;
    [Status(frame), next % 256, total % 256, total / 256 % 256] + Padded(frame)
  }

  /** The size a header gives. */
  function Total(packet: seq<Byte>): nat
    requires |packet| >= 4
  {
    var low: int, high: int := packet[2], packet[3];
    low + 256 * high
  }

  lemma PacketFields(frame: seq<Byte>, next: nat)
    requires 0 < |frame| <= MAX_FRAME && next < 256
    ensures var p := Packet(frame, next); MIN_FRAME + 4 <= |p| == Total(p) && p[1] == next
  {
  }

  // ----------------------------------------------------------------------- queue

  /** Bytes from the current page up to the boundary; all, if they are equal. */
  function FreeOf(r: Ring, boundary: nat, current: nat): int
    requires r.Valid()
  {
    var index, limit := PAGE * current, PAGE * boundary;
    if index < limit then limit - index else r.Size() - (index - limit)
  }

  /** The address filter. */
  datatype Filter = Filter(promiscuous: bool, broadcasts: bool, multicasts: bool, mult: set<nat>, hash: seq<Byte> -> nat, address: seq<Byte>)

  predicate Passes(f: Filter, frame: seq<Byte>)
    requires |frame| >= 6
  {
    if f.promiscuous then true
    else if frame[..6] == [0xff, 0xff, 0xff, 0xff, 0xff, 0xff] then f.broadcasts
    else if frame[0] % 2 == 1 then f.multicasts && f.hash(frame[..6]) in f.mult
    else frame[..6] == f.address
  }

  /** Which frames the filter lets through: all of them when promiscuous; otherwise
      those to the station's address, broadcasts if they are wanted, and other group
      addresses, which have the lowest bit of the first byte set, if they are wanted
      and their hash bit is set. */
  lemma PassesWhen(f: Filter, frame: seq<Byte>)
    requires |frame| >= 6 && |f.address| == 6
    ensures f.promiscuous ==> Passes(f, frame)
    ensures !f.promiscuous && (forall i :: 0 <= i < 6 ==> frame[i] == 0xff) ==> (Passes(f, frame) <==> f.broadcasts)
    ensures
      !f.promiscuous && frame[0] % 2 == 1 && (exists i :: 0 <= i < 6 && frame[i] != 0xff) ==>
        (Passes(f, frame) <==> f.multicasts && f.hash(frame[..6]) in f.mult)
    ensures
      !f.promiscuous && frame[0] % 2 == 0 ==>
        (Passes(f, frame) <==> forall i :: 0 <= i < 6 ==> frame[i] == f.address[i])
  {
    var to := frame[..6];
    assert forall i :: 0 <= i < 6 ==> to[i] == frame[i];
    assert to == [0xff, 0xff, 0xff, 0xff, 0xff, 0xff] <==> forall i :: 0 <= i < 6 ==> frame[i] == 0xff;
  }

  /** What the driver finds of a frame: good packet, and to a group address or not;
      the page of the next; the size with the header, lowest byte first; and the
      frame, filled up to 60 bytes with zeros. */
  lemma PacketInMemory(frame: seq<Byte>, next: nat)
    requires 6 <= |frame| <= 1514 && next < 256
    ensures
      var p, n := Packet(frame, next), if |frame| < 60 then 60 else |frame|;
      && |p| == n + 4 && p[0] == (if frame[0] % 2 == 1 then 0x21 else 0x01) && p[1] == next
      && p[2] == (n + 4) % 256 && p[3] == (n + 4) / 256
      && forall i :: 0 <= i < n ==> p[4 + i] == if i < |frame| then frame[i] else 0
  {
    var padded := Padded(frame);
    assert padded == if |frame| < 60 then frame + seq(60 - |frame|, _ => 0) else frame;
  }

  /** Addresses and pages go round the ring; the space free is what lies from the
      current page up to the boundary, all of it if they are equal. */
  lemma RoundTheRing(r: Ring, page: nat, size: nat, a: nat, k: nat)
    requires r.Valid() && Page(r, page) && r.Has(a) && k <= r.Size() && (size + 263) / 256 <= r.last - r.first
    ensures NextPage(r, page, size) == r.first + (page - r.first + (size + 263) / 256) % (r.last - r.first)
    ensures r.Plus(a, k) == 256 * r.first + (a - 256 * r.first + k) % (256 * (r.last - r.first))
  {
    var pages, d := r.last - r.first, page - r.first + (size + 263) / 256;
    Once(d, pages);
    Once(a - 256 * r.first + k, 256 * pages);
  }

  lemma Once(x: nat, n: nat)
    requires 0 < n && x < 2 * n
    ensures x % n == if x < n then x else x - n
  {
    if x >= n {
      assert x == n * 1 + (x - n);
      assert x / n == 1;
    }
  }

  lemma FreeIs(r: Ring, boundary: nat, current: nat)
    requires r.Valid() && Page(r, boundary) && Page(r, current)
    ensures
      var pages := r.last - r.first;
      FreeOf(r, boundary, current) == 256 * if boundary == current then pages else (boundary - current + pages) % pages
  {
    Once(boundary - current + (r.last - r.first), r.last - r.first);
  }

  /** A packet put into the ring: its first page and its bytes. */
  datatype Stored = Stored(page: nat, bytes: seq<Byte>)

  predicate Page(r: Ring, page: nat) {
    r.first <= page < r.last
  }

  /** The packet lies at the page, before the current one, and names the next. */
  predicate Front(mem: seq<Byte>, r: Ring, page: nat, current: nat, p: Stored)
    requires |mem| == MEM_SIZE && r.Valid() && Page(r, page) && Page(r, current)
  {
    && p.page == page && MIN_FRAME + 4 <= |p.bytes| == Total(p.bytes)
    && Page(r, p.bytes[1]) && p.bytes[1] == NextPage(r, page, |p.bytes| - 4)
    && PAGE * Pages(|p.bytes| - 4) <= r.Dist(PAGE * page, PAGE * current)
    && Holds(mem, r, PAGE * page, p.bytes)
  }

  /** The packets lie one behind the other from the boundary page to the current
      page, each naming the next in its header. */
  predicate Queue(mem: seq<Byte>, r: Ring, boundary: nat, current: nat, packets: seq<Stored>)
    requires |mem| == MEM_SIZE && r.Valid() && Page(r, boundary) && Page(r, current)
    decreases |packets|
  {
    if packets == [] then boundary == current
    else Front(mem, r, boundary, current, packets[0]) && Queue(mem, r, packets[0].bytes[1], current, packets[1..])
  }

  lemma PagesHold(size: nat)
    ensures size + 4 < PAGE * Pages(size) <= size + 263
  {
  }

  lemma NextOn(r: Ring, page: nat, size: nat)
    requires r.Valid() && Page(r, page) && PAGE * Pages(size) <= r.Size()
    ensures Page(r, NextPage(r, page, size))
    ensures r.Has(PAGE * page) && PAGE * NextPage(r, page, size) == r.Plus(PAGE * page, PAGE * Pages(size))
  {
  }

  /** What has been read from the boundary up to here is away from what is free. */
  lemma OutsideFree(r: Ring, b: nat, c: nat, k: nat, n: nat)
    requires r.Valid() && r.Has(b) && r.Has(c) && k < r.Dist(b, c) && r.Dist(b, c) + n <= r.Size()
    ensures Outside(r, c, n, r.Plus(b, k))
  {
  }

  lemma StillHolds(mem: seq<Byte>, mem': seq<Byte>, r: Ring, b: nat, c: nat, data: seq<Byte>, n: nat)
    requires |mem| == MEM_SIZE == |mem'| && r.Valid() && r.Has(b) && r.Has(c)
    requires |data| <= r.Dist(b, c) && r.Dist(b, c) + n <= r.Size()
    requires OnlyWrote(mem, mem', r, c, n) && Holds(mem, r, b, data)
    ensures Holds(mem', r, b, data)
  {
    forall k | 0 <= k < |data|
      ensures mem'[r.Plus(b, k)] == data[k]
    {
      OutsideFree(r, b, c, k, n);
    }
  }

  lemma DistLeft(r: Ring, b: nat, c: nat, k: nat)
    requires r.Valid() && r.Has(b) && r.Has(c) && k <= r.Dist(b, c)
    ensures r.Dist(r.Plus(b, k), c) == r.Dist(b, c) - k
  {
  }

  lemma DistMore(r: Ring, b: nat, c: nat, k: nat)
    requires r.Valid() && r.Has(b) && r.Has(c) && r.Dist(b, c) + k < r.Size()
    ensures r.Dist(b, r.Plus(c, k)) == r.Dist(b, c) + k
  {
  }

  /** Bytes written past the current page leave the packets before it alone. */
  lemma FrontStays(mem: seq<Byte>, mem': seq<Byte>, r: Ring, boundary: nat, current: nat, q: Stored, n: nat, size: nat, next: nat)
    requires |mem| == MEM_SIZE == |mem'| && r.Valid() && Page(r, boundary) && Page(r, current) && Page(r, next)
    requires Front(mem, r, boundary, current, q) && n <= PAGE * Pages(size) && next == NextPage(r, current, size)
    requires r.Dist(PAGE * boundary, PAGE * current) + PAGE * Pages(size) < r.Size()
    requires OnlyWrote(mem, mem', r, PAGE * current, n)
    ensures Front(mem', r, boundary, next, q)
    ensures r.Dist(PAGE * q.bytes[1], PAGE * current) < r.Dist(PAGE * boundary, PAGE * current)
  {
    PagesHold(|q.bytes| - 4);
    NextOn(r, boundary, |q.bytes| - 4);
    NextOn(r, current, size);
    DistLeft(r, PAGE * boundary, PAGE * current, PAGE * Pages(|q.bytes| - 4));
    DistMore(r, PAGE * boundary, PAGE * current, PAGE * Pages(size));
    StillHolds(mem, mem', r, PAGE * boundary, PAGE * current, q.bytes, n);
  }

  /** A packet for the current page, with the next one in its header. */
  predicate Headed(r: Ring, current: nat, p: Stored, size: nat, next: nat)
    requires r.Valid()
  {
    p.page == current && MIN_FRAME + 4 <= size + 4 == |p.bytes| == Total(p.bytes) && p.bytes[1] == next == NextPage(r, current, size)
  }

  lemma NewFront(mem: seq<Byte>, r: Ring, current: nat, p: Stored, size: nat, next: nat)
    requires |mem| == MEM_SIZE && r.Valid() && Page(r, current) && Page(r, next) && Headed(r, current, p, size, next)
    requires PAGE * Pages(size) < r.Size() && Holds(mem, r, PAGE * current, p.bytes)
    ensures Front(mem, r, current, next, p)
  {
    NextOn(r, current, size);
    DistMore(r, PAGE * current, PAGE * current, PAGE * Pages(size));
  }

  lemma FreeAfter(r: Ring, boundary: nat, current: nat, size: nat)
    requires r.Valid() && Page(r, boundary) && Page(r, current)
    requires PAGE * Pages(size) <= FreeOf(r, boundary, current)
    ensures FreeOf(r, boundary, current) == r.Size() - r.Dist(PAGE * boundary, PAGE * current)
    ensures
      var d, next := r.Dist(PAGE * boundary, PAGE * current) + PAGE * Pages(size), NextPage(r, current, size);
      Page(r, next) && r.Dist(PAGE * boundary, PAGE * next) == if d < r.Size() then d else 0
  {
    NextOn(r, current, size);
  }

  /** With the current page on the boundary the card counts the whole ring free and
      the driver finds no packet: a full ring and an empty one look the same. */
  lemma FullLooksEmpty(mem: seq<Byte>, r: Ring, boundary: nat, current: nat, packets: seq<Stored>)
    requires |mem| == MEM_SIZE && r.Valid() && Page(r, boundary) && Page(r, current)
    ensures FreeOf(r, boundary, current) == r.Size() <==> boundary == current
    ensures Queue(mem, r, boundary, current, packets) ==> (packets == [] <==> boundary == current)
  {
    if packets != [] && Queue(mem, r, boundary, current, packets) {
      PagesHold(|packets[0].bytes| - 4);
    }
  }

  /** A packet that does not fill the ring goes to the end of the queue. */
  lemma {:induction false} QueueAppends(mem: seq<Byte>, mem': seq<Byte>, r: Ring, boundary: nat, current: nat,
                                        packets: seq<Stored>, p: Stored, size: nat, next: nat)
    requires |mem| == MEM_SIZE == |mem'| && r.Valid() && Page(r, boundary) && Page(r, current) && Page(r, next)
    requires Queue(mem, r, boundary, current, packets) && Headed(r, current, p, size, next)
    requires r.Dist(PAGE * boundary, PAGE * current) + PAGE * Pages(size) < r.Size()
    requires Holds(mem', r, PAGE * current, p.bytes) && OnlyWrote(mem, mem', r, PAGE * current, size + 4)
    ensures Queue(mem', r, boundary, next, packets + [p])
    decreases |packets|
  {
    PagesHold(size);
    if packets == [] {
      NewFront(mem', r, current, p, size, next);
      assert Queue(mem', r, next, next, []);
    } else {
      var q := packets[0];
      FrontStays(mem, mem', r, boundary, current, q, size + 4, size, next);
      QueueAppends(mem, mem', r, q.bytes[1], current, packets[1..], p, size, next);
      RestOf(packets, [p]);
    }
  }

  /** The station address is not in the ring. */
  lemma AddressStays(mem: seq<Byte>, mem': seq<Byte>, r: Ring, at: nat, n: nat)
    requires |mem| == MEM_SIZE == |mem'| && r.Valid() && r.Has(at) && OnlyWrote(mem, mem', r, at, n)
    ensures forall a :: 0 <= a < 32 ==> mem'[a] == mem[a]
  {
    forall a | 0 <= a < 32
      ensures mem'[a] == mem[a]
    {
      assert Outside(r, at, n, a);
    }
  }

  /** An accepted packet in memory: it joins the queue unless it fills the ring. */
  lemma TakenInQueue(mem: seq<Byte>, mem': seq<Byte>, r: Ring, m: Receiver, frame: seq<Byte>, next: nat)
    requires |mem| == MEM_SIZE == |mem'| && r.Valid() && Page(r, m.boundary) && Page(r, m.current)
    requires Queue(mem, r, m.boundary, m.current, m.waiting)
    requires 0 < |frame| <= MAX_FRAME && next == NextPage(r, m.current, |Padded(frame)|)
    requires PAGE * Pages(|Padded(frame)|) <= FreeOf(r, m.boundary, m.current)
    requires Holds(mem', r, PAGE * m.current, Packet(frame, next)) && OnlyWrote(mem, mem', r, PAGE * m.current, |Padded(frame)| + 4)
    ensures Page(r, next) && (next == m.boundary <==> Fills(r, m, frame))
    ensures Queue(mem', r, m.boundary, next, m.waiting + [Stored(m.current, Packet(frame, next))]) <==> !Fills(r, m, frame)
    ensures Fills(r, m, frame) ==> Queue(mem', r, m.boundary, next, [])
  {
    var p := Stored(m.current, Packet(frame, next));
    FreeAfter(r, m.boundary, m.current, |Padded(frame)|);
    FullLooksEmpty(mem', r, m.boundary, next, m.waiting + [p]);
    if !Fills(r, m, frame) {
      PacketFields(frame, next);
      QueueAppends(mem, mem', r, m.boundary, m.current, m.waiting, p, |Padded(frame)|, next);
    }
  }

  // ------------------------------------------------------------------------ card

  class Card {
    const mem: array<Byte>
    const hash: seq<Byte> -> nat
    var ring: Ring
    var curpag: nat
    var boundary: nat
    var stopped: bool
    var promiscuous: bool
    var broadcasts: bool
    var multicasts: bool
    var mult: set<nat>
    var rsr: Byte
    var received: bool
    var wide: bool
    var rsar: nat
    var rcnt: nat
    var dmaDone: bool
    ghost var stored: seq<Stored>

    ghost predicate Valid()
      reads this
    {
      mem.Length == MEM_SIZE && ring.Valid() && ring.first <= curpag < ring.last && ring.first <= boundary < ring.last
    }

    function Free(): int
      requires Valid()
      reads this
    {
      FreeOf(ring, boundary, curpag)
    }

    predicate BufferFull()
      requires Valid()
      reads this
    {
      Free() < MAX_FRAME + 4
    }

    function FilterNow(): Filter
      requires mem.Length == MEM_SIZE
      reads this, mem
    {
      Filter(promiscuous, broadcasts, multicasts, mult, hash, [mem[0], mem[2], mem[4], mem[6], mem[8], mem[10]])
    }

    /** The station's address is every other byte of the copied PROM. */
    lemma StationAddress(frame: seq<Byte>)
      requires mem.Length == MEM_SIZE && |frame| >= 6 && !promiscuous && frame[0] % 2 == 0
      ensures Passes(FilterNow(), frame) <==> forall i :: 0 <= i < 6 ==> frame[i] == mem[..][2 * i]
    {
      PassesWhen(FilterNow(), frame);
      var a := FilterNow().address;
      assert forall i :: 0 <= i < 6 ==> a[i] == mem[..][2 * i];
    }

    ghost function Now(): Receiver
      reads this
    {
      Receiver(boundary, curpag, stored)
    }

    constructor (ring: Ring, hash: seq<Byte> -> nat, prom: seq<Byte>)
      requires ring.Valid() && |prom| == 32
      ensures Valid() && this.ring == ring && fresh(mem) && Waiting() && stored == []
    {
      mem := new Byte[MEM_SIZE](i => if 0 <= i < 32 then prom[i] else 0);
      this.ring, this.hash := ring, hash;
      curpag, boundary, stopped := ring.first, ring.first, false;
      promiscuous, broadcasts, multicasts, mult := false, true, false, {};
      rsr, received, wide, rsar, rcnt, dmaDone := 0, false, false, 0, 0, false;
      stored := [];
    }

    /** The packets received and not yet taken. */
    ghost predicate Waiting()
      requires Valid()
      reads this, mem
    {
      Queue(mem[..], ring, boundary, curpag, stored)
    }

    method WriteBytes(at: nat, bytes: seq<Byte>)
      requires mem.Length == MEM_SIZE && at + |bytes| <= MEM_SIZE
      modifies mem
      ensures mem[..][at..at + |bytes|] == bytes
      ensures forall a :: 0 <= a < MEM_SIZE && !(at <= a < at + |bytes|) ==> mem[..][a] == old(mem[..])[a]
    {
      forall i | 0 <= i < |bytes| {
        mem[at + i] := bytes[i];
      }
    }

    /** Copying around the ring, up to its end and from its start. */
    method CopyAround(from: nat, data: seq<Byte>)
      requires Valid() && ring.Has(from) && |data| <= ring.Size()
      modifies mem
      ensures Holds(mem[..], ring, from, data)
      ensures OnlyWrote(old(mem[..]), mem[..], ring, from, |data|)
    {
      var index: nat, done: nat := from, 0;
      while done < |data|
        invariant done <= |data| && ring.Has(index) && index == ring.Plus(from, done)
        invariant Holds(mem[..], ring, from, data[..done])
        invariant OnlyWrote(old(mem[..]), mem[..], ring, from, done)
      {
        var avail := ring.Stop() - index;
        var len := |data| - done;
        if len > avail {
          len := avail;
        }
        ghost var was := mem[..];
        WriteBytes(index, data[done..done + len]);
        ChunkHolds(was, mem[..], ring, from, data, done, index, len);
        index, done := index + len, done + len;
        if index == ring.Stop() {
          index := ring.Start();
        }
      }
      assert data[..done] == data;
    }

    /** A frame from the network. */
    method Receive(frame: seq<Byte>) returns (taken: bool)
      requires Valid() && |frame| >= 6
      modifies this`curpag, this`rsr, this`received, this`stored, mem
      ensures Valid()
      ensures taken <==> |frame| <= 1514 && !stopped && old(Free()) >= 1518 && old(Passes(FilterNow(), frame))
      ensures taken <==> Accepts(ring, old(FilterNow()), stopped, old(Now()), frame)
      ensures !taken ==> curpag == old(curpag) && mem[..] == old(mem[..]) && stored == old(stored) && received == old(received)
      ensures
        taken ==>
          var size := |Padded(frame)|;
          && received && rsr == Status(frame)
          && curpag == NextPage(ring, old(curpag), size) && size + 4 <= PAGE * Pages(size) <= old(Free())
          && Holds(mem[..], ring, PAGE * old(curpag), Packet(frame, curpag))
          && OnlyWrote(old(mem[..]), mem[..], ring, PAGE * old(curpag), size + 4)
          && stored == old(stored) + [Stored(old(curpag), Packet(frame, curpag))]
    {
      if |frame| > MAX_FRAME || stopped || BufferFull() || !Passes(FilterNow(), frame) {
        return false;
      }
      TakeIn(frame);
      taken := true;
    }

    /** A frame from the network, with packets waiting. They all keep waiting, and
        the new one behind them, exactly when it leaves a page free: a packet that
        ends on the boundary makes a full ring look empty. */
    method Deliver(frame: seq<Byte>) returns (taken: bool)
      requires Valid() && Waiting() && |frame| >= 6
      modifies this`curpag, this`rsr, this`received, this`stored, mem
      ensures Valid() && Waiting() && FilterNow() == old(FilterNow())
      ensures taken <==> Accepts(ring, FilterNow(), stopped, old(Now()), frame)
      ensures Now() == if taken then Arrived(ring, old(Now()), frame) else old(Now())
      ensures
        taken ==>
          (Queue(mem[..], ring, boundary, curpag, old(stored) + [Stored(old(curpag), Packet(frame, curpag))]) <==> !Fills(ring, old(Now()), frame))
    {
      ghost var was, before := mem[..], Now();
      taken := Receive(frame);
      if taken {
        AddressStays(was, mem[..], ring, PAGE * before.current, |Padded(frame)| + 4);
        TakenInQueue(was, mem[..], ring, before, frame, curpag);
        if curpag == boundary {
          stored := [];
        }
      }
    }

    /** The address of the next packet, in bytes. */
    method NextAddress(size: nat) returns (next: nat)
      requires Valid() && PAGE * Pages(size) <= ring.Size()
      ensures next == PAGE * NextPage(ring, curpag, size)
      ensures Page(ring, next / 256) && next / 256 == NextPage(ring, curpag, size) < 256
    {
      var index := PAGE * curpag;
      next := index + (size + 4 + 4 + 255) / 256 * 256;
      if next >= ring.Stop() {
        next := next - ring.Size();
      }
      NextOn(ring, curpag, size);
    }

    /** An accepted frame goes into the ring. */
    method TakeIn(frame: seq<Byte>)
      requires Valid() && 6 <= |frame| <= MAX_FRAME && PAGE * Pages(|Padded(frame)|) <= Free()
      modifies this`curpag, this`rsr, this`received, this`stored, mem
      ensures
        var size := |Padded(frame)|;
        && received && rsr == Status(frame) && curpag == NextPage(ring, old(curpag), size) && Page(ring, curpag)
        && Holds(mem[..], ring, PAGE * old(curpag), Packet(frame, curpag))
        && OnlyWrote(old(mem[..]), mem[..], ring, PAGE * old(curpag), size + 4)
        && stored == old(stored) + [Stored(old(curpag), Packet(frame, curpag))]
    {
      hide Queue, Passes;
      var padded := Padded(frame);
      PagesHold(|padded|);
      var total := |padded| + 4;
      var next := NextAddress(|padded|);
      rsr := Status(frame);
      PutPacket(PAGE * curpag, [rsr, next / 256, total % 256, total / 256 % 256], padded);
      stored := stored + [Stored(curpag, Packet(frame, next / 256))];
      curpag, received := next / 256, true;
    }

    method PutPacket(at: nat, header: seq<Byte>, data: seq<Byte>)
      requires Valid() && ring.Has(at) && at + 4 < ring.Stop() && |header| == 4 && |data| + 4 <= ring.Size()
      modifies mem
      ensures Holds(mem[..], ring, at, header + data)
      ensures OnlyWrote(old(mem[..]), mem[..], ring, at, |data| + 4)
    {
      ghost var before := mem[..];
      WriteBytes(at, header);
      ghost var was := mem[..];
      CopyAround(at + 4, data);
      PacketHolds(before, was, mem[..], ring, at, header, data);
    }

    // Remote DMA.

    function ReadByte(at: nat): Byte
      requires mem.Length == MEM_SIZE
      reads this, mem
    {
      if at < 32 || PMEM_START <= at < MEM_SIZE then mem[at] else 0xff
    }

    method DmaUpdate(len: nat)
      modifies this`rsar, this`rcnt, this`dmaDone
      ensures rsar == (if old(rsar) + len == ring.Stop() then ring.Start() else old(rsar) + len)
      ensures rcnt == (if old(rcnt) <= len then 0 else old(rcnt) - len)
      ensures dmaDone <==> old(dmaDone) || old(rcnt) <= len
    {
      rsar := rsar + len;
      if rsar == ring.Stop() {
        rsar := ring.Start();
      }
      if rcnt <= len {
        rcnt, dmaDone := 0, true;
      } else {
        rcnt := rcnt - len;
      }
    }

    /** The data port: a byte, or with 16-bit transfers two of them. */
    method PortRead() returns (got: seq<Byte>)
      requires Valid()
      modifies this`rsar, this`rcnt, this`dmaDone
      ensures |got| == if wide then 2 else 1
      ensures !wide ==> got == [if old(rsar) < 32 || 0x4000 <= old(rsar) < 0xc000 then mem[old(rsar)] else 0xff]
      ensures
        wide ==>
          var even := old(rsar) - old(rsar) % 2;
          got == if even < 32 || PMEM_START <= even < MEM_SIZE then [mem[even], mem[even + 1]] else [0xff, 0xff]
      ensures rsar == (if old(rsar) + |got| == ring.Stop() then ring.Start() else old(rsar) + |got|)
      ensures rcnt == (if old(rcnt) <= |got| then 0 else old(rcnt) - |got|)
      ensures dmaDone <==> old(dmaDone) || old(rcnt) <= |got|
    {
      if wide {
        var even := rsar - rsar % 2;
        got := if even < 32 || PMEM_START <= even < MEM_SIZE then [mem[even], mem[even + 1]] else [0xff, 0xff];
        DmaUpdate(2);
      } else {
        got := [ReadByte(rsar)];
        DmaUpdate(1);
      }
    }

    /** A driver reading `n` bytes from an address in the ring gets them in order
        across the wrap, with 8- or 16-bit transfers; the last of these may bring
        one byte more. */
    method RemoteRead(at: nat, n: nat) returns (got: seq<Byte>)
      requires Valid() && ring.Has(at) && at % 2 == 0 && 0 < n < ring.Size()
      modifies this`rsar, this`rcnt, this`dmaDone
      ensures |got| == n && forall k :: 0 <= k < n ==> got[k] == mem[ring.Plus(at, k)]
      ensures rcnt == 0 && dmaDone
    {
      hide Queue;
      rsar, rcnt, dmaDone := at, n, false;
      var all := [];
      while |all| < n
        invariant |all| <= n + 1 <= ring.Size() && (wide ==> |all| % 2 == 0) && (!wide ==> |all| <= n)
        invariant rsar == ring.Plus(at, |all|)
        invariant rcnt == (if |all| < n then n - |all| else 0) && (|all| >= n ==> dmaDone)
        invariant forall k :: 0 <= k < |all| ==> all[k] == mem[ring.Plus(at, k)]
        decreases n - |all|
      {
        ghost var done := |all|;
        PlusTwice(ring, at, done, 1);
        if wide {
          EvenPlus(ring, at, done);
        }
        var more := PortRead();
        all := all + more;
      }
      got := all[..n];
    }

    /** A driver takes the packet at the boundary: the header first, then as many
        bytes as it says, and the boundary moves to the page it names. What it
        gets is the oldest packet waiting. */
    method TakePacket() returns (bytes: seq<Byte>)
      requires Valid() && Waiting() && stored != []
      modifies this`rsar, this`rcnt, this`dmaDone, this`boundary, this`stored
      ensures Valid() && Waiting()
      ensures bytes == old(stored)[0].bytes && stored == old(stored)[1..]
    {
      ghost var p := stored[0];
      PagesHold(|p.bytes| - 4);
      var header := RemoteRead(PAGE * boundary, 4);
      assert forall k :: 0 <= k < 4 ==> mem[..][ring.Plus(PAGE * boundary, k)] == p.bytes[k];
      bytes := RemoteRead(PAGE * boundary, Total(header));
      assert forall k :: 0 <= k < |p.bytes| ==> mem[..][ring.Plus(PAGE * boundary, k)] == p.bytes[k];
      boundary, stored := header[1], stored[1..];
    }

    /** Any run of arrivals and takes; the driver takes a packet when the pages say
        that there is one. */
    method Run(events: seq<Happening>) returns (taken: seq<seq<Byte>>)
      requires Valid() && Waiting() && Frames(events)
      modifies this`curpag, this`rsr, this`received, this`stored, this`rsar, this`rcnt, this`dmaDone, this`boundary, mem
      ensures Valid() && Waiting()
      ensures Now() == StateAfter(ring, old(FilterNow()), stopped, old(Now()), events)
      ensures taken == TakenOf(ring, old(FilterNow()), stopped, old(Now()), events)
    {
      taken := [];
      ghost var f, rest, all := FilterNow(), events, TakenOf(ring, FilterNow(), stopped, Now(), events);
      var i := 0;
      while i < |events|
        invariant i <= |events| && rest == events[i..] && Frames(rest) && Valid() && Waiting() && FilterNow() == f
        invariant StateAfter(ring, f, stopped, Now(), rest) == StateAfter(ring, f, stopped, old(Now()), events)
        invariant taken + TakenOf(ring, f, stopped, Now(), rest) == all
      {
        var packets := Happen(events[i]);
        Regroup(taken, packets, TakenOf(ring, f, stopped, Now(), rest[1..]));
        taken, rest, i := taken + packets, rest[1..], i + 1;
      }
      NothingAfter(taken, TakenOf(ring, f, stopped, Now(), rest));
    }

    method Happen(event: Happening) returns (packets: seq<seq<Byte>>)
      requires Valid() && Waiting() && (event.Arrive? ==> |event.frame| >= 6)
      modifies this`curpag, this`rsr, this`received, this`stored, this`rsar, this`rcnt, this`dmaDone, this`boundary, mem
      ensures Valid() && Waiting() && FilterNow() == old(FilterNow())
      ensures Now() == After(ring, FilterNow(), stopped, old(Now()), event) && packets == Given(old(Now()), event)
    {
      hide Packet;
      packets := [];
      FullLooksEmpty(mem[..], ring, boundary, curpag, stored);
      match event {
        case Arrive(frame) =>
          var arrived := Deliver(frame);
        case Take =>
          if boundary != curpag {
            var bytes := TakePacket();
            packets := [bytes];
          }
      }
    }
  }

  // ------------------------------------------------------------------------ runs

  /** The boundary and current pages and the packets between them. */
  datatype Receiver = Receiver(boundary: nat, current: nat, waiting: seq<Stored>)

  predicate Frames(events: seq<Happening>) {
    forall i :: 0 <= i < |events| && events[i].Arrive? ==> |events[i].frame| >= 6
  }

  predicate Accepts(r: Ring, f: Filter, stopped: bool, m: Receiver, frame: seq<Byte>)
    requires r.Valid() && |frame| >= 6
  {
    |frame| <= MAX_FRAME && !stopped && FreeOf(r, m.boundary, m.current) >= MAX_FRAME + 4 && Passes(f, frame)
  }

  /** The frame takes all the space there is. */
  predicate Fills(r: Ring, m: Receiver, frame: seq<Byte>)
    requires r.Valid()
  {
    PAGE * Pages(|Padded(frame)|) == FreeOf(r, m.boundary, m.current)
  }

  /** What an accepted frame leaves: one more packet, or with a ring filled to the
      boundary none that the driver or the card can know of. */
  function Arrived(r: Ring, m: Receiver, frame: seq<Byte>): Receiver
    requires r.Valid() && |frame| > 0
  {
    var next := NextPage(r, m.current, |Padded(frame)|);
    Receiver(m.boundary, next, if Fills(r, m, frame) then [] else m.waiting + [Stored(m.current, Packet(frame, next))])
  }

  function After(r: Ring, f: Filter, stopped: bool, m: Receiver, event: Happening): Receiver
    requires r.Valid() && (event.Arrive? ==> |event.frame| >= 6)
  {
    match event
    case Arrive(frame) => if Accepts(r, f, stopped, m, frame) then Arrived(r, m, frame) else m
    case Take =>
      if m.waiting == [] then m
      else Receiver(if |m.waiting| == 1 then m.current else m.waiting[1].page, m.current, m.waiting[1..])
  }

  function Given(m: Receiver, event: Happening): seq<seq<Byte>> {
    if event.Take? && m.waiting != [] then [m.waiting[0].bytes] else []
  }

  function StateAfter(r: Ring, f: Filter, stopped: bool, m: Receiver, events: seq<Happening>): Receiver
    requires r.Valid() && Frames(events)
    decreases |events|
  {
    if events == [] then m else StateAfter(r, f, stopped, After(r, f, stopped, m, events[0]), events[1..])
  }

  function TakenOf(r: Ring, f: Filter, stopped: bool, m: Receiver, events: seq<Happening>): seq<seq<Byte>>
    requires r.Valid() && Frames(events)
    decreases |events|
  {
    if events == [] then [] else Given(m, events[0]) + TakenOf(r, f, stopped, After(r, f, stopped, m, events[0]), events[1..])
  }

  /** The packet an event adds, if it is an accepted frame. */
  function Accepted(r: Ring, f: Filter, stopped: bool, m: Receiver, event: Happening): seq<seq<Byte>>
    requires r.Valid() && (event.Arrive? ==> |event.frame| >= 6)
  {
    if event.Arrive? && Accepts(r, f, stopped, m, event.frame) then
      [Packet(event.frame, NextPage(r, m.current, |Padded(event.frame)|))]
    else []
  }

  function AllAccepted(r: Ring, f: Filter, stopped: bool, m: Receiver, events: seq<Happening>): seq<seq<Byte>>
    requires r.Valid() && Frames(events)
    decreases |events|
  {
    if events == [] then []
    else Accepted(r, f, stopped, m, events[0]) + AllAccepted(r, f, stopped, After(r, f, stopped, m, events[0]), events[1..])
  }

  /** No accepted frame fills the ring. */
  predicate NeverFills(r: Ring, f: Filter, stopped: bool, m: Receiver, events: seq<Happening>)
    requires r.Valid() && Frames(events)
    decreases |events|
  {
    events != [] ==>
      && !(events[0].Arrive? && Accepts(r, f, stopped, m, events[0].frame) && Fills(r, m, events[0].frame))
      && NeverFills(r, f, stopped, After(r, f, stopped, m, events[0]), events[1..])
  }

  function BytesOf(packets: seq<Stored>): (bytes: seq<seq<Byte>>)
    ensures |bytes| == |packets|
  {
    if packets == [] then [] else [packets[0].bytes] + BytesOf(packets[1..])
  }

  /** The driver gets the accepted frames in order, each once and whole, and the
      rest are waiting, exactly if none of them fills the ring. */
  lemma {:induction false} NothingLostIff(r: Ring, f: Filter, stopped: bool, m: Receiver, events: seq<Happening>)
    requires r.Valid() && Frames(events)
    ensures
      var got := TakenOf(r, f, stopped, m, events) + BytesOf(StateAfter(r, f, stopped, m, events).waiting);
      var due := BytesOf(m.waiting) + AllAccepted(r, f, stopped, m, events);
      |got| <= |due| && (got == due <==> NeverFills(r, f, stopped, m, events))
    decreases |events|
  {
    if events == [] {
      NothingAfter(BytesOf(m.waiting), AllAccepted(r, f, stopped, m, events));
      NothingBefore(TakenOf(r, f, stopped, m, events), BytesOf(m.waiting));
    } else {
      var m', rest := After(r, f, stopped, m, events[0]), events[1..];
      NothingLostIff(r, f, stopped, m', rest);
      AfterOne(r, f, stopped, m, events[0]);
      LostOne(Given(m, events[0]), TakenOf(r, f, stopped, m', rest), BytesOf(StateAfter(r, f, stopped, m', rest).waiting),
              BytesOf(m.waiting), BytesOf(m'.waiting), Accepted(r, f, stopped, m, events[0]), AllAccepted(r, f, stopped, m', rest));
    }
  }

  lemma AfterOne(r: Ring, f: Filter, stopped: bool, m: Receiver, event: Happening)
    requires r.Valid() && (event.Arrive? ==> |event.frame| >= 6)
    ensures
      var got, due := Given(m, event) + BytesOf(After(r, f, stopped, m, event).waiting), BytesOf(m.waiting) + Accepted(r, f, stopped, m, event);
      |got| <= |due| && (got == due <==> !(event.Arrive? && Accepts(r, f, stopped, m, event.frame) && Fills(r, m, event.frame)))
      && (got != due ==> |got| < |due|)
  {
    var m', more := After(r, f, stopped, m, event), Accepted(r, f, stopped, m, event);
    if more == [] {
      NothingAfter(BytesOf(m.waiting), more);
      NothingBefore(Given(m, event)[|Given(m, event)|..], BytesOf(m'.waiting));
    } else {
      NothingBefore(Given(m, event), BytesOf(m'.waiting));
      BytesApart(m.waiting, [Stored(m.current, more[0])]);
    }
  }

  lemma LostOne(given: seq<seq<Byte>>, taken: seq<seq<Byte>>, left: seq<seq<Byte>>, waiting: seq<seq<Byte>>,
                waiting': seq<seq<Byte>>, now: seq<seq<Byte>>, later: seq<seq<Byte>>)
    requires |taken + left| <= |waiting' + later| && (given + waiting' == waiting + now || |given + waiting'| < |waiting + now|)
    ensures |given + taken + left| <= |waiting + (now + later)|
    ensures given + taken + left == waiting + (now + later) <==> given + waiting' == waiting + now && taken + left == waiting' + later
  {
    Regroup(given, taken, left);
    Regroup(waiting, now, later);
    Regroup(given, waiting', later);
    if given + waiting' == waiting + now {
      SameBehind(given, taken + left, waiting' + later);
    }
  }

  /** Six pages of ring, empty, and one frame of the largest size: accepted, and
      never seen by the driver. */
  lemma FilledAtOnce(hash: seq<Byte> -> nat, frame: seq<Byte>)
    requires |frame| == MAX_FRAME
    ensures
      var r, f, m := Ring(0x40, 0x46), Filter(true, true, false, {}, hash, []), Receiver(0x40, 0x40, []);
      && r.Valid() && Accepts(r, f, false, m, frame) && Fills(r, m, frame)
      && TakenOf(r, f, false, m, [Arrive(frame), Take]) == [] && StateAfter(r, f, false, m, [Arrive(frame), Take]) == m
      && AllAccepted(r, f, false, m, [Arrive(frame), Take]) == [Packet(frame, 0x40)]
  {
    var r, f, m := Ring(0x40, 0x46), Filter(true, true, false, {}, hash, []), Receiver(0x40, 0x40, []);
    assert Padded(frame) == frame && NextPage(r, 0x40, MAX_FRAME) == 0x40;
    assert [Arrive(frame), Take][1..] == [Take] && [Take][1..] == [];
    assert After(r, f, false, m, Arrive(frame)) == m;
  }

  datatype Happening = Arrive(frame: seq<Byte>) | Take

  lemma {:induction false} BytesApart(a: seq<Stored>, b: seq<Stored>)
    ensures BytesOf(a + b) == BytesOf(a) + BytesOf(b)
  {
    if a == [] {
      assert a + b == b;
    } else {
      assert (a + b)[1..] == a[1..] + b;
      BytesApart(a[1..], b);
    }
  }

  /** The ring's ends are even, so a word never crosses its end. */
  lemma EvenPlus(r: Ring, at: nat, k: nat)
    requires r.Valid() && r.Has(at) && at % 2 == 0 && k % 2 == 0 && k + 1 < r.Size()
    ensures r.Plus(at, k) % 2 == 0 && r.Plus(at, k) + 1 < r.Stop() && r.Plus(at, k + 1) == r.Plus(at, k) + 1
  {
    assert r.Stop() % 2 == 0 && r.Size() % 2 == 0;
  }

  lemma PacketHolds(before: seq<Byte>, mem: seq<Byte>, mem': seq<Byte>, r: Ring, at: nat, header: seq<Byte>, data: seq<Byte>)
    requires |before| == |mem| == |mem'| == MEM_SIZE && r.Valid() && r.Has(at) && at + 4 < r.Stop() && |header| == 4 && |data| + 4 <= r.Size()
    requires mem[at..at + 4] == header
    requires forall a :: 0 <= a < MEM_SIZE && !(at <= a < at + 4) ==> mem[a] == before[a]
    requires Holds(mem', r, at + 4, data) && OnlyWrote(mem, mem', r, at + 4, |data|)
    ensures Holds(mem', r, at, header + data)
    ensures OnlyWrote(before, mem', r, at, |data| + 4)
  {
    forall k | 0 <= k < 4 + |data|
      ensures mem'[r.Plus(at, k)] == (header + data)[k]
    {
      if k < 4 {
        assert mem[at..at + 4][k] == header[k];
        assert Outside(r, at + 4, |data|, at + k);
      } else {
        PlusTwice(r, at, 4, k - 4);
      }
    }
    forall a | 0 <= a < MEM_SIZE && Outside(r, at, |data| + 4, a)
      ensures mem'[a] == before[a]
    {
      assert Outside(r, at + 4, |data|, a);
    }
  }

  lemma ChunkHolds(mem: seq<Byte>, mem': seq<Byte>, r: Ring, from: nat, data: seq<Byte>, done: nat, index: nat, len: nat)
    requires |mem| == MEM_SIZE == |mem'| && r.Valid() && r.Has(from) && done + len <= |data| <= r.Size()
    requires index == r.Plus(from, done) && index + len <= r.Stop()
    requires mem'[index..index + len] == data[done..done + len]
    requires forall a :: 0 <= a < MEM_SIZE && !(index <= a < index + len) ==> mem'[a] == mem[a]
    requires Holds(mem, r, from, data[..done])
    ensures Holds(mem', r, from, data[..done + len])
    ensures forall a :: 0 <= a < MEM_SIZE && Outside(r, from, done + len, a) ==> mem'[a] == mem[a]
  {
    forall k | 0 <= k < done + len
      ensures mem'[r.Plus(from, k)] == data[k]
    {
      if k >= done {
        PlusTwice(r, from, done, k - done);
        assert mem'[index..index + len][k - done] == data[done..done + len][k - done];
      } else {
        assert mem[r.Plus(from, k)] == data[..done][k];
      }
    }
  }
}
