/** What a READ or WRITE of `n` sectors comes to, block by block, with the address
    registers as the only record of where it stands. */
module AtaTransfer {
  import opened Arithmetic
  import opened AtaAddress
  import opened DataPort
  import opened Sequences

  const SECTOR := 512

  // -------------------------------------------------------------------- sectors

  predicate WholeSectors(disk: seq<seq<Byte>>) {
    forall i :: 0 <= i < |disk| ==> |disk[i]| == SECTOR
  }

  /** The bytes of `n` sectors. */
  function Flat(disk: seq<seq<Byte>>, at: int, n: nat): (r: seq<Byte>)
    requires WholeSectors(disk) && (n > 0 ==> 0 <= at && at + n <= |disk|)
    ensures |r| == SECTOR * n
    decreases n
  {
    if n == 0 then [] else disk[at] + Flat(disk, at + 1, n - 1)
  }

  /** The disk with `n` sectors replaced from `at` on. */
  function Put(disk: seq<seq<Byte>>, at: int, bytes: seq<Byte>, n: nat): (r: seq<seq<Byte>>)
    requires WholeSectors(disk) && |bytes| == SECTOR * n && (n > 0 ==> 0 <= at && at + n <= |disk|)
    ensures |r| == |disk| && WholeSectors(r)
    decreases n
  {
    if n == 0 then disk else Put(disk[at := bytes[..SECTOR]], at + 1, bytes[SECTOR..], n - 1)
  }

  lemma {:induction false} FlatApart(disk: seq<seq<Byte>>, at: int, m: nat, n: nat)
    requires WholeSectors(disk) && (m + n > 0 ==> 0 <= at && at + m + n <= |disk|)
    ensures Flat(disk, at, m + n) == Flat(disk, at, m) + Flat(disk, at + m, n)
    decreases m
  {
    if m > 0 {
      FlatApart(disk, at + 1, m - 1, n);
    }
  }

  lemma {:induction false} PutApart(disk: seq<seq<Byte>>, at: int, a: seq<Byte>, m: nat, b: seq<Byte>, n: nat)
    requires WholeSectors(disk) && |a| == SECTOR * m && |b| == SECTOR * n
    requires m + n > 0 ==> 0 <= at && at + m + n <= |disk|
    ensures Put(Put(disk, at, a, m), at + m, b, n) == Put(disk, at, a + b, m + n)
    decreases m
  {
    if m == 0 {
      assert a + b == b;
    } else {
      assert (a + b)[..SECTOR] == a[..SECTOR] && (a + b)[SECTOR..] == a[SECTOR..] + b;
      PutApart(disk[at := a[..SECTOR]], at + 1, a[SECTOR..], m - 1, b, n);
    }
  }

  /** Sector `i` of them is bytes 512 i to 512 i + 511. */
  lemma {:induction false} FlatAt(disk: seq<seq<Byte>>, at: nat, n: nat, i: nat)
    requires WholeSectors(disk) && at + n <= |disk| && i < n
    ensures Flat(disk, at, n)[512 * i..512 * i + 512] == disk[at + i]
    decreases i
  {
    var rest := Flat(disk, at + 1, n - 1);
    if i == 0 {
      assert (disk[at] + rest)[..512] == disk[at];
    } else {
      FlatAt(disk, at + 1, n - 1, i - 1);
      assert (disk[at] + rest)[512 * i..512 * i + 512] == rest[512 * (i - 1)..512 * (i - 1) + 512];
    }
  }

  /** Exactly the sectors written change, and reading them gives what was written. */
  lemma {:induction false} PutReplaces(disk: seq<seq<Byte>>, at: nat, bytes: seq<Byte>, n: nat)
    requires WholeSectors(disk) && |bytes| == SECTOR * n && at + n <= |disk|
    ensures Flat(Put(disk, at, bytes, n), at, n) == bytes
    ensures forall i :: 0 <= i < |disk| && !(at <= i < at + n) ==> Put(disk, at, bytes, n)[i] == disk[i]
    decreases n
  {
    if n > 0 {
      PutReplaces(disk[at := bytes[..SECTOR]], at + 1, bytes[SECTOR..], n - 1);
      assert bytes == bytes[..SECTOR] + bytes[SECTOR..];
    }
  }

  // --------------------------------------------------------------------- blocks

  datatype Extent = Extent(at: int, count: nat)

  predicate Held(size: nat, e: Extent) {
    0 <= e.at && e.at + e.count <= size
  }

  predicate AllHeld(size: nat, es: seq<Extent>) {
    es == [] || (Held(size, es[0]) && AllHeld(size, es[1..]))
  }

  /** The next block of `n` sectors, at most `per` at a time. */
  function Least(n: nat, per: nat): nat {
    if n > per then per else n
  }

  function NextExtent(g: Geometry, a: Address, n: nat, per: nat): Extent {
    Extent(GetSector(g, a), Least(n, per))
  }

  /** The registers past a block that has been moved. */
  function Past(g: Geometry, a: Address, e: Extent): Address
    requires g.Valid() && 0 <= e.at
  {
    SetSector(g, a, e.at + e.count)
  }

  /** The blocks that a transfer of `n` sectors moves, each from where the
      registers then stand, up to the first that the disk does not have. */
  function Moved(g: Geometry, size: nat, a: Address, n: nat, per: nat): (r: seq<Extent>)
    requires g.Valid() && per > 0
    ensures AllHeld(size, r) && Total(r) <= n
    decreases n
  {
    var e := NextExtent(g, a, n, per);
    if n == 0 || !Held(size, e) then [] else [e] + Moved(g, size, Past(g, a, e), n - e.count, per)
  }

  lemma MovedNext(g: Geometry, size: nat, a: Address, n: nat, per: nat, e: Extent)
    requires g.Valid() && per > 0 && e == NextExtent(g, a, n, per)
    ensures
      Moved(g, size, a, n, per) ==
      if n > 0 && Held(size, e) then [e] + Moved(g, size, Past(g, a, e), n - e.count, per) else []
  {
  }

  function Total(es: seq<Extent>): nat {
    if es == [] then 0 else es[0].count + Total(es[1..])
  }

  /** The registers when these blocks have been moved. */
  function AddressAfter(g: Geometry, size: nat, a: Address, es: seq<Extent>): Address
    requires g.Valid() && AllHeld(size, es)
    decreases |es|
  {
    if es == [] then a else AddressAfter(g, size, Past(g, a, es[0]), es[1..])
  }

  /** The bytes of these blocks. */
  function Gathered(disk: seq<seq<Byte>>, es: seq<Extent>): (r: seq<Byte>)
    requires WholeSectors(disk) && AllHeld(|disk|, es)
  {
    if es == [] then [] else Flat(disk, es[0].at, es[0].count) + Gathered(disk, es[1..])
  }

  /** The disk with these blocks written, one after the other. */
  function Scattered(disk: seq<seq<Byte>>, es: seq<Extent>, data: seq<Byte>): (r: seq<seq<Byte>>)
    requires WholeSectors(disk) && AllHeld(|disk|, es) && SECTOR * Total(es) <= |data|
    ensures |r| == |disk| && WholeSectors(r)
    decreases |es|
  {
    if es == [] then disk
    else
      var k := SECTOR * es[0].count;
      Scattered(Put(disk, es[0].at, data[..k], es[0].count), es[1..], data[k..])
  }

  // --------------------------------------------------------------------- events

  /** What the host sees of a read: each block with an interrupt and its words;
      then nothing more, or an error. */
  function ReadLog(disk: seq<seq<Byte>>, es: seq<Extent>, whole: bool): seq<Event>
    requires WholeSectors(disk) && AllHeld(|disk|, es)
  {
    if es == [] then [if whole then QuietEnd else Errored]
    else
      [DataReady(SECTOR * es[0].count)] + WordEvents(Flat(disk, es[0].at, es[0].count)) + ReadLog(disk, es[1..], whole)
  }

  /** What the host sees of a write: it is asked for each block, the first time
      without an interrupt, and sends its words; the block that cannot be written
      fails when it has been sent. */
  function WriteLog(es: seq<Extent>, n: nat, per: nat, data: seq<Byte>, first: bool): seq<Event>
    requires per > 0 && |data| == SECTOR * n
    decreases n, 1
  {
    if n == 0 then [Finished]
    else
      var k := SECTOR * Least(n, per);
      [if first then QuietlyReady(k) else DataReady(k)] + WordEvents(data[..k]) + LogAfter(es, n, per, data)
  }

  /** What follows when the block has been sent. */
  function LogAfter(es: seq<Extent>, n: nat, per: nat, data: seq<Byte>): seq<Event>
    requires per > 0 && |data| == SECTOR * n && n > 0
    decreases n, 0
  {
    if es == [] then [Errored]
    else WriteLog(es[1..], n - Least(n, per), per, data[SECTOR * Least(n, per)..], false)
  }

  /** How a transfer ends: what was seen of it, what was read or what the disk has
      become, the address registers, and the number of sectors not moved. */
  datatype Outcome<T> = Outcome(log: seq<Event>, what: T, address: Address, left: nat) {
    function After(events: seq<Event>): Outcome<T> {
      this.(log := events + log)
    }
  }

  function ReadOf(g: Geometry, disk: seq<seq<Byte>>, a: Address, n: nat, per: nat): Outcome<seq<Byte>>
    requires g.Valid() && WholeSectors(disk) && per > 0
  {
    var es := Moved(g, |disk|, a, n, per);
    Outcome(ReadLog(disk, es, Total(es) == n), Gathered(disk, es), AddressAfter(g, |disk|, a, es), n - Total(es))
  }

  /** A disk that cannot be written takes no block. */
  function Room(disk: seq<seq<Byte>>, writable: bool): nat {
    if writable then |disk| else 0
  }

  function Taken(g: Geometry, disk: seq<seq<Byte>>, writable: bool, a: Address, n: nat, per: nat): (es: seq<Extent>)
    requires g.Valid() && per > 0
    ensures AllHeld(|disk|, es) && Total(es) <= n && (!writable ==> es == [])
  {
    var es := Moved(g, Room(disk, writable), a, n, per);
    assert !writable && n > 0 ==> !Held(0, NextExtent(g, a, n, per));
    es
  }

  /** What a WRITE comes to from the asking for its next block on. */
  function WriteOf(g: Geometry, disk: seq<seq<Byte>>, writable: bool, a: Address, n: nat, per: nat, data: seq<Byte>, first: bool):
      Outcome<seq<seq<Byte>>>
    requires g.Valid() && WholeSectors(disk) && per > 0 && |data| == SECTOR * n
  {
    var es := Taken(g, disk, writable, a, n, per);
    Outcome(WriteLog(es, n, per, data, first), Scattered(disk, es, data), AddressAfter(g, |disk|, a, es), n - Total(es))
  }

  /** What it comes to when that block has been sent. */
  function WriteSent(g: Geometry, disk: seq<seq<Byte>>, writable: bool, a: Address, n: nat, per: nat, data: seq<Byte>):
      Outcome<seq<seq<Byte>>>
    requires g.Valid() && WholeSectors(disk) && per > 0 && |data| == SECTOR * n && n > 0
  {
    var es := Taken(g, disk, writable, a, n, per);
    Outcome(LogAfter(es, n, per, data), Scattered(disk, es, data), AddressAfter(g, |disk|, a, es), n - Total(es))
  }

  // ---------------------------------------------------------------- block by block

  /** A transfer with a block ready to be read, what is behind it coming to `o`. */
  function Joined(log: seq<Event>, bytes: seq<Byte>, o: Outcome<seq<Byte>>): Outcome<seq<Byte>> {
    Outcome(log + WordEvents(bytes) + o.log, bytes + o.what, o.address, o.left)
  }

  lemma ReadNext(g: Geometry, disk: seq<seq<Byte>>, a: Address, n: nat, per: nat, e: Extent)
    requires g.Valid() && WholeSectors(disk) && per > 0 && n > 0 && e == NextExtent(g, a, n, per)
    ensures
      ReadOf(g, disk, a, n, per) ==
      if Held(|disk|, e) then
        Joined([DataReady(SECTOR * e.count)], Flat(disk, e.at, e.count), ReadOf(g, disk, Past(g, a, e), n - e.count, per))
      else Outcome([Errored], [], a, n)
  {
    hide Moved, GetSector, SetSector, Flat, WordEvents;
    MovedNext(g, |disk|, a, n, per, e);
  }

  lemma ReadEnds(g: Geometry, disk: seq<seq<Byte>>, a: Address, per: nat)
    requires g.Valid() && WholeSectors(disk) && per > 0
    ensures ReadOf(g, disk, a, 0, per) == Outcome([QuietEnd], [], a, 0)
  {
  }

  lemma JoinedAfter(log: seq<Event>, e: Event, bytes: seq<Byte>, o: Outcome<seq<Byte>>)
    ensures Joined([e], bytes, o).After(log) == Joined(log + [e], bytes, o)
  {
    assert log + ([e] + WordEvents(bytes) + o.log) == log + [e] + WordEvents(bytes) + o.log;
  }

  /** A word read. */
  lemma WordTaken(log: seq<Event>, bytes: seq<Byte>, o: Outcome<seq<Byte>>, low: Byte, high: Byte)
    requires |bytes| >= 2 && low == bytes[0] && high == bytes[1]
    ensures
      var was, next := Joined(log, bytes, o), Joined(log + [Word(low, high)], bytes[2..], o);
      && |was.what| >= 2 && [low, high] == was.what[..2] && next == was.(what := was.what[2..])
  {
    var words := WordEvents(bytes[2..]);
    assert log + ([Word(low, high)] + words) == log + [Word(low, high)] + words;
    assert (bytes + o.what)[2..] == bytes[2..] + o.what;
    assert [low, high] == (bytes + o.what)[..2];
  }

  lemma BlockRead(log: seq<Event>, bytes: seq<Byte>, o: Outcome<seq<Byte>>)
    requires bytes == []
    ensures Joined(log, bytes, o) == o.After(log)
  {
    assert log + WordEvents(bytes) == log && bytes + o.what == o.what;
  }

  lemma TakenNext(g: Geometry, disk: seq<seq<Byte>>, writable: bool, a: Address, n: nat, per: nat, e: Extent)
    requires g.Valid() && WholeSectors(disk) && per > 0 && n > 0 && e == NextExtent(g, a, n, per)
    ensures
      Taken(g, disk, writable, a, n, per) ==
      if Held(Room(disk, writable), e) then [e] + Taken(g, disk, writable, Past(g, a, e), n - e.count, per) else []
  {
    hide Moved, GetSector, SetSector;
    MovedNext(g, Room(disk, writable), a, n, per, e);
  }

  lemma WriteGoesOn(g: Geometry, disk: seq<seq<Byte>>, writable: bool, a: Address, n: nat, per: nat, e: Extent,
                    block: seq<Byte>, rest: seq<Byte>)
    requires g.Valid() && WholeSectors(disk) && per > 0 && n > 0 && e == NextExtent(g, a, n, per)
    requires Held(Room(disk, writable), e) && |block| == SECTOR * e.count && |rest| == SECTOR * (n - e.count)
    ensures
      WriteSent(g, disk, writable, a, n, per, block + rest) ==
      WriteOf(g, Put(disk, e.at, block, e.count), writable, Past(g, a, e), n - e.count, per, rest, false)
  {
    hide Moved, Put, GetSector, SetSector, WriteLog;
    TakenNext(g, disk, writable, a, n, per, e);
    var k, next := SECTOR * e.count, Put(disk, e.at, block, e.count);
    var es := Taken(g, disk, writable, Past(g, a, e), n - e.count, per);
    assert es == Taken(g, next, writable, Past(g, a, e), n - e.count, per);
    assert ([e] + es)[1..] == es;
    assert (block + rest)[..k] == block && (block + rest)[k..] == rest;
  }

  lemma WriteStops(g: Geometry, disk: seq<seq<Byte>>, writable: bool, a: Address, n: nat, per: nat, data: seq<Byte>)
    requires g.Valid() && WholeSectors(disk) && per > 0 && n > 0 && |data| == SECTOR * n
    requires !Held(Room(disk, writable), NextExtent(g, a, n, per))
    ensures WriteSent(g, disk, writable, a, n, per, data) == Outcome([Errored], disk, a, n)
  {
    TakenNext(g, disk, writable, a, n, per, NextExtent(g, a, n, per));
  }

  lemma WriteEnds(g: Geometry, disk: seq<seq<Byte>>, writable: bool, a: Address, per: nat, data: seq<Byte>, first: bool)
    requires g.Valid() && WholeSectors(disk) && per > 0 && data == []
    ensures WriteOf(g, disk, writable, a, 0, per, data, first) == Outcome([Finished], disk, a, 0)
  {
  }

  /** A block asked for, none of it sent. */
  lemma WriteAsks(g: Geometry, disk: seq<seq<Byte>>, writable: bool, a: Address, n: nat, per: nat, data: seq<Byte>, first: bool,
                  log: seq<Event>)
    requires g.Valid() && WholeSectors(disk) && per > 0 && n > 0 && |data| == SECTOR * n
    ensures
      var k := SECTOR * Least(n, per);
      WriteOf(g, disk, writable, a, n, per, data, first).After(log) ==
      WriteSent(g, disk, writable, a, n, per, data).After(log + [if first then QuietlyReady(k) else DataReady(k)] + WordEvents(data[..k]))
  {
    hide Taken, Scattered, AddressAfter, LogAfter, WordEvents;
    var k, es := SECTOR * Least(n, per), Taken(g, disk, writable, a, n, per);
    var ask, words, more := [if first then QuietlyReady(k) else DataReady(k)], WordEvents(data[..k]), LogAfter(es, n, per, data);
    assert log + (ask + words + more) == log + ask + words + more;
  }

  lemma NoWords(log: seq<Event>, bytes: seq<Byte>)
    requires bytes == []
    ensures log + WordEvents(bytes) == log
  {
  }

  lemma WordSent(log: seq<Event>, sent: seq<Byte>, rest: seq<Byte>, m: nat, low: Byte, high: Byte)
    requires m <= |rest|
    ensures sent + ([low, high] + rest) == sent + [low, high] + rest
    ensures log + WordEvents(([low, high] + rest)[..2 + m]) == log + [Word(low, high)] + WordEvents(rest[..m])
  {
    var bytes := ([low, high] + rest)[..2 + m];
    assert bytes[2..] == rest[..m];
    assert log + ([Word(low, high)] + WordEvents(rest[..m])) == log + [Word(low, high)] + WordEvents(rest[..m]);
  }

  /** The 8-bit count goes down by blocks as the number it stands for does. */
  lemma CountDown(count: nat, left: nat, k: nat)
    requires 0 < k <= left <= 256 && count == if left == 256 then 0 else left
    ensures (count - k) % 256 == left - k
  {
  }

  // --------------------------------------------------------- consecutive sectors

  /** The sectors in whole blocks that the disk has from `at` on. */
  function Fits(size: nat, at: int, n: nat, per: nat): (f: nat)
    requires per > 0
    ensures f <= n && (f > 0 ==> 0 <= at && at + f <= size)
    decreases n
  {
    var k := Least(n, per);
    if n == 0 || at < 0 || at + k > size then 0 else k + Fits(size, at + k, n - k, per)
  }

  lemma {:induction false} AllFit(size: nat, at: int, n: nat, per: nat)
    requires per > 0
    ensures Fits(size, at, n, per) == n <==> n == 0 || (0 <= at && at + n <= size)
    decreases n
  {
    var k := Least(n, per);
    if n > 0 && 0 <= at && at + k <= size {
      AllFit(size, at + k, n - k, per);
    }
  }

  /** The blocks of a transfer of consecutive sectors. */
  function Plain(size: nat, at: int, n: nat, per: nat): (r: seq<Extent>)
    requires per > 0
    ensures AllHeld(size, r) && Total(r) == Fits(size, at, n, per)
    decreases n
  {
    var e := Extent(at, Least(n, per));
    if n == 0 || !Held(size, e) then [] else [e] + Plain(size, at + e.count, n - e.count, per)
  }

  lemma PlainNext(size: nat, at: int, n: nat, per: nat, e: Extent)
    requires per > 0 && e == Extent(at, Least(n, per))
    ensures
      if n > 0 && Held(size, e) then
        && Plain(size, at, n, per) == [e] + Plain(size, at + e.count, n - e.count, per)
        && Fits(size, at, n, per) == e.count + Fits(size, at + e.count, n - e.count, per)
      else Plain(size, at, n, per) == [] && Fits(size, at, n, per) == 0
  {
  }

  predicate Adjoin(e: Extent, f: Extent) {
    f.at == e.at + e.count
  }

  /** They follow each other from `at` on, none over `per`, and only the last of
      the transfer can be under it. */
  lemma {:induction false} PlainBlocks(size: nat, at: int, n: nat, per: nat, i: nat)
    requires per > 0 && i < |Plain(size, at, n, per)|
    ensures
      var p := Plain(size, at, n, per);
      && p[0].at == at && 0 < p[i].count <= per
      && (i + 1 < |p| ==> p[i].count == per && Adjoin(p[i], p[i + 1]))
    decreases n
  {
    hide Plain, Fits, AllHeld, Total;
    var e := Extent(at, Least(n, per));
    PlainNext(size, at, n, per, e);
    var rest := Plain(size, at + e.count, n - e.count, per);
    if i > 0 {
      PlainBlocks(size, at + e.count, n - e.count, per, i - 1);
    } else if |rest| > 0 {
      PlainNext(size, at + e.count, n - e.count, per, Extent(at + e.count, Least(n - e.count, per)));
      PlainBlocks(size, at + e.count, n - e.count, per, 0);
    }
  }

  lemma NoSectors(disk: seq<seq<Byte>>, es: seq<Extent>, at: int, data: seq<Byte>)
    requires WholeSectors(disk) && es == []
    ensures Gathered(disk, es) == [] && Scattered(disk, es, data) == disk && Flat(disk, at, 0) == []
  {
  }

  lemma {:induction false} PlainGathered(disk: seq<seq<Byte>>, at: int, n: nat, per: nat)
    requires WholeSectors(disk) && per > 0
    ensures Gathered(disk, Plain(|disk|, at, n, per)) == Flat(disk, at, Fits(|disk|, at, n, per))
    decreases n
  {
    hide Plain, Fits, AllHeld, Total, Flat;
    var k := Least(n, per);
    PlainNext(|disk|, at, n, per, Extent(at, k));
    NoSectors(disk, [], at, []);
    if n > 0 && Held(|disk|, Extent(at, k)) {
      PlainGathered(disk, at + k, n - k, per);
      FlatApart(disk, at, k, Fits(|disk|, at + k, n - k, per));
    }
  }

  lemma {:induction false} PlainScattered(disk: seq<seq<Byte>>, at: int, n: nat, per: nat, data: seq<Byte>)
    requires WholeSectors(disk) && per > 0 && SECTOR * n <= |data|
    ensures
      var f := Fits(|disk|, at, n, per);
      Scattered(disk, Plain(|disk|, at, n, per), data) == Put(disk, at, data[..SECTOR * f], f)
    decreases n
  {
    hide Plain, Fits;
    var k := Least(n, per);
    PlainNext(|disk|, at, n, per, Extent(at, k));
    if n > 0 && Held(|disk|, Extent(at, k)) {
      var f := Fits(|disk|, at + k, n - k, per);
      PlainScattered(Put(disk, at, data[..SECTOR * k], k), at + k, n - k, per, data[SECTOR * k..]);
      TakeOn(data, SECTOR * k, SECTOR * f);
      PutApart(disk, at, data[..SECTOR * k], k, data[SECTOR * k..][..SECTOR * f], f);
    }
  }

  /** The registers come to the end of the consecutive sectors moved. */
  lemma {:induction false} PlainArrives(g: Geometry, size: nat, a: Address, at: int, n: nat, per: nat)
    requires g.Valid() && per > 0
    ensures
      var f := Fits(size, at, n, per);
      AddressAfter(g, size, a, Plain(size, at, n, per)) == if f == 0 then a else SetSector(g, a, at + f)
    decreases n
  {
    hide SetSector;
    var e := Extent(at, Least(n, per));
    if n > 0 && Held(size, e) {
      var b, f := Past(g, a, e), Fits(size, at + e.count, n - e.count, per);
      PlainArrives(g, size, b, at + e.count, n - e.count, per);
      SetTwice(g, a, at + e.count, b, at + e.count + f);
    }
  }

  // --------------------------------------------------------------- wrapping round

  /** No block after the first that the transfer comes to starts where the
      registers, which hold numbers below `cap`, cannot say: the last such block
      comes after `j` others, as many as there are and as the disk has. */
  predicate Straight(cap: nat, size: nat, at: int, n: nat, per: nat)
    requires per > 0
  {
    0 <= at <= size && n > 0 ==>
      var j := Least(Over(n - 1, per), Over(size - at, per));
      j == 0 || at + Times(j, per) < cap
  }

  lemma OneBlockIsStraight(cap: nat, size: nat, at: int, n: nat, per: nat)
    requires per > 0 && (n <= per || !Held(size, Extent(at, per)))
    ensures Straight(cap, size, at, n, per)
  {
  }

  lemma NextIsStraight(cap: nat, size: nat, at: int, n: nat, per: nat)
    requires per > 0 && n > per && Held(size, Extent(at, per))
    ensures Straight(cap, size, at, n, per) <==> at + per < cap && Straight(cap, size, at + per, n - per, per)
  {
    var j := Least(Over(n - 1, per), Over(size - at, per));
    assert j - 1 == Least(Over(n - per - 1, per), Over(size - (at + per), per));
    assert Times(j, per) == per + Times(j - 1, per);
  }

  /** Transfers that end within what the registers can name are straight, and so
      are all transfers of a disk that is smaller than that. */
  lemma WithinIsStraight(cap: nat, size: nat, at: int, n: nat, per: nat)
    requires per > 0 && (at + n <= cap || size < cap)
    ensures Straight(cap, size, at, n, per)
  {
    if 0 <= at <= size && n > 0 {
      var x, y := Over(n - 1, per), Over(size - at, per);
      OverRest(n - 1, per);
      OverRest(size - at, per);
      if x < y {
        TimesLess(x, y, per);
      } else if y < x {
        TimesLess(y, x, per);
      }
    }
  }

  /** The registers lead through consecutive sectors if and only if the transfer
      is straight. */
  lemma {:induction false} MovedIsPlain(g: Geometry, size: nat, a: Address, n: nat, per: nat)
    requires g.Valid() && 0 < per <= 16
    ensures Moved(g, size, a, n, per) == Plain(size, GetSector(g, a), n, per) <==> Straight(Capacity(g, a), size, GetSector(g, a), n, per)
    decreases n
  {
    hide GetSector, SetSector, Capacity, Straight, Moved, Plain, Fits;
    var at, cap := GetSector(g, a), Capacity(g, a);
    var e := NextExtent(g, a, n, per);
    MovedNext(g, size, a, n, per, e);
    PlainNext(size, at, n, per, e);
    if n <= per || !Held(size, e) {
      OneBlockIsStraight(cap, size, at, n, per);
      if n > 0 && Held(size, e) {
        MovedNext(g, size, Past(g, a, e), 0, per, NextExtent(g, Past(g, a, e), 0, per));
        PlainNext(size, at + e.count, 0, per, Extent(at + e.count, 0));
      }
    } else {
      var b := Past(g, a, e);
      CapacityStays(g, a, at + per, b);
      NextIsStraight(cap, size, at, n, per);
      SameBehind([e], Moved(g, size, b, n - per, per), Plain(size, at + per, n - per, per));
      if at + per < cap {
        MovedIsPlain(g, size, b, n - per, per);
      } else {
        WrapsRound(g, size, a, at + per, b, n - per, per);
      }
    }
  }

  lemma CapacityStays(g: Geometry, a: Address, n: nat, b: Address)
    requires g.Valid() && b == SetSector(g, a, n)
    ensures Capacity(g, b) == Capacity(g, a) && (n < Capacity(g, a) ==> GetSector(g, b) == n)
  {
    hide GetSector, SetSector;
    GetInvertsSet(g, a, n, b);
  }

  lemma BigCapacity(g: Geometry, a: Address)
    requires g.Valid()
    ensures Capacity(g, a) >= 0x1_0000
  {
    TimesLess(0, g.heads, g.sectors);
    TimesLess(0, 0x1_0000, g.Cylinder());
    IsProduct(0x1_0000, g.Cylinder());
  }

  /** Past the capacity the next block is there, but somewhere else. */
  lemma WrapsRound(g: Geometry, size: nat, a: Address, n: nat, b: Address, left: nat, per: nat)
    requires g.Valid() && 0 < per <= 16 && b == SetSector(g, a, n) && Capacity(g, a) <= n <= size && 0 < left
    ensures Moved(g, size, b, left, per) != Plain(size, n, left, per)
  {
    hide GetSector, SetSector, Capacity;
    BigCapacity(g, a);
    GetAfterSet(g, a, n, b);
    RestIsBelow(n, Capacity(g, a));
  }

  lemma {:induction false} RestIsBelow(n: nat, k: nat)
    requires 0 < k <= n
    ensures Rest(n, k) <= n - k
  {
    if n - k >= k {
      RestIsBelow(n - k, k);
    }
  }

  // ---------------------------------------------------------------- what it means

  /** The words of a read are its blocks, in order. */
  lemma {:induction false} ReadLogCarries(disk: seq<seq<Byte>>, es: seq<Extent>, whole: bool)
    requires WholeSectors(disk) && AllHeld(|disk|, es)
    ensures BytesOf(ReadLog(disk, es, whole)) == Gathered(disk, es)
  {
    hide WordEvents, Flat, BytesOf;
    if es == [] {
      NoBytes(if whole then QuietEnd else Errored);
    } else {
      WholeWords(Flat(disk, es[0].at, es[0].count), es[0].count);
      BytesOfBlock(DataReady(SECTOR * es[0].count), Flat(disk, es[0].at, es[0].count), ReadLog(disk, es[1..], whole));
      ReadLogCarries(disk, es[1..], whole);
    }
  }

  lemma WholeWords(bytes: seq<Byte>, n: nat)
    requires |bytes| == SECTOR * n
    ensures |bytes| % 2 == 0
  {
    assert |bytes| == 2 * (256 * n);
  }

  lemma WriteLogNext(es: seq<Extent>, n: nat, per: nat, data: seq<Byte>, first: bool)
    requires per > 0 && |data| == SECTOR * n
    ensures
      if n == 0 then WriteLog(es, n, per, data, first) == [Finished]
      else
        var k := SECTOR * Least(n, per);
        var ask := if first then QuietlyReady(k) else DataReady(k);
        && WriteLog(es, n, per, data, first) == [ask] + WordEvents(data[..k]) + LogAfter(es, n, per, data)
        && LogAfter(es, n, per, data) ==
          if es == [] then [Errored] else WriteLog(es[1..], n - Least(n, per), per, data[k..], false)
  {
    hide WordEvents;
  }

  /** The words of a write are the first of the data, in order. */
  lemma {:induction false} WriteLogCarries(es: seq<Extent>, n: nat, per: nat, data: seq<Byte>, first: bool)
    requires per > 0 && |data| == SECTOR * n
    ensures BytesOf(WriteLog(es, n, per, data, first)) <= data
    decreases n
  {
    hide WordEvents, BytesOf, WriteLog, LogAfter;
    WriteLogNext(es, n, per, data, first);
    if n == 0 {
      NoBytes(Finished);
    } else {
      var k := SECTOR * Least(n, per);
      WholeWords(data[..k], Least(n, per));
      BytesOfBlock(if first then QuietlyReady(k) else DataReady(k), data[..k], LogAfter(es, n, per, data));
      if es == [] {
        NoBytes(Errored);
      } else {
        WriteLogCarries(es[1..], n - Least(n, per), per, data[k..], false);
      }
      PrefixOn(data, k, BytesOf(LogAfter(es, n, per, data)));
    }
  }

  /** A straight READ moves the `n` sectors from where the registers stand, as far
      as whole blocks of them are there, and the registers come to stand past them. */
  lemma ReadIsPlain(g: Geometry, disk: seq<seq<Byte>>, a: Address, n: nat, per: nat)
    requires g.Valid() && WholeSectors(disk) && 0 < per <= 16 && n > 0
    requires Straight(Capacity(g, a), |disk|, GetSector(g, a), n, per)
    ensures
      var o, start := ReadOf(g, disk, a, n, per), GetSector(g, a);
      var f := Fits(|disk|, start, n, per);
      && o.what == Flat(disk, start, f) && o.log == ReadLog(disk, Plain(|disk|, start, n, per), f == n)
      && o.left == n - f && (f == n <==> 0 <= start && start + n <= |disk|)
      && o.address == if f == 0 then a else SetSector(g, a, start + f)
  {
    hide Moved, Plain, GetSector, SetSector, Capacity, Straight, Gathered, AddressAfter, Flat, Fits;
    MovedIsPlain(g, |disk|, a, n, per);
    AllFit(|disk|, GetSector(g, a), n, per);
    PlainGathered(disk, GetSector(g, a), n, per);
    PlainArrives(g, |disk|, a, GetSector(g, a), n, per);
  }

  /** A straight WRITE replaces the `n` sectors from where the registers stand, as
      far as whole blocks of them are there. */
  lemma WriteIsPlain(g: Geometry, disk: seq<seq<Byte>>, writable: bool, a: Address, n: nat, per: nat, data: seq<Byte>)
    requires g.Valid() && WholeSectors(disk) && 0 < per <= 16 && n > 0 && |data| == SECTOR * n
    requires writable ==> Straight(Capacity(g, a), |disk|, GetSector(g, a), n, per)
    ensures
      var o, start := WriteOf(g, disk, writable, a, n, per, data, true), GetSector(g, a);
      var f := if writable then Fits(|disk|, start, n, per) else 0;
      && o.what == Put(disk, start, data[..SECTOR * f], f)
      && o.left == n - f && (f == n <==> writable && 0 <= start && start + n <= |disk|)
      && o.address == if f == 0 then a else SetSector(g, a, start + f)
  {
    hide Moved, Plain, GetSector, SetSector, Capacity, Straight, Fits, WriteLog, Scattered, AddressAfter, Put;
    if writable {
      MovedIsPlain(g, |disk|, a, n, per);
      AllFit(|disk|, GetSector(g, a), n, per);
      PlainScattered(disk, GetSector(g, a), n, per, data);
      PlainArrives(g, |disk|, a, GetSector(g, a), n, per);
    } else {
      NothingWritten(g, disk, a, GetSector(g, a), data);
    }
  }

  lemma NothingWritten(g: Geometry, disk: seq<seq<Byte>>, a: Address, at: int, data: seq<Byte>)
    requires g.Valid() && WholeSectors(disk)
    ensures Scattered(disk, [], data) == disk == Put(disk, at, data[..0], 0) && AddressAfter(g, |disk|, a, []) == a
  {
  }

  /** A block of one sector, and the blocks behind it. */
  lemma OneSector(disk: seq<seq<Byte>>, es: seq<Extent>, data: seq<Byte>)
    requires WholeSectors(disk) && AllHeld(|disk|, es) && es != [] && es[0].count == 1 && SECTOR * Total(es) <= |data|
    ensures
      var at, sector := es[0].at, data[..SECTOR];
      && Gathered(disk, es) == disk[at] + Gathered(disk, es[1..])
      && Scattered(disk, es, data) == Scattered(disk[at := sector], es[1..], data[SECTOR..])
  {
    var at, n, sector := es[0].at, es[0].count, data[..SECTOR];
    assert Flat(disk, at, n) == disk[at] + Flat(disk, at + 1, n - 1) == disk[at];
    assert sector[..SECTOR] == sector;
    assert Put(disk, at, sector, n) == Put(disk[at := sector], at + 1, sector[SECTOR..], n - 1) == disk[at := sector];
  }

  lemma TwoSectors(disk: seq<seq<Byte>>, es: seq<Extent>, data: seq<Byte>)
    requires WholeSectors(disk) && AllHeld(|disk|, es) && |es| == 2 && es[0].count == 1 && es[1].count == 1
    requires |data| == SECTOR + SECTOR && Total(es) == 2
    ensures Held(|disk|, es[0]) && Held(|disk|, es[1])
    ensures Gathered(disk, es) == disk[es[0].at] + disk[es[1].at]
    ensures Scattered(disk, es, data) == disk[es[0].at := data[..SECTOR]][es[1].at := data[SECTOR..]]
  {
    hide Flat, Put, Gathered, Scattered;
    OneSector(disk, es, data);
    var next, rest := disk[es[0].at := data[..SECTOR]], data[SECTOR..];
    OneSector(disk, es[1..], rest);
    OneSector(next, es[1..], rest);
    NoSectors(disk, es[1..][1..], 0, []);
    NoSectors(next[es[1].at := rest], es[1..][1..], 0, rest[SECTOR..]);
    assert rest[..SECTOR] == rest;
  }

  /** From the last position that the registers can name, on a disk that has it,
      a transfer of two single sectors goes on at sector 0. */
  lemma LastThenFirst(g: Geometry, disk: seq<seq<Byte>>, a: Address, data: seq<Byte>)
    requires g.Valid() && WholeSectors(disk) && |data| == SECTOR + SECTOR
    requires |disk| >= Capacity(g, a) == GetSector(g, a) + 1
    ensures
      var last := Capacity(g, a) - 1;
      && ReadOf(g, disk, a, 2, 1).what == disk[last] + disk[0] && ReadOf(g, disk, a, 2, 1).left == 0
      && WriteOf(g, disk, true, a, 2, 1, data, true).what == disk[last := data[..SECTOR]][0 := data[SECTOR..]]
  {
    hide GetSector, SetSector, Capacity;
    BigCapacity(g, a);
    var last, cap, size := GetSector(g, a), Capacity(g, a), |disk|;
    var b := Past(g, a, Extent(last, 1));
    GetAfterSet(g, a, cap, b);
    assert Rest(cap, cap) == 0;
    var e, f := Extent(last, 1), Extent(0, 1);
    assert Moved(g, size, b, 1, 1) == [f] + Moved(g, size, Past(g, b, f), 0, 1);
    assert Moved(g, size, a, 2, 1) == [e] + Moved(g, size, b, 1, 1);
    assert Moved(g, size, a, 2, 1) == [e] + [f];
    assert ([e] + [f])[1..] == [f];
    TwoSectors(disk, [e] + [f], data);
  }

  /** One head, one sector per track, cylinder 65535: the second sector is the
      disk's first, though the disk may have a sector 65536. */
  lemma WrapExample(disk: seq<seq<Byte>>)
    requires WholeSectors(disk) && |disk| > 0x1_0000
    ensures
      var g, a := Geometry(1, 1), Address(0xa0, 0xff, 0xff, 1);
      && GetSector(g, a) == 0xffff && !Straight(Capacity(g, a), |disk|, 0xffff, 2, 1)
      && ReadOf(g, disk, a, 2, 1).what == disk[0xffff] + disk[0]
  {
    var g, a := Geometry(1, 1), Address(0xa0, 0xff, 0xff, 1);
    IsProduct(1, 1);
    IsProduct(0xffff, 1);
    IsProduct(0x1_0000, 1);
    IsDivision(|disk| - 0xffff, 1);
    LastThenFirst(g, disk, a, seq(1024, _ => 0));
  }
}
