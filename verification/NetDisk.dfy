/** The network block device client: rolling read windows, a contiguous write
    buffer and a write-back table of dirty sectors in front of a remote image,
    each method proved against `NetDiskModel`, over a connection to the server. */
module NetDisk {
  import opened NetDiskLayers
  import opened NetDiskLink
  import opened NetDiskModel
  import opened NetDiskWindows
  import opened Sequences

  class Client {
    const cfg: Config
    const link: Link
    var windows: seq<Window<Sector>>
    var nextWindow: nat
    var writeSector: nat
    var buffer: seq<Sector>
    var table: seq<Entry<Sector>>
    var tableReady: bool

    /** The connection is idle, and what the client was told when it opened it is so. */
    ghost predicate Linked()
      reads link, link.session, link.session.image, link.session.up, link.session.down
    {
      && link.Valid() && |link.disk| == cfg.nbSectors && cfg.maxSectors <= link.session.c.maxSectors
      && (cfg.writable ==> !link.session.c.readOnly) && cfg.strictFlush == link.session.c.strictFlush
    }

    ghost predicate Valid()
      reads this, link, link.session, link.session.image, link.session.up, link.session.down
    {
      cfg.Valid() && Linked() && Now().Valid(cfg)
    }

    ghost function Now(): State<Sector>
      reads this, link
    {
      State(link.disk, Cache(windows, nextWindow), writeSector, buffer, table, tableReady)
    }

    constructor (cfg: Config, link: Link)
      requires cfg.Valid() && link.Valid() && |link.disk| == cfg.nbSectors && cfg.maxSectors <= link.session.c.maxSectors
      requires (cfg.writable ==> !link.session.c.readOnly) && cfg.strictFlush == link.session.c.strictFlush
      ensures Valid() && this.cfg == cfg && this.link == link
      ensures Opened(cfg, Now()) && Now().Coherent() && Now().Flat() == link.disk
    {
      this.cfg, this.link := cfg, link;
      windows := seq(cfg.windowCount, _ => Window(0, []));
      nextWindow, writeSector, buffer, table, tableReady := 0, 0, [], [], false;
      new;
      OpenedIsRight(cfg, Now());
    }

    method FindWriteback(sector: nat) returns (idx: int)
      ensures idx == Slot(table, sector)
    {
      var i := 0;
      while i < |table|
        invariant 0 <= i <= |table|
        invariant forall j :: 0 <= j < i ==> !table[j].Holds(sector)
      {
        if table[i].Holds(sector) {
          return i;
        }
        i := i + 1;
      }
      idx := -1;
    }

    /** The WRITE that the buffer will be, if it holds anything. */
    ghost function BufferWrites(): seq<Extent>
      reads this
    {
      if buffer == [] then [] else [Extent(writeSector, |buffer|)]
    }

    method FlushWrites()
      requires Valid()
      modifies `buffer, link`disk, link`writes, link.session`open, link.session.up, link.session.down, link.session.image
      ensures Valid() && Now() == BufferSent(old(Now())) && Now().Flat() == old(Now().Flat())
      ensures link.writes == old(link.writes) + old(BufferWrites())
    {
      BufferSentKeeps(cfg, Now());
      if buffer != [] {
        link.Write(writeSector, buffer);
        buffer := [];
      }
    }

    /** The first inner loop of the drain: the slot of the lowest dirty sector. */
    method FindLowestDirty() returns (best: int)
      requires Valid()
      ensures IsLowestDirty(table, best)
    {
      var lowest := UINT64_MAX;
      best := -1;
      for i := 0 to |table|
        invariant -1 <= best < i
        invariant best < 0 ==> lowest == UINT64_MAX && forall j :: 0 <= j < i ==> !table[j].dirty
        invariant best >= 0 ==> table[best].dirty && lowest == table[best].sector
        invariant forall j :: 0 <= j < i && table[j].dirty ==> lowest <= table[j].sector
      {
        if table[i].dirty && table[i].sector < lowest {
          lowest := table[i].sector;
          best := i;
        }
      }
    }

    /** The second inner loop of the drain: collect the consecutive dirty
        sectors from `sector` on, cleaning their entries. */
    method GatherRun(sector: nat) returns (data: seq<Sector>)
      requires Valid() && Slot(table, sector) >= 0
      modifies `table
      ensures 1 <= |data| <= cfg.bufferSectors && sector + |data| <= |link.disk|
      ensures Cleaned(old(table), table, sector, sector + |data|)
      ensures Gathered(old(table), sector, data)
      ensures |data| < cfg.bufferSectors ==> Slot(old(table), sector + |data|) < 0
    {
      data := [];
      ghost var was := table;
      while |data| < cfg.bufferSectors
        invariant |data| <= cfg.bufferSectors
        invariant |data| > 0 ==> sector + |data| <= |link.disk|
        invariant Cleaned(was, table, sector, sector + |data|)
        invariant Gathered(was, sector, data)
        invariant |data| == 0 ==> table == was
        decreases cfg.bufferSectors - |data|
      {
        var at := sector + |data|;
        var idx := FindWriteback(at);
        CleanedSlot(was, table, sector, at);
        if idx < 0 {
          return;
        }
        GatherOneMore(was, table, sector, data, idx);
        data := data + [table[idx].data];
        table := table[idx := table[idx].(dirty := false)];
      }
    }

    /** The body of the drain's outer loop: one run, gathered and sent, that starts
        with the lowest dirty sector. */
    method DrainRun(best: nat, ghost runs: seq<Extent>, ghost dirty: set<nat>) returns (ghost e: Extent)
      requires Valid() && buffer == []
      requires best < |table| && IsLowestDirty(table, best)
      requires DrainProgress(table, runs, dirty, cfg.bufferSectors)
      modifies `table, link`disk, link`writes, link.session`open, link.session.up, link.session.down, link.session.image
      ensures Valid() && Now().Flat() == old(Now().Flat()) && |table| == old(|table|)
      ensures link.writes == old(link.writes) + [e] && e.lba == old(table[best].sector) && 1 <= e.count <= cfg.bufferSectors
      ensures forall s: nat :: e.lba <= s < e.End() ==> s in old(DirtySectors(table))
      ensures e.count < cfg.bufferSectors ==> e.End() !in old(DirtySectors(table))
      ensures DrainProgress(table, runs + [e], dirty, cfg.bufferSectors)
      ensures DirtySectors(table) < old(DirtySectors(table))
    {
      ghost var was, disk := table, link.disk;
      var sector := table[best].sector;
      SlotIsUnique(table, best);
      var data := GatherRun(sector);
      RunKeepsOverlay(disk, was, table, sector, data, writeSector);
      DrainStep(was, table, best, runs, dirty, data, cfg.bufferSectors);
      link.Write(sector, data);
      e := Extent(sector, |data|);
      RunIsDirty(was, sector, data);
    }

    /** Empties the table into the image: the WRITEs sent are `runs`. */
    method DrainTable() returns (ghost runs: seq<Extent>)
      requires Valid() && buffer == []
      modifies `table, link`disk, link`writes, link.session`open, link.session.up, link.session.down, link.session.image
      ensures Valid() && table == [] && link.disk == old(Now().Flat())
      ensures link.writes == old(link.writes) + runs
      ensures SendsExactly(runs, old(DirtySectors(table)), cfg.bufferSectors)
    {
      runs := [];
      ghost var flat, dirty := Now().Flat(), DirtySectors(table);
      var best := FindLowestDirty();
      while best >= 0
        invariant Valid() && buffer == [] && Now().Flat() == flat
        invariant IsLowestDirty(table, best)
        invariant DrainProgress(table, runs, dirty, cfg.bufferSectors)
        invariant link.writes == old(link.writes) + runs
        decreases DirtySectors(table)
      {
        ghost var e := DrainRun(best, runs, dirty);
        runs := runs + [e];
        best := FindLowestDirty();
      }
      assert DirtySectors(table) == {};
      assert dirty - DirtySectors(table) == dirty;
      CleanTableIsImage(link.disk, writeSector, table);
      table := [];
    }

    /** Empties buffer and table into the image: first the buffer, if it holds
        anything, then each dirty sector once, in rising runs. */
    method DrainWrites() returns (ghost runs: seq<Extent>)
      requires Valid()
      modifies `buffer, `table, link`disk, link`writes, link.session`open, link.session.up, link.session.down, link.session.image
      ensures Valid() && Now() == Drained(old(Now())) && Now().Flat() == old(Now().Flat())
      ensures link.writes == old(link.writes) + old(BufferWrites()) + runs
      ensures SendsExactly(runs, old(DirtySectors(table)), cfg.bufferSectors)
    {
      runs := [];
      DrainedKeeps(cfg, Now());
      FlushWrites();
      if table == [] {
        CleanTableIsImage(link.disk, writeSector, table);
        return;
      }
      runs := DrainTable();
    }

    /** netblk_flush: drain, then a FLUSH request. A read-only device has nothing to flush. */
    method Flush(flushes: bool) returns (ok: bool)
      requires Valid()
      modifies `buffer, `table, link`disk, link`writes, link.session`open, link.session.up, link.session.down, link.session.image
      ensures Valid() && Now() == After(cfg, old(Now()), FlushOp(flushes))
      ensures (if ok then Done else Refused) == ReplyTo(cfg, old(Now()), FlushOp(flushes))
      ensures ok <==> !cfg.writable || !cfg.strictFlush || flushes
      ensures cfg.writable ==> Holds(link.session.image[..], old(Now().Flat()))
    {
      ok := true;
      if cfg.writable {
        DrainedKeeps(cfg, Now());
        var _ := DrainWrites();
        ok := link.Flush(flushes);
      }
    }

    /** Drops every window that overlaps [sector, sector + n). */
    method Invalidate(sector: nat, n: nat)
      requires Valid()
      modifies `windows
      ensures Valid() && windows == Dropped(old(windows), sector, n)
    {
      ghost var was := windows;
      if n == 0 {
        assert Dropped(was, sector, n) == was;
        return;
      }
      var end := sector + n;
      for i := 0 to |windows|
        invariant Valid() && |windows| == |was|
        invariant forall k :: i <= k < |windows| ==> windows[k] == was[k]
        invariant forall k :: 0 <= k < i ==>
          windows[k] == if was[k].Overlaps(sector, end) then Window(was[k].start, []) else was[k]
      {
        if windows[i].Overlaps(sector, end) {
          windows := windows[i := Window(windows[i].start, [])];
        }
      }
      assert windows == Dropped(was, sector, n);
    }

    /** Puts one sector in the table, draining first when a new slot is due and none is left. */
    method StoreSector(sector: nat, data: Sector)
      requires Valid() && cfg.writeback && cfg.writable && tableReady && cfg.tableSectors > 0
      requires sector < |link.disk|
      modifies `buffer, `table, link`disk, link`writes, link.session`open, link.session.up, link.session.down, link.session.image
      ensures Valid() && Now() == StoreOne(cfg, old(Now()), sector, data)
    {
      StoreOneKeeps(cfg, Now(), sector, data);
      var idx := FindWriteback(sector);
      if idx < 0 {
        if |table| >= cfg.tableSectors {
          var _ := DrainWrites();
        }
        table := table + [Entry(sector, data, true)];
      } else {
        table := table[idx := Entry(sector, data, true)];
      }
    }

    /** Puts every sector of `data` in the table; reports whether it did.
        `allocOk` says whether allocating the table, if that is due, works. */
    method StoreWrite(sector: nat, data: seq<Sector>, allocOk: bool) returns (stored: bool)
      requires Valid() && cfg.writable && |data| <= cfg.tableSectors
      requires sector + |data| <= |link.disk|
      modifies `buffer, `table, `tableReady, link`disk, link`writes, link.session`open, link.session.up, link.session.down, link.session.image
      ensures Valid()
      ensures stored <==> Stores(cfg, old(Now()), data, allocOk)
      ensures Now() == if stored then StoreAll(cfg, old(Now()).(tableReady := true), sector, data) else old(Now())
    {
      if !cfg.writeback || data == [] {
        return false;
      }
      if !tableReady {
        if !allocOk {
          return false;
        }
        tableReady := true;
      }
      StoreEach(sector, data);
      stored := true;
    }

    method StoreEach(sector: nat, data: seq<Sector>)
      requires Valid() && cfg.writeback && cfg.writable && tableReady && 0 < |data| <= cfg.tableSectors
      requires sector + |data| <= |link.disk|
      modifies `buffer, `table, link`disk, link`writes, link.session`open, link.session.up, link.session.down, link.session.image
      ensures Valid() && Now() == StoreAll(cfg, old(Now()), sector, data)
    {
      ghost var before := Now();
      for i := 0 to |data|
        invariant Valid() && tableReady && Now() == StoreAll(cfg, before, sector, data[..i])
      {
        StoreAllNext(cfg, before, sector, data, i);
        StoreSector(sector + i, data[i]);
      }
      assert data[..|data|] == data;
    }

    /** What a write does when the table did not take it. */
    method WriteBuffered(sector: nat, data: seq<Sector>)
      requires Valid() && cfg.writable
      requires |data| <= cfg.maxSectors && sector + |data| <= |link.disk|
      modifies `writeSector, `buffer, `table, link`disk, link`writes, link.session`open, link.session.up, link.session.down, link.session.image
      ensures Valid() && Now() == Buffered(cfg, old(Now()), sector, data)
    {
      BufferedKeeps(cfg, Now(), sector, data);
      if |data| > cfg.bufferSectors {
        var _ := DrainWrites();
        link.Write(sector, data);
        return;
      }
      RoomMadeKeeps(cfg, Now(), sector, data);
      MakeRoom(sector, data);
      buffer := buffer + data;
      if |buffer| >= cfg.bufferSectors {
        FlushWrites();
      }
    }

    method MakeRoom(sector: nat, data: seq<Sector>)
      requires Valid() && |data| <= cfg.bufferSectors && sector + |data| <= |link.disk|
      modifies `writeSector, `buffer, link`disk, link`writes, link.session`open, link.session.up, link.session.down, link.session.image
      ensures Valid() && Now() == RoomMade(cfg, old(Now()), sector, data)
    {
      RoomMadeKeeps(cfg, Now(), sector, data);
      if buffer != [] && (writeSector + |buffer| != sector || |buffer| + |data| > cfg.bufferSectors) {
        FlushWrites();
      }
      if buffer == [] {
        writeSector := sector;
      }
    }

    /** A write that passed the range check. */
    method WriteAccepted(sector: nat, data: seq<Sector>, allocOk: bool)
      requires Valid() && Writes(cfg, sector, |data|)
      modifies `windows, `writeSector, `buffer, `table, `tableReady,
               link`disk, link`writes, link.session`open, link.session.up, link.session.down, link.session.image
      ensures Valid() && Now() == AfterWrite(cfg, old(Now()), sector, data, allocOk)
    {
      Invalidate(sector, |data|);
      if |data| <= cfg.tableSectors {
        var stored := StoreWrite(sector, data, allocOk);
        if stored {
          return;
        }
      }
      WriteBuffered(sector, data);
    }

    /** netblk_write_async, for `|data|` sectors. */
    method Write(sector: nat, data: seq<Sector>, allocOk: bool) returns (ok: bool)
      requires Valid()
      modifies `windows, `writeSector, `buffer, `table, `tableReady,
               link`disk, link`writes, link.session`open, link.session.up, link.session.down, link.session.image
      ensures Valid() && Now() == AfterWrite(cfg, old(Now()), sector, data, allocOk)
      ensures ok <==> cfg.writable && |data| <= cfg.maxSectors && sector + |data| <= cfg.nbSectors
      ensures old(Now().Coherent()) ==> Now().Coherent()
      ensures
        Now().Flat() == if !ok then old(Now().Flat())
                        else if old(Shadowed(cfg, Now(), sector, |data|)) then Under(old(Now().Flat()), sector, data, old(table))
                        else Splice(old(Now().Flat()), sector, data)
    {
      var n := |data|;
      WriteKeeps(cfg, Now(), sector, data, allocOk);
      if !cfg.writable || n > cfg.maxSectors || sector > cfg.nbSectors || n > cfg.nbSectors - sector {
        return false;
      }
      WriteAccepted(sector, data, allocOk);
      ok := true;
    }

    // ---------------------------------------------------------------- reads

    method WriteOverlaps(sector: nat, n: nat) returns (overlaps: bool)
      requires Valid()
      ensures overlaps <==> n > 0 && Now().HasPending(sector, sector + n)
    {
      if n == 0 {
        return false;
      }
      var end := sector + n;
      if buffer != [] && sector < writeSector + |buffer| && writeSector < end {
        return true;
      }
      for i := 0 to |table|
        invariant forall j :: 0 <= j < i && table[j].dirty ==> !(sector <= table[j].sector < end)
      {
        if table[i].dirty && sector <= table[i].sector < end {
          return true;
        }
      }
      overlaps := false;
    }

    method FindCache(sector: nat) returns (slot: int)
      ensures slot == FirstCovering(windows, sector)
    {
      for i := 0 to |windows|
        invariant FirstCovering(windows, sector) == if FirstCovering(windows[i..], sector) < 0 then -1 else i + FirstCovering(windows[i..], sector)
      {
        if windows[i].Covers(sector) {
          return i;
        }
        assert windows[i..][1..] == windows[i + 1..];
      }
      slot := -1;
    }

    method FindNextStart(sector: nat, end: nat) returns (next: nat)
      requires sector < end
      ensures next == NextStart(windows, sector, end)
    {
      next := end;
      for i := 0 to |windows|
        invariant next == NextStart(windows[..i], sector, end)
      {
        assert windows[..i + 1][..i] == windows[..i];
        if windows[i].data != [] && sector < windows[i].start < next {
          next := windows[i].start;
        }
      }
      assert windows[..|windows|] == windows;
    }

    ghost function UnderWay(cur: nat, out: seq<Sector>, fetched: seq<Extent>): Progress<Sector>
      reads this
    {
      Progress(cur, Cache(windows, nextWindow), out, fetched)
    }

    /** The loop of netblk_read_async: it serves the request as `Serve` does. */
    method ReadWindows(sector: nat, end: nat, ghost served: Progress<Sector>) returns (out: seq<Sector>, ghost fetched: seq<Extent>)
      requires Valid() && sector <= end <= |link.disk|
      requires served == Serve(cfg, link.disk, end, Start(Now().cache, sector))
      modifies `windows, `nextWindow, link.session`open, link.session.up, link.session.down, link.session.image
      ensures Linked() && UnderWay(end, out, fetched) == served
    {
      var cur: nat := sector;
      out, fetched := [], [];
      while cur < end
        invariant Linked() && UnderWay(cur, out, fetched).CanServe(cfg, link.disk, end)
        invariant served == Serve(cfg, link.disk, end, UnderWay(cur, out, fetched))
        decreases UnderWay(cur, out, fetched).Measure(end).0, UnderWay(cur, out, fetched).Measure(end).1
      {
        StepMoves(cfg, link.disk, end, UnderWay(cur, out, fetched));
        cur, out, fetched := ReadOnce(end, cur, out, fetched);
      }
    }

    /** The body of that loop. */
    method ReadOnce(end: nat, cur: nat, out: seq<Sector>, ghost fetched: seq<Extent>)
      returns (cur': nat, out': seq<Sector>, ghost fetched': seq<Extent>)
      requires Linked() && cur < end && UnderWay(cur, out, fetched).CanServe(cfg, link.disk, end)
      modifies `windows, `nextWindow, link.session`open, link.session.up, link.session.down, link.session.image
      ensures Linked() && UnderWay(cur', out', fetched') == Step(cfg, link.disk, end, old(UnderWay(cur, out, fetched)))
    {
      cur', out', fetched' := cur, out, fetched;
      var slot := FindCache(cur);
      if slot >= 0 {
        var data := Hit(windows, slot, cur, end);
        out' := out + data;
        cur' := cur + |data|;
      } else {
        var next := FindNextStart(cur, end);
        var e := FetchExtent(cfg, cur, next, end);
        var data := link.Read(e);
        windows := windows[nextWindow := Window(e.lba, data)];
        nextWindow := (nextWindow + 1) % |windows|;
        fetched' := fetched + [e];
      }
    }

    /** Drains if anything in the range is pending. */
    method Settle(sector: nat, n: nat)
      requires Valid()
      modifies `buffer, `table, link`disk, link`writes, link.session`open, link.session.up, link.session.down, link.session.image
      ensures Valid() && Now() == Settled(old(Now()), sector, n)
    {
      var overlaps := WriteOverlaps(sector, n);
      if overlaps {
        var _ := DrainWrites();
      }
    }

    /** A read that passed the range check. */
    method ReadAccepted(sector: nat, n: nat, ghost served: Progress<Sector>, ghost next: State<Sector>) returns (out: seq<Sector>)
      requires Valid() && Reads(cfg, sector, n) && served == Served(cfg, Now(), sector, n)
      requires next == Settled(Now(), sector, n).(cache := served.cache) && next.Valid(cfg)
      modifies `buffer, `table, `windows, `nextWindow, link`disk, link`writes, link.session`open, link.session.up, link.session.down, link.session.image
      ensures Valid() && Now() == next && out == served.out
    {
      hide Settled, Drained, Serve, Served;
      ghost var s := Now();
      Settle(sector, n);
      ServedIs(cfg, s, Now(), sector, n);
      out := ReadSettled(sector, sector + n, served, next);
    }

    /** A read once nothing it asks for is pending. */
    method ReadSettled(sector: nat, end: nat, ghost served: Progress<Sector>, ghost next: State<Sector>) returns (out: seq<Sector>)
      requires Valid() && sector <= end <= |link.disk| && next.Valid(cfg) && next == Now().(cache := served.cache)
      requires served == Serve(cfg, Now().image, end, Start(Now().cache, sector))
      modifies `windows, `nextWindow, link.session`open, link.session.up, link.session.down, link.session.image
      ensures Valid() && Now() == next && out == served.out
    {
      ghost var fetched;
      out, fetched := ReadWindows(sector, end, served);
      assert Progress(end, Now().cache, out, fetched) == served;
    }

    /** netblk_read_async. The reply is right wherever the windows are, and they
        stay right exactly if no fetch they hold is stale. */
    method Read(sector: nat, n: int) returns (ok: bool, out: seq<Sector>)
      requires Valid()
      modifies `buffer, `table, `windows, `nextWindow, link`disk, link`writes, link.session`open, link.session.up, link.session.down, link.session.image
      ensures Valid() && Now() == After(cfg, old(Now()), ReadOp(sector, n))
      ensures ok <==> 0 <= n <= cfg.maxSectors && sector + n <= cfg.nbSectors
      ensures (if ok then Data(out) else Refused) == ReplyTo(cfg, old(Now()), ReadOp(sector, n))
      ensures Now().Flat() == old(Now().Flat())
      ensures ok && AllAgree(old(windows), Now().Flat(), sector, sector + n) ==> out == Now().Flat()[sector..sector + n]
      ensures ok && old(Now().Coherent()) ==> (Now().Coherent() <==> !old(FetchesStale(cfg, Now(), ReadOp(sector, n))))
    {
      if n < 0 || n > cfg.maxSectors || sector > cfg.nbSectors || n > cfg.nbSectors - sector {
        return false, [];
      }
      ReadKeeps(cfg, Now(), sector, n);
      ReadLeaves(cfg, Now(), sector, n);
      ghost var served := Served(cfg, Now(), sector, n);
      out := ReadAccepted(sector, n, served, Settled(Now(), sector, n).(cache := served.cache));
      ok := true;
    }
  }

  // ------------------------------------------------------------- whole runs

  method Perform(client: Client, op: Op<Sector>) returns (reply: Reply<Sector>)
    requires client.Valid()
    modifies client, client.link, client.link.session, client.link.session.up, client.link.session.down, client.link.session.image
    ensures client.Valid()
    ensures client.Now() == After(client.cfg, old(client.Now()), op) && reply == ReplyTo(client.cfg, old(client.Now()), op)
  {
    match op
    case ReadOp(sector, n) =>
      var ok, out := client.Read(sector, n);
      reply := if ok then Data(out) else Refused;
    case WriteOp(sector, data, allocOk) =>
      var ok := client.Write(sector, data, allocOk);
      reply := if ok then Done else Refused;
    case FlushOp(flushes) =>
      var ok := client.Flush(flushes);
      reply := if ok then Done else Refused;
  }

  /** Every sequence of reads, writes and flushes leaves and answers what the model
      says. With writes that are not shadowed the client over its connection is a
      flat disk; every reply is that disk's too for as long as no fetch was stale,
      as it never is without prefetching. */
  method RunScript(client: Client, ops: seq<Op<Sector>>) returns (replies: seq<Reply<Sector>>)
    requires client.Valid()
    modifies client, client.link, client.link.session, client.link.session.up, client.link.session.down, client.link.session.image
    ensures client.Valid()
    ensures client.Now() == StateAfter(client.cfg, old(client.Now()), ops)
    ensures replies == Replies(client.cfg, old(client.Now()), ops)
    ensures
      old(NoneShadowed(client.cfg, client.Now(), ops)) ==>
        client.Now().Flat() == FlatDisk(client.cfg, old(client.Now().Flat()), ops)
    ensures
      old(NoneShadowed(client.cfg, client.Now(), ops) && client.Now().Coherent() && NoneStale(client.cfg, client.Now(), ops)) ==>
        replies == FlatReplies(client.cfg, old(client.Now().Flat()), ops)
  {
    replies := [];
    ghost var cfg, start, rest := client.cfg, client.Now(), ops;
    var i := 0;
    while i < |ops|
      invariant i <= |ops| && client.Valid() && rest == ops[i..]
      invariant StateAfter(cfg, client.Now(), rest) == StateAfter(cfg, start, ops)
      invariant replies + Replies(cfg, client.Now(), rest) == Replies(cfg, start, ops)
    {
      ghost var s := client.Now();
      var reply := Perform(client, ops[i]);
      Regroup(replies, [reply], Replies(cfg, client.Now(), rest[1..]));
      replies, rest, i := replies + [reply], rest[1..], i + 1;
    }
    if start.Coherent() {
      CoherentIff(cfg, start, ops);
    }
    if NoneShadowed(cfg, start, ops) {
      RunIsFlat(cfg, start, ops);
    }
  }
}
