/** The network block device client as a value: what every operation leaves and
    answers, and the theorem that over whole runs it is one flat disk. */
module NetDiskModel {
  import opened NetDiskLayers
  import opened NetDiskWindows
  import opened Sequences

  datatype State<S> = State(image: seq<S>, cache: Cache<S>, writeSector: nat, buffer: seq<S>, table: seq<Entry<S>>, tableReady: bool)
  {
    ghost predicate Valid(cfg: Config) {
      && |image| == cfg.nbSectors
      && cache.Valid(cfg)
      && |buffer| <= cfg.bufferSectors
      && (buffer != [] ==> writeSector + |buffer| <= |image|)
      && |table| <= cfg.tableSectors
      && (forall i :: 0 <= i < |table| ==> table[i].sector < |image|)
      && UniqueDirty(table)
      && (table != [] ==> cfg.writeback && tableReady)
      && (buffer != [] || table != [] ==> cfg.writable)
    }

    /** The disk the guest should see. */
    function Flat(): (flat: seq<S>)
      ensures |flat| == |image|
    {
      Overlay(image, writeSector, buffer, table)
    }

    /** No window disagrees with it. */
    ghost predicate Coherent() {
      AllAgree(cache.windows, Flat(), 0, |image|)
    }

    /** A sector of [lo, hi) is waiting in the buffer or the table. */
    predicate HasPending(lo: nat, hi: nat) {
      (buffer != [] && lo < writeSector + |buffer| && writeSector < hi) || DirtyWithin(table, lo, hi)
    }
  }

  /** A sector waits in the buffer or in a dirty entry of the table. */
  ghost predicate PendingAt<S>(s: State<S>, i: nat) {
    || s.writeSector <= i < s.writeSector + |s.buffer|
    || exists k :: 0 <= k < |s.table| && s.table[k].dirty && s.table[k].sector == i
  }

  lemma HasPendingIs<S>(s: State<S>, lo: nat, hi: nat)
    requires lo < hi
    ensures s.HasPending(lo, hi) <==> exists i: nat :: lo <= i < hi && PendingAt(s, i)
  {
    if s.buffer != [] && lo < s.writeSector + |s.buffer| && s.writeSector < hi {
      assert PendingAt(s, if s.writeSector < lo then lo else s.writeSector);
    } else if DirtyWithin(s.table, lo, hi) {
      var k :| 0 <= k < |s.table| && s.table[k].dirty && lo <= s.table[k].sector < hi;
      assert PendingAt(s, s.table[k].sector);
    }
  }

  // ---------------------------------------------------------------- operations

  datatype Op<S> =
    | ReadOp(sector: nat, n: int)
    | WriteOp(sector: nat, data: seq<S>, allocOk: bool)
    | FlushOp(flushes: bool)

  datatype Reply<S> = Refused | Done | Data(sectors: seq<S>)

  predicate Reads(cfg: Config, sector: nat, n: int) {
    0 <= n <= cfg.maxSectors && sector + n <= cfg.nbSectors
  }

  predicate Writes(cfg: Config, sector: nat, n: nat) {
    cfg.writable && n <= cfg.maxSectors && sector + n <= cfg.nbSectors
  }

  /** Buffer and table emptied into the image. */
  function Drained<S>(s: State<S>): State<S> {
    s.(image := s.Flat(), buffer := [], table := [])
  }

  /** The buffer sent. */
  function BufferSent<S>(s: State<S>): State<S>
    requires s.buffer != [] ==> s.writeSector + |s.buffer| <= |s.image|
  {
    if s.buffer == [] then s else s.(image := Splice(s.image, s.writeSector, s.buffer), buffer := [])
  }

  /** One sector in the table: in its slot, or in a new one, for which a full table
      is drained first. */
  function StoreOne<S>(cfg: Config, s: State<S>, sector: nat, data: S): State<S> {
    var k, e := Slot(s.table, sector), Entry(sector, data, true);
    if k >= 0 then s.(table := s.table[k := e])
    else
      var s' := if |s.table| >= cfg.tableSectors then Drained(s) else s;
      s'.(table := s'.table + [e])
  }

  function StoreAll<S>(cfg: Config, s: State<S>, sector: nat, data: seq<S>): State<S> {
    if data == [] then s
    else
      var last := |data| - 1;
      StoreOne(cfg, StoreAll(cfg, s, sector, data[..last]), sector + last, data[last])
  }

  lemma StoreAllNext<S>(cfg: Config, s: State<S>, sector: nat, data: seq<S>, i: nat)
    requires i < |data|
    ensures StoreAll(cfg, s, sector, data[..i + 1]) == StoreOne(cfg, StoreAll(cfg, s, sector, data[..i]), sector + i, data[i])
  {
    assert data[..i + 1][..i] == data[..i];
  }

  /** Whether the table takes a write. */
  predicate Stores<S>(cfg: Config, s: State<S>, data: seq<S>, allocOk: bool) {
    cfg.writeback && 0 < |data| <= cfg.tableSectors && (s.tableReady || allocOk)
  }

  function RoomMade<S>(cfg: Config, s: State<S>, sector: nat, data: seq<S>): State<S>
    requires s.buffer != [] ==> s.writeSector + |s.buffer| <= |s.image|
  {
    var s' := if s.buffer != [] && (s.writeSector + |s.buffer| != sector || |s.buffer| + |data| > cfg.bufferSectors) then BufferSent(s) else s;
    if s'.buffer == [] then s'.(writeSector := sector) else s'
  }

  /** What a write does when the table does not take it. */
  function Buffered<S>(cfg: Config, s: State<S>, sector: nat, data: seq<S>): State<S>
    requires (s.buffer != [] ==> s.writeSector + |s.buffer| <= |s.image|) && sector + |data| <= |s.image|
  {
    if |data| > cfg.bufferSectors then
      var d := Drained(s);
      d.(image := Splice(d.image, sector, data))
    else
      var room := RoomMade(cfg, s, sector, data);
      var full := room.(buffer := room.buffer + data);
      if |full.buffer| >= cfg.bufferSectors then BufferSent(full) else full
  }

  /** The windows that overlap a range emptied. */
  function Dropped<S>(windows: seq<Window<S>>, sector: nat, n: nat): (w: seq<Window<S>>)
    ensures |w| == |windows|
    ensures forall k :: 0 <= k < |windows| ==> w[k] == if n > 0 && windows[k].Overlaps(sector, sector + n) then Window(windows[k].start, []) else windows[k]
  {
    if windows == [] then []
    else [if n > 0 && windows[0].Overlaps(sector, sector + n) then Window(windows[0].start, []) else windows[0]] + Dropped(windows[1..], sector, n)
  }

  ghost function AfterWrite<S>(cfg: Config, s: State<S>, sector: nat, data: seq<S>, allocOk: bool): State<S>
    requires s.Valid(cfg)
  {
    if !Writes(cfg, sector, |data|) then s
    else
      var s' := s.(cache := s.cache.(windows := Dropped(s.cache.windows, sector, |data|)));
      if Stores(cfg, s, data, allocOk) then StoreAll(cfg, s'.(tableReady := true), sector, data)
      else Buffered(cfg, s', sector, data)
  }

  /** What a read drains first, if anything it asks for is pending. */
  function Settled<S>(s: State<S>, sector: nat, n: nat): State<S> {
    if n > 0 && s.HasPending(sector, sector + n) then Drained(s) else s
  }

  /** The read itself. */
  ghost function Served<S>(cfg: Config, s: State<S>, sector: nat, n: nat): Progress<S>
    requires cfg.Valid() && s.Valid(cfg) && Reads(cfg, sector, n)
  {
    Serve(cfg, Settled(s, sector, n).image, sector + n, Start(s.cache, sector))
  }

  lemma ServedIs<S>(cfg: Config, s: State<S>, settled: State<S>, sector: nat, n: nat)
    requires cfg.Valid() && s.Valid(cfg) && settled.Valid(cfg) && Reads(cfg, sector, n) && settled == Settled(s, sector, n)
    ensures Served(cfg, s, sector, n) == Serve(cfg, settled.image, sector + n, Start(settled.cache, sector))
  {
  }

  ghost function After<S>(cfg: Config, s: State<S>, op: Op<S>): State<S>
    requires cfg.Valid() && s.Valid(cfg)
  {
    match op
    case ReadOp(sector, n) =>
      if Reads(cfg, sector, n) then Settled(s, sector, n).(cache := Served(cfg, s, sector, n).cache) else s
    case WriteOp(sector, data, allocOk) => AfterWrite(cfg, s, sector, data, allocOk)
    case FlushOp(_) => if cfg.writable then Drained(s) else s
  }

  ghost function ReplyTo<S>(cfg: Config, s: State<S>, op: Op<S>): Reply<S>
    requires cfg.Valid() && s.Valid(cfg)
  {
    match op
    case ReadOp(sector, n) => if Reads(cfg, sector, n) then Data(Served(cfg, s, sector, n).out) else Refused
    case WriteOp(sector, data, _) => if Writes(cfg, sector, |data|) then Done else Refused
    case FlushOp(flushes) => if cfg.writable && cfg.strictFlush && !flushes then Refused else Done
  }

  // --------------------------------------------------------- what each step keeps

  lemma DrainedKeeps<S>(cfg: Config, s: State<S>)
    requires s.Valid(cfg)
    ensures Drained(s).Valid(cfg) && Drained(s).Flat() == s.Flat() == Drained(s).image
  {
    CleanTableIsImage<S>(s.Flat(), s.writeSector, []);
  }

  lemma BufferSentKeeps<S>(cfg: Config, s: State<S>)
    requires s.Valid(cfg)
    ensures BufferSent(s).Valid(cfg) && BufferSent(s).Flat() == s.Flat()
  {
    if s.buffer != [] {
      FlushKeepsOverlay(s.image, s.writeSector, s.buffer, s.table);
    }
  }

  lemma StoreOneKeeps<S>(cfg: Config, s: State<S>, sector: nat, data: S)
    requires s.Valid(cfg) && cfg.writeback && cfg.writable && s.tableReady && sector < |s.image| && cfg.tableSectors > 0
    ensures
      var s' := StoreOne(cfg, s, sector, data);
      s'.Valid(cfg) && s'.Flat() == s.Flat()[sector := data] && s'.cache == s.cache && s'.tableReady
  {
    var k := Slot(s.table, sector);
    if k < 0 && |s.table| >= cfg.tableSectors {
      var d := Drained(s);
      DrainedKeeps(cfg, s);
      StoreWritesOverlay(d.image, d.writeSector, d.buffer, d.table, sector, data);
    } else {
      StoreWritesOverlay(s.image, s.writeSector, s.buffer, s.table, sector, data);
    }
  }

  lemma {:induction false} StoreAllKeeps<S>(cfg: Config, s: State<S>, sector: nat, data: seq<S>)
    requires s.Valid(cfg) && cfg.writeback && cfg.writable && s.tableReady && sector + |data| <= |s.image| && cfg.tableSectors > 0
    ensures
      var s' := StoreAll(cfg, s, sector, data);
      s'.Valid(cfg) && s'.Flat() == Splice(s.Flat(), sector, data) && s'.cache == s.cache && s'.tableReady
  {
    if data != [] {
      var last := |data| - 1;
      StoreAllKeeps(cfg, s, sector, data[..last]);
      StoreLast(cfg, StoreAll(cfg, s, sector, data[..last]), s.Flat(), sector, data);
    } else {
      SpliceNothing(s.Flat(), sector, data);
    }
  }

  lemma SpliceNothing<S>(flat: seq<S>, at: nat, data: seq<S>)
    requires at + |data| <= |flat| && data == []
    ensures Splice(flat, at, data) == flat
  {
  }

  lemma StoreLast<S>(cfg: Config, s: State<S>, flat: seq<S>, sector: nat, data: seq<S>)
    requires s.Valid(cfg) && cfg.writeback && cfg.writable && s.tableReady && sector + |data| <= |s.image| && cfg.tableSectors > 0
    requires data != [] && |flat| == |s.image| && s.Flat() == Splice(flat, sector, data[..|data| - 1])
    ensures
      var s' := StoreOne(cfg, s, sector + |data| - 1, data[|data| - 1]);
      s'.Valid(cfg) && s'.Flat() == Splice(flat, sector, data) && s'.cache == s.cache && s'.tableReady
  {
    var last := |data| - 1;
    StoreOneKeeps(cfg, s, sector + last, data[last]);
    SpliceLast(flat, sector, data);
  }

  lemma SpliceLast<S>(flat: seq<S>, sector: nat, data: seq<S>)
    requires data != [] && sector + |data| <= |flat|
    ensures Splice(flat, sector, data) == Splice(flat, sector, data[..|data| - 1])[sector + |data| - 1 := data[|data| - 1]]
  {
    SpliceOneMore(flat, sector, data, |data| - 1);
    assert data[..|data|] == data;
  }

  lemma RoomMadeKeeps<S>(cfg: Config, s: State<S>, sector: nat, data: seq<S>)
    requires s.Valid(cfg) && |data| <= cfg.bufferSectors && sector + |data| <= |s.image|
    ensures
      var room := RoomMade(cfg, s, sector, data);
      && room.Valid(cfg) && room.Flat() == s.Flat() && room.table == s.table && room.cache == s.cache
      && room.writeSector + |room.buffer| == sector && |room.buffer| + |data| <= cfg.bufferSectors
  {
    BufferSentKeeps(cfg, s);
    var s' := if s.buffer != [] && (s.writeSector + |s.buffer| != sector || |s.buffer| + |data| > cfg.bufferSectors) then BufferSent(s) else s;
    if s'.buffer == [] {
      BufferAddressIrrelevant(s'.image, s'.writeSector, sector, s'.table);
    }
  }

  lemma BufferedKeeps<S>(cfg: Config, s: State<S>, sector: nat, data: seq<S>)
    requires s.Valid(cfg) && cfg.writable && sector + |data| <= |s.image|
    ensures
      var s' := Buffered(cfg, s, sector, data);
      && s'.Valid(cfg) && s'.cache == s.cache
      && s'.Flat() == if |data| > cfg.bufferSectors then Splice(s.Flat(), sector, data) else Under(s.Flat(), sector, data, s.table)
  {
    if |data| > cfg.bufferSectors {
      DrainedKeeps(cfg, s);
      var s' := Buffered(cfg, s, sector, data);
      CleanTableIsImage(s'.image, s'.writeSector, s'.table);
    } else {
      RoomMadeKeeps(cfg, s, sector, data);
      AppendKeeps(cfg, RoomMade(cfg, s, sector, data), sector, data);
    }
  }

  lemma AppendKeeps<S>(cfg: Config, s: State<S>, sector: nat, data: seq<S>)
    requires s.Valid(cfg) && cfg.writable && sector + |data| <= |s.image|
    requires s.writeSector + |s.buffer| == sector && |s.buffer| + |data| <= cfg.bufferSectors
    ensures
      var full := s.(buffer := s.buffer + data);
      && full.Valid(cfg) && full.Flat() == Under(s.Flat(), sector, data, s.table)
      && BufferSent(full).Valid(cfg) && BufferSent(full).Flat() == full.Flat() && BufferSent(full).cache == s.cache
  {
    AppendWritesOverlay(s.image, s.writeSector, s.buffer, data, s.table);
    BufferSentKeeps(cfg, s.(buffer := s.buffer + data));
  }

  /** A write too large for the table but not for the buffer, over a sector that is
      dirty in the table: the older contents stay on top. */
  predicate Shadowed<S>(cfg: Config, s: State<S>, sector: nat, n: nat) {
    cfg.tableSectors < n <= cfg.bufferSectors && DirtyWithin(s.table, sector, sector + n)
  }

  /** A write changes exactly its sectors of the flat disk, unless it is shadowed,
      and keeps the windows right. */
  lemma WriteKeeps<S>(cfg: Config, s: State<S>, sector: nat, data: seq<S>, allocOk: bool)
    requires s.Valid(cfg)
    ensures
      var s' := AfterWrite(cfg, s, sector, data, allocOk);
      && s'.Valid(cfg)
      && (s.Coherent() ==> s'.Coherent())
      && s'.Flat() == if !Writes(cfg, sector, |data|) then s.Flat()
                      else if Shadowed(cfg, s, sector, |data|) then Under(s.Flat(), sector, data, s.table)
                      else Splice(s.Flat(), sector, data)
  {
    if Writes(cfg, sector, |data|) {
      var dropped := s.(cache := s.cache.(windows := Dropped(s.cache.windows, sector, |data|)));
      assert dropped.Valid(cfg) && dropped.Flat() == s.Flat();
      if Stores(cfg, s, data, allocOk) {
        StoreAllKeeps(cfg, dropped.(tableReady := true), sector, data);
      } else {
        BufferedKeeps(cfg, dropped, sector, data);
        if |data| <= cfg.bufferSectors && !Shadowed(cfg, s, sector, |data|) {
          NotShadowed(cfg, s, sector, data, allocOk);
        }
      }
      var flat := AfterWrite(cfg, s, sector, data, allocOk).Flat();
      OutsideStays(s.Flat(), flat, sector, data, s.table);
      DroppedStaysRight(s.cache.windows, s.Flat(), flat, sector, |data|);
    }
  }

  lemma OutsideStays<S>(flat: seq<S>, flat': seq<S>, sector: nat, data: seq<S>, table: seq<Entry<S>>)
    requires sector + |data| <= |flat|
    requires flat' == Under(flat, sector, data, table) || flat' == Splice(flat, sector, data)
    ensures |flat'| == |flat| && forall i :: 0 <= i < |flat| && !(sector <= i < sector + |data|) ==> flat'[i] == flat[i]
  {
  }

  /** A write the table could have taken finds the table empty if it did not. */
  lemma NotShadowed<S>(cfg: Config, s: State<S>, sector: nat, data: seq<S>, allocOk: bool)
    requires s.Valid(cfg) && !Stores(cfg, s, data, allocOk) && sector + |data| <= |s.image|
    requires |data| <= cfg.bufferSectors && !Shadowed(cfg, s, sector, |data|)
    ensures Under(s.Flat(), sector, data, s.table) == Splice(s.Flat(), sector, data)
  {
    UnderIsSplice(s.Flat(), sector, data, s.table);
  }

  lemma DroppedStaysRight<S>(windows: seq<Window<S>>, flat: seq<S>, flat': seq<S>, sector: nat, n: nat)
    requires |flat'| == |flat| && forall i :: 0 <= i < |flat| && !(sector <= i < sector + n) ==> flat'[i] == flat[i]
    ensures AllAgree(windows, flat, 0, |flat|) ==> AllAgree(Dropped(windows, sector, n), flat', 0, |flat|)
  {
    hide Dropped;
    if AllAgree(windows, flat, 0, |flat|) {
      forall k | 0 <= k < |windows|
        ensures Agrees(Dropped(windows, sector, n)[k], flat', 0, |flat|)
      {
        assert Agrees(windows[k], flat, 0, |flat|);
      }
    }
  }

  /** Every dirty entry of the range already holds what is being written there. */
  ghost predicate HoldsAlready<S>(table: seq<Entry<S>>, sector: nat, data: seq<S>) {
    forall i :: 0 <= i < |table| && table[i].dirty && sector <= table[i].sector < sector + |data| ==> table[i].data == data[table[i].sector - sector]
  }

  /** An accepted write does what it should if and only if it is not shadowed, or
      only by what it writes. */
  lemma WriteIsRightIff<S>(cfg: Config, s: State<S>, sector: nat, data: seq<S>, allocOk: bool)
    requires s.Valid(cfg) && Writes(cfg, sector, |data|)
    ensures
      AfterWrite(cfg, s, sector, data, allocOk).Flat() == Splice(s.Flat(), sector, data)
      <==> !Shadowed(cfg, s, sector, |data|) || HoldsAlready(s.table, sector, data)
  {
    WriteKeeps(cfg, s, sector, data, allocOk);
    UnderIsSpliceIff(s, sector, data);
  }

  lemma UnderIsSpliceIff<S>(s: State<S>, sector: nat, data: seq<S>)
    requires UniqueDirty(s.table) && sector + |data| <= |s.image|
    ensures Under(s.Flat(), sector, data, s.table) == Splice(s.Flat(), sector, data) <==> HoldsAlready(s.table, sector, data)
  {
    var flat, table := s.Flat(), s.table;
    var under, splice := Under(flat, sector, data, table), Splice(flat, sector, data);
    if HoldsAlready(table, sector, data) {
      forall i | 0 <= i < |flat|
        ensures under[i] == splice[i]
      {
        var k := Slot(table, i);
      }
    } else {
      var k :| 0 <= k < |table| && table[k].dirty && sector <= table[k].sector < sector + |data| && table[k].data != data[table[k].sector - sector];
      SlotIsUnique(table, k);
      assert under[table[k].sector] != splice[table[k].sector];
    }
  }

  lemma SettledKeeps<S>(cfg: Config, s: State<S>, sector: nat, n: nat)
    requires s.Valid(cfg)
    ensures
      var s' := Settled(s, sector, n);
      s'.Valid(cfg) && s'.Flat() == s.Flat() && s'.cache == s.cache && SameOn(s'.image, s.Flat(), sector, sector + n)
  {
    if n > 0 && s.HasPending(sector, sector + n) {
      DrainedKeeps(cfg, s);
    } else {
      forall i: nat | sector <= i < sector + n && i < |s.image|
        ensures s.image[i] == s.Flat()[i]
      {
        var k := Slot(s.table, i);
      }
    }
  }

  /** The fetches of a read that its windows still hold afterwards, against what was
      pending when it made them. */
  ghost predicate FetchesStale<S>(cfg: Config, s: State<S>, op: Op<S>)
    requires cfg.Valid() && s.Valid(cfg)
  {
    op.ReadOp? && Reads(cfg, op.sector, op.n)
    && AnyStale(Settled(s, op.sector, op.n).image, s.Flat(), Latest(Served(cfg, s, op.sector, op.n).fetched, cfg.windowCount))
  }

  /** A read changes nothing on the flat disk; from right windows it answers
      right, and leaves them right exactly if no fetch it holds is stale. */
  lemma ReadKeeps<S>(cfg: Config, s: State<S>, sector: nat, n: nat)
    requires cfg.Valid() && s.Valid(cfg) && Reads(cfg, sector, n)
    ensures
      var s', r := After(cfg, s, ReadOp(sector, n)), Served(cfg, s, sector, n);
      && s'.Valid(cfg) && s'.Flat() == s.Flat()
      && (AllAgree(s.cache.windows, s.Flat(), sector, sector + n) ==> r.out == s.Flat()[sector..sector + n])
      && (s.Coherent() ==> (s'.Coherent() <==> !FetchesStale(cfg, s, ReadOp(sector, n))))
  {
    SettledKeeps(cfg, s, sector, n);
    ReadFacts(cfg, Settled(s, sector, n).image, s.Flat(), s.cache, sector, sector + n);
  }

  lemma ReadLeaves<S>(cfg: Config, s: State<S>, sector: nat, n: nat)
    requires cfg.Valid() && s.Valid(cfg) && Reads(cfg, sector, n)
    ensures Settled(s, sector, n).(cache := Served(cfg, s, sector, n).cache).Valid(cfg)
  {
    ReadKeeps(cfg, s, sector, n);
  }

  lemma ReadFacts<S>(cfg: Config, image: seq<S>, flat: seq<S>, c: Cache<S>, sector: nat, end: nat)
    requires Start(c, sector).CanServe(cfg, image, end) && |flat| == |image|
    requires c.Valid(cfg) && SameOn(image, flat, sector, end)
    ensures
      var r := Serve(cfg, image, end, Start(c, sector));
      && r.cache.Valid(cfg)
      && (AllAgree(c.windows, flat, sector, end) ==> r.out == flat[sector..end])
      && (AllAgree(c.windows, flat, 0, |flat|) ==>
            (AllAgree(r.cache.windows, flat, 0, |flat|) <==> !AnyStale(image, flat, Latest(r.fetched, cfg.windowCount))))
      && (cfg.prefetchSectors == 1 ==> !AnyStale(image, flat, Latest(r.fetched, cfg.windowCount)))
  {
    ServeStaysValid(cfg, image, end, Start(c, sector));
    if AllAgree(c.windows, flat, sector, end) {
      ServeIsRight(cfg, image, flat, c, sector, end);
    }
    if AllAgree(c.windows, flat, 0, |flat|) {
      ReadStaysRightIff(cfg, image, flat, c, sector, end);
    }
    if cfg.prefetchSectors == 1 {
      NoPrefetchNothingStale(cfg, image, flat, c, sector, end);
      LatestAreFetches(image, flat, Serve(cfg, image, end, Start(c, sector)).fetched, cfg.windowCount);
    }
  }

  lemma StepKeeps<S>(cfg: Config, s: State<S>, op: Op<S>)
    requires cfg.Valid() && s.Valid(cfg)
    ensures After(cfg, s, op).Valid(cfg)
  {
    match op
    case ReadOp(sector, n) =>
      if Reads(cfg, sector, n) {
        ReadKeeps(cfg, s, sector, n);
      }
    case WriteOp(sector, data, allocOk) => WriteKeeps(cfg, s, sector, data, allocOk);
    case FlushOp(_) => DrainedKeeps(cfg, s);
  }

  /** Reading one sector, from right windows: they stay right if and only if a
      window covers it, or it is itself pending, or nothing in the extent that a
      miss fetches is pending with other contents. */
  lemma OneSectorStaysRightIff<S>(cfg: Config, s: State<S>, sector: nat)
    requires cfg.Valid() && s.Valid(cfg) && Reads(cfg, sector, 1) && s.Coherent()
    ensures
      After(cfg, s, ReadOp(sector, 1)).Coherent() <==>
      || FirstCovering(s.cache.windows, sector) >= 0
      || s.HasPending(sector, sector + 1)
      || !Stale(s.image, s.Flat(), FetchExtent(cfg, sector, sector + 1, sector + 1))
  {
    var e, image := FetchExtent(cfg, sector, sector + 1, sector + 1), Settled(s, sector, 1).image;
    ReadKeeps(cfg, s, sector, 1);
    SettledKeeps(cfg, s, sector, 1);
    ServeOne(cfg, image, s.cache, sector);
    var latest := Latest(Served(cfg, s, sector, 1).fetched, cfg.windowCount);
    assert FirstCovering(s.cache.windows, sector) < 0 ==> latest == [e] && latest[0] == e;
  }

  // ------------------------------------------------------------------ whole runs

  // A flat disk with its own request limits: ranges that lie on it, of at most as
  // many sectors as one request takes.

  function FlatAfter<S>(cfg: Config, disk: seq<S>, op: Op<S>): (disk': seq<S>)
    requires |disk| == cfg.nbSectors
    ensures |disk'| == |disk|
  {
    if op.WriteOp? && cfg.writable && |op.data| <= cfg.maxSectors && op.sector + |op.data| <= |disk| then Splice(disk, op.sector, op.data)
    else disk
  }

  function FlatReply<S>(cfg: Config, disk: seq<S>, op: Op<S>): Reply<S>
    requires |disk| == cfg.nbSectors
  {
    match op
    case ReadOp(sector, n) => if 0 <= n <= cfg.maxSectors && sector + n <= |disk| then Data(disk[sector..sector + n]) else Refused
    case WriteOp(sector, data, _) => if cfg.writable && |data| <= cfg.maxSectors && sector + |data| <= |disk| then Done else Refused
    case FlushOp(flushes) => if cfg.writable && cfg.strictFlush && !flushes then Refused else Done
  }

  function FlatDisk<S>(cfg: Config, disk: seq<S>, ops: seq<Op<S>>): (disk': seq<S>)
    requires |disk| == cfg.nbSectors
    ensures |disk'| == |disk|
    decreases |ops|
  {
    if ops == [] then disk else FlatDisk(cfg, FlatAfter(cfg, disk, ops[0]), ops[1..])
  }

  function FlatReplies<S>(cfg: Config, disk: seq<S>, ops: seq<Op<S>>): (replies: seq<Reply<S>>)
    requires |disk| == cfg.nbSectors
    ensures |replies| == |ops|
    decreases |ops|
  {
    if ops == [] then [] else [FlatReply(cfg, disk, ops[0])] + FlatReplies(cfg, FlatAfter(cfg, disk, ops[0]), ops[1..])
  }

  /** The client's state after a run, and its replies. */
  ghost function StateAfter<S>(cfg: Config, s: State<S>, ops: seq<Op<S>>): State<S>
    requires cfg.Valid() && s.Valid(cfg)
    decreases |ops|
  {
    if ops == [] then s
    else
      StepKeeps(cfg, s, ops[0]);
      StateAfter(cfg, After(cfg, s, ops[0]), ops[1..])
  }

  ghost function Replies<S>(cfg: Config, s: State<S>, ops: seq<Op<S>>): (replies: seq<Reply<S>>)
    requires cfg.Valid() && s.Valid(cfg)
    ensures |replies| == |ops|
    decreases |ops|
  {
    if ops == [] then []
    else
      StepKeeps(cfg, s, ops[0]);
      [ReplyTo(cfg, s, ops[0])] + Replies(cfg, After(cfg, s, ops[0]), ops[1..])
  }

  predicate ShadowedOp<S>(cfg: Config, s: State<S>, op: Op<S>) {
    op.WriteOp? && Writes(cfg, op.sector, |op.data|) && Shadowed(cfg, s, op.sector, |op.data|)
  }

  /** No write of a run is shadowed. */
  ghost predicate NoneShadowed<S>(cfg: Config, s: State<S>, ops: seq<Op<S>>)
    requires cfg.Valid() && s.Valid(cfg)
    decreases |ops|
  {
    ops == [] ||
    (StepKeeps(cfg, s, ops[0]);
     !ShadowedOp(cfg, s, ops[0]) && NoneShadowed(cfg, After(cfg, s, ops[0]), ops[1..]))
  }

  /** No read of a run leaves a stale fetch in the windows. */
  ghost predicate NoneStale<S>(cfg: Config, s: State<S>, ops: seq<Op<S>>)
    requires cfg.Valid() && s.Valid(cfg)
    decreases |ops|
  {
    ops == [] ||
    (StepKeeps(cfg, s, ops[0]);
     !FetchesStale(cfg, s, ops[0]) && NoneStale(cfg, After(cfg, s, ops[0]), ops[1..]))
  }

  /** The windows are right after every operation of a run. */
  ghost predicate AlwaysCoherent<S>(cfg: Config, s: State<S>, ops: seq<Op<S>>)
    requires cfg.Valid() && s.Valid(cfg)
    decreases |ops|
  {
    s.Coherent() &&
    (ops == [] ||
     (StepKeeps(cfg, s, ops[0]);
      AlwaysCoherent(cfg, After(cfg, s, ops[0]), ops[1..])))
  }

  /** From right windows a read of a range on the disk, of at most as many sectors
      as a request takes, is answered with those sectors of the flat disk, and any
      other is refused. */
  lemma ReadAnswers<S>(cfg: Config, s: State<S>, sector: nat, n: int)
    requires cfg.Valid() && s.Valid(cfg) && s.Coherent()
    ensures
      ReplyTo(cfg, s, ReadOp(sector, n)) ==
      if 0 <= n <= cfg.maxSectors && sector + n <= cfg.nbSectors then Data(s.Flat()[sector..sector + n]) else Refused
  {
    if Reads(cfg, sector, n) {
      ReadKeeps(cfg, s, sector, n);
    }
  }

  /** A write to a writable disk, of a range on it and of at most as many sectors,
      is taken; any other is refused and changes nothing. */
  lemma WriteAnswers<S>(cfg: Config, s: State<S>, sector: nat, data: seq<S>, allocOk: bool)
    requires cfg.Valid() && s.Valid(cfg)
    ensures
      if cfg.writable && |data| <= cfg.maxSectors && sector + |data| <= cfg.nbSectors then
        ReplyTo(cfg, s, WriteOp(sector, data, allocOk)) == Done
      else ReplyTo(cfg, s, WriteOp(sector, data, allocOk)) == Refused && After(cfg, s, WriteOp(sector, data, allocOk)) == s
  {
  }

  lemma StepIsFlat<S>(cfg: Config, s: State<S>, op: Op<S>)
    requires cfg.Valid() && s.Valid(cfg)
    ensures
      var s' := After(cfg, s, op);
      && (!ShadowedOp(cfg, s, op) ==> s'.Flat() == FlatAfter(cfg, s.Flat(), op))
      && (s.Coherent() ==> ReplyTo(cfg, s, op) == FlatReply(cfg, s.Flat(), op) && (s'.Coherent() <==> !FetchesStale(cfg, s, op)))
  {
    match op
    case ReadOp(sector, n) =>
      if Reads(cfg, sector, n) {
        ReadKeeps(cfg, s, sector, n);
      }
    case WriteOp(sector, data, allocOk) => WriteKeeps(cfg, s, sector, data, allocOk);
    case FlushOp(_) => DrainedKeeps(cfg, s);
  }

  /** From right windows, they are right throughout a run exactly if none of its
      fetches is stale. */
  lemma {:induction false} CoherentIff<S>(cfg: Config, s: State<S>, ops: seq<Op<S>>)
    requires cfg.Valid() && s.Valid(cfg) && s.Coherent()
    ensures AlwaysCoherent(cfg, s, ops) <==> NoneStale(cfg, s, ops)
    decreases |ops|
  {
    if ops != [] {
      StepKeeps(cfg, s, ops[0]);
      StepIsFlat(cfg, s, ops[0]);
      if After(cfg, s, ops[0]).Coherent() {
        CoherentIff(cfg, After(cfg, s, ops[0]), ops[1..]);
      }
    }
  }

  /** Over every run in which no write is shadowed the client's layers are the flat
      disk; while the windows are right throughout, every reply is the flat disk's. */
  lemma {:induction false} RunIsFlat<S>(cfg: Config, s: State<S>, ops: seq<Op<S>>)
    requires cfg.Valid() && s.Valid(cfg) && NoneShadowed(cfg, s, ops)
    ensures StateAfter(cfg, s, ops).Valid(cfg) && StateAfter(cfg, s, ops).Flat() == FlatDisk(cfg, s.Flat(), ops)
    ensures AlwaysCoherent(cfg, s, ops) ==> Replies(cfg, s, ops) == FlatReplies(cfg, s.Flat(), ops) && StateAfter(cfg, s, ops).Coherent()
    decreases |ops|
  {
    if ops != [] {
      StepKeeps(cfg, s, ops[0]);
      StepIsFlat(cfg, s, ops[0]);
      RunIsFlat(cfg, After(cfg, s, ops[0]), ops[1..]);
    }
  }

  /** With a table as large as the writes it is offered nothing is shadowed. */
  lemma {:induction false} RoomyNeverShadows<S>(cfg: Config, s: State<S>, ops: seq<Op<S>>)
    requires cfg.Valid() && s.Valid(cfg) && cfg.RoomyTable()
    ensures NoneShadowed(cfg, s, ops)
    decreases |ops|
  {
    if ops != [] {
      StepKeeps(cfg, s, ops[0]);
      RoomyNeverShadows(cfg, After(cfg, s, ops[0]), ops[1..]);
    }
  }

  /** Without prefetching no fetch is stale. */
  lemma {:induction false} NoPrefetchNeverStale<S>(cfg: Config, s: State<S>, ops: seq<Op<S>>)
    requires cfg.Valid() && s.Valid(cfg) && cfg.prefetchSectors == 1
    ensures NoneStale(cfg, s, ops)
    decreases |ops|
  {
    if ops != [] {
      StepKeeps(cfg, s, ops[0]);
      NoPrefetchFetchesFresh(cfg, s, ops[0]);
      NoPrefetchNeverStale(cfg, After(cfg, s, ops[0]), ops[1..]);
    }
  }

  lemma NoPrefetchFetchesFresh<S>(cfg: Config, s: State<S>, op: Op<S>)
    requires cfg.Valid() && s.Valid(cfg) && cfg.prefetchSectors == 1
    ensures !FetchesStale(cfg, s, op)
  {
    if op.ReadOp? && Reads(cfg, op.sector, op.n) {
      SettledKeeps(cfg, s, op.sector, op.n);
      ReadFacts(cfg, Settled(s, op.sector, op.n).image, s.Flat(), s.cache, op.sector, op.sector + op.n);
    }
  }

  // -------------------------------------------------------------------- examples

  /** A client just opened. */
  ghost predicate Opened<S>(cfg: Config, s: State<S>) {
    && cfg.Valid() && |s.image| == cfg.nbSectors && s.buffer == [] && s.table == []
    && |s.cache.windows| == cfg.windowCount && s.cache.next == 0 && forall k :: 0 <= k < |s.cache.windows| ==> s.cache.windows[k] == Window(0, [])
  }

  lemma OpenedIsRight<S>(cfg: Config, s: State<S>)
    requires Opened(cfg, s)
    ensures s.Valid(cfg) && s.Flat() == s.image && s.Coherent()
  {
    CleanTableIsImage(s.image, s.writeSector, s.table);
  }

  lemma {:induction false} NothingDropped<S>(windows: seq<Window<S>>, sector: nat, n: nat)
    requires forall k :: 0 <= k < |windows| ==> windows[k].data == []
    ensures Dropped(windows, sector, n) == windows
  {
    if windows != [] {
      NothingDropped(windows[1..], sector, n);
    }
  }

  /** Storing one sector in an empty table. */
  lemma FirstStore<S>(cfg: Config, s: State<S>, sector: nat, d: S)
    requires Opened(cfg, s) && cfg.writable && cfg.writeback && cfg.tableSectors > 0 && sector < cfg.nbSectors
    ensures After(cfg, s, WriteOp(sector, [d], true)) == s.(table := [Entry(sector, d, true)], tableReady := true)
    ensures After(cfg, s, WriteOp(sector, [d], true)).Flat() == s.image[sector := d]
  {
    OpenedIsRight(cfg, s);
    NothingDropped(s.cache.windows, sector, 1);
    assert s.cache.(windows := s.cache.windows) == s.cache;
    var s' := s.(tableReady := true);
    assert [d][..0] == [];
    assert StoreAll(cfg, s', sector, [d][..0]) == s';
    WriteKeeps(cfg, s, sector, [d], true);
    assert Splice(s.image, sector, [d]) == s.image[sector := d];
  }

  /** Read-your-writes fails without the condition. Sector 1 is written and still
      pending when reading sector 0 prefetches both; reading sector 1 then drains
      the write and answers from the stale window. */
  lemma StaleReadExample<S>(s: State<S>, a: S, b: S)
    requires Opened(Config(4, 4, 2, 8, 512, 1024, 2048, true, true, false), s) && s.image == [a, a, a, a] && a != b
    ensures
      var cfg, ops := Config(4, 4, 2, 8, 512, 1024, 2048, true, true, false), [WriteOp(1, [b], true), ReadOp(0, 1), ReadOp(1, 1)];
      && s.Valid(cfg)
      && Replies(cfg, s, ops) == [Done, Data([a]), Data([a])]
      && FlatReplies(cfg, s.image, ops) == [Done, Data([a]), Data([b])]
  {
    var cfg := Config(4, 4, 2, 8, 512, 1024, 2048, true, true, false);
    var write, read0, read1 := WriteOp(1, [b], true), ReadOp(0, 1), ReadOp(1, 1);
    OpenedIsRight(cfg, s);
    FirstStore(cfg, s, 1, b);
    StepKeeps(cfg, s, write);
    var s1 := After(cfg, s, write);
    OnlyPending(s1, 1, b);
    FirstRead(cfg, s1, a);
    StepKeeps(cfg, s1, read0);
    var s2 := After(cfg, s1, read0);
    OnlyPending(s2, 1, b);
    SecondRead(cfg, s2, a);
    ThreeReplies(cfg, s, write, read0, read1);
    StaleFlatReplies(cfg, s.image, a, b);
  }

  lemma StaleFlatReplies<S>(cfg: Config, disk: seq<S>, a: S, b: S)
    requires cfg == Config(4, 4, 2, 8, 512, 1024, 2048, true, true, false) && disk == [a, a, a, a]
    ensures FlatReplies(cfg, disk, [WriteOp(1, [b], true), ReadOp(0, 1), ReadOp(1, 1)]) == [Done, Data([a]), Data([b])]
  {
    ThreeFlatReplies(cfg, disk, WriteOp(1, [b], true), ReadOp(0, 1), ReadOp(1, 1));
    assert Splice(disk, 1, [b]) == [a, b, a, a];
    assert [a, b, a, a][0..1] == [a] && [a, b, a, a][1..2] == [b];
  }

  lemma OnlyPending<S>(s: State<S>, sector: nat, d: S)
    requires s.buffer == [] && s.table == [Entry(sector, d, true)]
    ensures forall lo: nat, hi: nat :: s.HasPending(lo, hi) <==> lo <= sector < hi
  {
    assert s.table[0].dirty;
  }

  lemma FirstRead<S>(cfg: Config, s: State<S>, a: S)
    requires cfg == Config(4, 4, 2, 8, 512, 1024, 2048, true, true, false) && s.Valid(cfg) && !s.HasPending(0, 1)
    requires s.image == [a, a, a, a] && s.cache.next == 0 && forall k :: 0 <= k < |s.cache.windows| ==> s.cache.windows[k] == Window(0, [])
    ensures ReplyTo(cfg, s, ReadOp(0, 1)) == Data([a])
    ensures
      var s' := After(cfg, s, ReadOp(0, 1));
      && s'.cache.windows[0] == Window(0, [a, a]) && s' == s.(cache := s'.cache)
  {
    hide Serve, FirstCovering, FetchExtent, Overlay;
    FirstServed(cfg, s.image, s.cache, a);
  }

  lemma FirstServed<S>(cfg: Config, image: seq<S>, c: Cache<S>, a: S)
    requires cfg == Config(4, 4, 2, 8, 512, 1024, 2048, true, true, false) && image == [a, a, a, a] && c.Valid(cfg)
    requires c.next == 0 && forall k :: 0 <= k < |c.windows| ==> c.windows[k] == Window(0, [])
    ensures var r := Serve(cfg, image, 1, Start(c, 0)); r.out == [a] && r.cache.windows[0] == Window(0, [a, a])
  {
    hide Serve;
    assert FetchExtent(cfg, 0, 1, 1) == Extent(0, 2);
    FirstCoveringIsFirst(c.windows, 0);
    ServeOne(cfg, image, c, 0);
    assert image[0..2] == [a, a];
  }

  lemma SecondRead<S>(cfg: Config, s: State<S>, a: S)
    requires cfg == Config(4, 4, 2, 8, 512, 1024, 2048, true, true, false) && s.Valid(cfg) && s.HasPending(1, 2)
    requires s.cache.windows[0] == Window(0, [a, a])
    ensures ReplyTo(cfg, s, ReadOp(1, 1)) == Data([a])
  {
    hide Serve, Overlay;
    assert s.cache.windows[0].Covers(1);
    ServeOne(cfg, Drained(s).image, s.cache, 1);
  }

  lemma ThreeReplies<S>(cfg: Config, s: State<S>, a: Op<S>, b: Op<S>, c: Op<S>)
    requires cfg.Valid() && s.Valid(cfg) && After(cfg, s, a).Valid(cfg) && After(cfg, After(cfg, s, a), b).Valid(cfg)
    ensures Replies(cfg, s, [a, b, c]) == [ReplyTo(cfg, s, a), ReplyTo(cfg, After(cfg, s, a), b), ReplyTo(cfg, After(cfg, After(cfg, s, a), b), c)]
  {
    assert [a, b, c][1..] == [b, c] && [b, c][1..] == [c] && [c][1..] == [];
    var last := After(cfg, After(cfg, s, a), b);
    assert Replies(cfg, last, [c]) == [ReplyTo(cfg, last, c)];
  }

  lemma ThreeFlatReplies<S>(cfg: Config, disk: seq<S>, a: Op<S>, b: Op<S>, c: Op<S>)
    requires |disk| == cfg.nbSectors
    ensures
      FlatReplies(cfg, disk, [a, b, c])
      == [FlatReply(cfg, disk, a), FlatReply(cfg, FlatAfter(cfg, disk, a), b), FlatReply(cfg, FlatAfter(cfg, FlatAfter(cfg, disk, a), b), c)]
  {
    assert [a, b, c][1..] == [b, c] && [b, c][1..] == [c] && [c][1..] == [];
    var last := FlatAfter(cfg, FlatAfter(cfg, disk, a), b);
    assert FlatReplies(cfg, last, [c]) == [FlatReply(cfg, last, c)];
  }

  /** With a table of one sector a write of two over a dirty one is lost on it. */
  lemma ShadowExample<S>(s: State<S>, a: S, b: S, c: S)
    requires Opened(Config(4, 4, 1, 8, 512, 4, 1, true, true, false), s) && s.image == [a, a, a, a] && b != c
    ensures
      var cfg, ops := Config(4, 4, 1, 8, 512, 4, 1, true, true, false), [WriteOp(0, [b], true), WriteOp(0, [c, c], true)];
      && s.Valid(cfg) && !NoneShadowed(cfg, s, ops)
      && StateAfter(cfg, s, ops).Flat() == [b, c, a, a] && FlatDisk(cfg, s.image, ops) == [c, c, a, a]
  {
    var cfg := Config(4, 4, 1, 8, 512, 4, 1, true, true, false);
    var first, second := WriteOp(0, [b], true), WriteOp(0, [c, c], true);
    OpenedIsRight(cfg, s);
    FirstStore(cfg, s, 0, b);
    StepKeeps(cfg, s, first);
    var s1 := After(cfg, s, first);
    OnlyPending(s1, 0, b);
    ShadowedWrite(cfg, s1, a, b, c);
    TwoStates(cfg, s, first, second);
    ShadowFlatDisk(cfg, s.image, first, second, a, b, c);
  }

  lemma ShadowFlatDisk<S>(cfg: Config, disk: seq<S>, first: Op<S>, second: Op<S>, a: S, b: S, c: S)
    requires cfg == Config(4, 4, 1, 8, 512, 4, 1, true, true, false) && disk == [a, a, a, a]
    requires first == WriteOp(0, [b], true) && second == WriteOp(0, [c, c], true)
    ensures FlatDisk(cfg, disk, [first, second]) == [c, c, a, a]
  {
    TwoFlatDisks(cfg, disk, first, second);
    assert Splice(disk, 0, [b]) == [b, a, a, a];
    assert Splice([b, a, a, a], 0, [c, c]) == [c, c, a, a];
  }

  lemma ShadowedWrite<S>(cfg: Config, s: State<S>, a: S, b: S, c: S)
    requires cfg == Config(4, 4, 1, 8, 512, 4, 1, true, true, false) && s.Valid(cfg)
    requires s.table == [Entry(0, b, true)] && s.Flat() == [a, a, a, a][0 := b] && s.HasPending(0, 2) && s.buffer == []
    ensures Shadowed(cfg, s, 0, 2) && After(cfg, s, WriteOp(0, [c, c], true)).Flat() == [b, c, a, a]
  {
    hide AfterWrite, Overlay;
    WriteKeeps(cfg, s, 0, [c, c], true);
    assert Slot(s.table, 0) == 0 && Slot(s.table, 1) < 0;
    assert Under(s.Flat(), 0, [c, c], s.table) == [b, c, a, a];
  }

  lemma TwoStates<S>(cfg: Config, s: State<S>, a: Op<S>, b: Op<S>)
    requires cfg.Valid() && s.Valid(cfg) && After(cfg, s, a).Valid(cfg)
    ensures StateAfter(cfg, s, [a, b]) == After(cfg, After(cfg, s, a), b)
    ensures NoneShadowed(cfg, s, [a, b]) ==> !ShadowedOp(cfg, After(cfg, s, a), b)
  {
    var s1 := After(cfg, s, a);
    StepKeeps(cfg, s1, b);
    assert [a, b][1..] == [b] && [b][1..] == [];
    assert StateAfter(cfg, s1, [b]) == After(cfg, s1, b);
    assert NoneShadowed(cfg, s1, [b]) ==> !ShadowedOp(cfg, s1, b);
  }

  lemma TwoFlatDisks<S>(cfg: Config, disk: seq<S>, a: Op<S>, b: Op<S>)
    requires |disk| == cfg.nbSectors
    ensures FlatDisk(cfg, disk, [a, b]) == FlatAfter(cfg, FlatAfter(cfg, disk, a), b)
  {
    assert [a, b][1..] == [b] && [b][1..] == [];
    var disk1 := FlatAfter(cfg, disk, a);
    assert FlatDisk(cfg, disk1, [b]) == FlatAfter(cfg, disk1, b);
  }
}
