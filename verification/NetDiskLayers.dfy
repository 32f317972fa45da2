/** The network block device client: rolling read windows, a contiguous write
    buffer and a write-back table of dirty sectors in front of a remote image.

    Seen from the guest the device is one flat array of sectors. `Overlay` is
    that array: the remote image, covered by the write buffer, covered by the
    dirty entries of the table. The payload of a sector is never inspected, so
    it is the type parameter `S`. */
module NetDiskLayers {
  import opened Sequences

  /** The largest WRITE the server accepts, in sectors. */
  const PROTOCOL_MAX_SECTORS: nat := 1024

  /** Every sector number lies below this sentinel of the drain search. */
  const UINT64_MAX: nat := 0xFFFF_FFFF_FFFF_FFFF

  /** The compile-time sizes (all overridable) and the values negotiated when
      the device is opened. */
  datatype Config = Config(
    nbSectors: nat,
    maxSectors: nat,
    prefetchSectors: nat,
    windowCount: nat,
    windowSectors: nat,
    bufferSectors: nat,
    tableSectors: nat,
    writeback: bool,
    writable: bool,
    strictFlush: bool)
  {
    predicate Valid() {
      && 1 <= nbSectors < UINT64_MAX
      && 1 <= maxSectors <= PROTOCOL_MAX_SECTORS
      && 1 <= prefetchSectors <= maxSectors
      && prefetchSectors <= windowSectors
      && 1 <= windowCount
      && 1 <= bufferSectors <= PROTOCOL_MAX_SECTORS
    }

    /** Every write that fits the buffer fits the table, as with the default sizes. */
    predicate RoomyTable() {
      maxSectors <= tableSectors || bufferSectors <= tableSectors || !writeback
    }
  }

  /** One slot of the write-back table. */
  datatype Entry<S> = Entry(sector: nat, data: S, dirty: bool)
  {
    predicate Holds(s: nat) {
      dirty && sector == s
    }
  }

  /** A range of sectors named by one request. */
  datatype Extent = Extent(lba: nat, count: nat)
  {
    function End(): nat {
      lba + count
    }
  }

  // ---------------------------------------------------------------- overlay

  lemma SpliceOneMore<S>(base: seq<S>, at: nat, data: seq<S>, i: nat)
    requires i < |data| && at + |data| <= |base|
    ensures Splice(base, at, data[..i + 1]) == Splice(base, at, data[..i])[at + i := data[i]]
  {
  }

  /** The slot the table search finds for `s`: the first dirty entry that
      names it, or -1. */
  function Slot<S>(table: seq<Entry<S>>, s: nat): (k: int)
    ensures -1 <= k < |table|
    ensures k >= 0 ==> table[k].Holds(s)
    ensures forall j :: 0 <= j < (if k < 0 then |table| else k) ==> !table[j].Holds(s)
  {
    if table == [] then -1
    else if table[0].Holds(s) then 0
    else
      var k := Slot(table[1..], s);
      if k < 0 then -1 else k + 1
  }

  ghost predicate UniqueDirty<S>(table: seq<Entry<S>>) {
    forall i, j :: 0 <= i < j < |table| && table[i].dirty && table[j].dirty
      ==> table[i].sector != table[j].sector
  }

  ghost function SectorSet(lo: nat, hi: nat): (r: set<nat>)
    ensures forall s: nat :: s in r <==> lo <= s < hi
    decreases hi - lo
  {
    if hi <= lo then {} else {lo} + SectorSet(lo + 1, hi)
  }

  ghost function DirtySectors<S>(table: seq<Entry<S>>): set<nat> {
    set i | 0 <= i < |table| && table[i].dirty :: table[i].sector
  }

  function SectorAt<S>(image: seq<S>, at: nat, buffer: seq<S>, table: seq<Entry<S>>, i: nat): S
    requires i < |image|
  {
    var k := Slot(table, i);
    if k >= 0 then table[k].data
    else if at <= i < at + |buffer| then buffer[i - at]
    else image[i]
  }

  /** The flat disk the three layers stand for. */
  function Overlay<S>(image: seq<S>, at: nat, buffer: seq<S>, table: seq<Entry<S>>): (flat: seq<S>)
    ensures |flat| == |image|
    ensures forall i :: 0 <= i < |image| ==> flat[i] == SectorAt(image, at, buffer, table, i)
  {
    seq(|image|, i requires 0 <= i < |image| => SectorAt(image, at, buffer, table, i))
  }

  lemma SlotIsUnique<S>(table: seq<Entry<S>>, k: nat)
    requires k < |table| && table[k].dirty && UniqueDirty(table)
    ensures Slot(table, table[k].sector) == k
  {
  }

  /** Sending the buffer to the image changes nothing the guest can see. */
  lemma FlushKeepsOverlay<S>(image: seq<S>, at: nat, buffer: seq<S>, table: seq<Entry<S>>)
    requires at + |buffer| <= |image|
    ensures Overlay(Splice(image, at, buffer), at, [], table) == Overlay(image, at, buffer, table)
  {
  }

  /** `flat` with `data` written below the table: a dirty entry hides it. */
  function Under<S>(flat: seq<S>, at: nat, data: seq<S>, table: seq<Entry<S>>): (r: seq<S>)
    ensures |r| == |flat|
    ensures forall i :: 0 <= i < |flat| ==> r[i] == if at <= i < at + |data| && Slot(table, i) < 0 then data[i - at] else flat[i]
  {
    seq(|flat|, i requires 0 <= i < |flat| => if at <= i < at + |data| && Slot(table, i) < 0 then data[i - at] else flat[i])
  }

  /** Some sector of [lo, hi) is dirty in the table. */
  predicate DirtyWithin<S>(table: seq<Entry<S>>, lo: nat, hi: nat) {
    exists i :: 0 <= i < |table| && table[i].dirty && lo <= table[i].sector < hi
  }

  /** Appending to the buffer writes below the table. */
  lemma AppendWritesOverlay<S>(image: seq<S>, at: nat, buffer: seq<S>, data: seq<S>, table: seq<Entry<S>>)
    requires at + |buffer| + |data| <= |image|
    ensures Overlay(image, at, buffer + data, table) == Under(Overlay(image, at, buffer, table), at + |buffer|, data, table)
  {
  }

  /** That is a plain write where the table holds nothing of it. */
  lemma UnderIsSplice<S>(flat: seq<S>, at: nat, data: seq<S>, table: seq<Entry<S>>)
    requires at + |data| <= |flat| && !DirtyWithin(table, at, at + |data|)
    ensures Under(flat, at, data, table) == Splice(flat, at, data)
  {
    forall i | at <= i < at + |data|
      ensures Slot(table, i) < 0
    {
      var k := Slot(table, i);
    }
  }

  /** Storing one sector in its slot, or in a new last slot, overwrites that
      sector of the flat disk and keeps the dirty entries unique. */
  lemma StoreWritesOverlay<S>(image: seq<S>, at: nat, buffer: seq<S>, table: seq<Entry<S>>, s: nat, data: S)
    requires s < |image| && UniqueDirty(table)
    ensures
      var k := Slot(table, s);
      var e := Entry(s, data, true);
      var table' := if k < 0 then table + [e] else table[k := e];
      && UniqueDirty(table')
      && Overlay(image, at, buffer, table') == Overlay(image, at, buffer, table)[s := data]
  {
    var k := Slot(table, s);
    var e := Entry(s, data, true);
    var table' := if k < 0 then table + [e] else table[k := e];
    assert UniqueDirty(table');
    var flat, flat' := Overlay(image, at, buffer, table), Overlay(image, at, buffer, table');
    forall i | 0 <= i < |image|
      ensures flat'[i] == flat[s := data][i]
    {
      var j := Slot(table, i);
      if i == s {
        SlotIsUnique(table', if k < 0 then |table| else k);
      } else if j >= 0 {
        assert table'[j] == table[j];
        SlotIsUnique(table', j);
      } else {
        assert Slot(table', i) < 0;
      }
    }
  }

  // ------------------------------------------------------------------ drain

  /** `table'` is `table` with the dirty entries of [at, end) cleaned. */
  ghost predicate Cleaned<S>(table: seq<Entry<S>>, table': seq<Entry<S>>, at: nat, end: nat) {
    && |table'| == |table|
    && forall i :: 0 <= i < |table| ==>
         table'[i] == if table[i].dirty && at <= table[i].sector < end
                      then table[i].(dirty := false) else table[i]
  }

  /** `data` holds, in order, the dirty sectors starting at `at`. */
  ghost predicate Gathered<S>(table: seq<Entry<S>>, at: nat, data: seq<S>) {
    forall k: nat :: k < |data| ==> DirtyIn(table, at + k, data[k])
  }

  /** The table holds `d` as the pending contents of sector `s`. */
  ghost predicate DirtyIn<S>(table: seq<Entry<S>>, s: nat, d: S) {
    var k := Slot(table, s);
    k >= 0 && table[k].data == d
  }

  /** Writing a gathered run to the image and cleaning its entries changes
      nothing the guest can see. */
  lemma RunKeepsOverlay<S>(image: seq<S>, table: seq<Entry<S>>, table': seq<Entry<S>>, at: nat, data: seq<S>, w: nat)
    requires UniqueDirty(table) && at + |data| <= |image|
    requires Cleaned(table, table', at, at + |data|) && Gathered(table, at, data)
    ensures UniqueDirty(table')
    ensures DirtySectors(table') == DirtySectors(table) - SectorSet(at, at + |data|)
    ensures Overlay(Splice(image, at, data), w, [], table') == Overlay(image, w, [], table)
  {
    var image' := Splice(image, at, data);
    forall i: nat | i < |image|
      ensures SectorAt(image', w, [], table', i) == SectorAt(image, w, [], table, i)
    {
      var k := Slot(table, i);
      if at <= i < at + |data| {
        var j := i - at;
        var d := data[j];
        assert Slot(table, at + j) == k && d == table[k].data;
        assert Slot(table', i) < 0;
      } else if k >= 0 {
        assert table'[k] == table[k];
        SlotIsUnique(table', k);
      } else {
        assert Slot(table', i) < 0;
      }
    }
    CleanedDirty(table, table', at, at + |data|);
  }

  lemma CleanedDirty<S>(table: seq<Entry<S>>, table': seq<Entry<S>>, at: nat, end: nat)
    requires Cleaned(table, table', at, end)
    ensures DirtySectors(table') == DirtySectors(table) - SectorSet(at, end)
  {
    forall s: nat
      ensures s in DirtySectors(table') <==> s in DirtySectors(table) && !(at <= s < end)
    {
      if s in DirtySectors(table) && !(at <= s < end) {
        var i :| 0 <= i < |table| && table[i].dirty && table[i].sector == s;
        assert table'[i] == table[i];
      }
    }
  }

  /** The WRITEs of one drain: each at most `cap` sectors, at strictly rising
      disjoint addresses, split only where a gap or `cap` forces it, and
      together covering exactly `dirty`. So every dirty sector is sent once. */
  ghost predicate SendsExactly(runs: seq<Extent>, dirty: set<nat>, cap: nat) {
    && (forall i :: 0 <= i < |runs| ==> 1 <= runs[i].count <= cap)
    && (forall i, j :: 0 <= i < j < |runs| ==> runs[i].End() <= runs[j].lba)
    && (forall i, j :: 0 <= i < j < |runs| && runs[i].End() == runs[j].lba ==> runs[i].count == cap)
    && (forall s: nat :: s in dirty <==> Sent(runs, s))
  }

  ghost predicate Sent(runs: seq<Extent>, s: nat) {
    exists i :: 0 <= i < |runs| && runs[i].lba <= s < runs[i].End()
  }

  /** `best` is the slot of the lowest dirty sector, or -1 if all are clean. */
  ghost predicate IsLowestDirty<S>(table: seq<Entry<S>>, best: int) {
    && -1 <= best < |table|
    && (best >= 0 ==> table[best].dirty)
    && forall i :: 0 <= i < |table| && table[i].dirty ==> best >= 0 && table[best].sector <= table[i].sector
  }

  /** `sector` lies past the WRITE `e`, and right past it only if `e` is full. */
  predicate Behind(e: Extent, sector: nat, cap: nat) {
    e.End() <= sector && (e.End() == sector ==> e.count == cap)
  }

  /** Midway through a drain: `runs` are sent, the entries of `dirty` they do
      not cover are still dirty and all lie behind them. */
  ghost predicate DrainProgress<S>(table: seq<Entry<S>>, runs: seq<Extent>, dirty: set<nat>, cap: nat) {
    && DirtySectors(table) <= dirty
    && SendsExactly(runs, dirty - DirtySectors(table), cap)
    && forall i, r :: 0 <= i < |table| && table[i].dirty && 0 <= r < |runs| ==> Behind(runs[r], table[i].sector, cap)
  }

  lemma DrainStep<S>(was: seq<Entry<S>>, table: seq<Entry<S>>, best: nat, runs: seq<Extent>,
                     dirty: set<nat>, data: seq<S>, cap: nat)
    requires UniqueDirty(was) && best < |was| && IsLowestDirty(was, best)
    requires DrainProgress(was, runs, dirty, cap)
    requires 1 <= |data| <= cap
    requires
      var at := was[best].sector;
      && Cleaned(was, table, at, at + |data|) && Gathered(was, at, data)
      && (|data| < cap ==> Slot(was, at + |data|) < 0)
    ensures DrainProgress(table, runs + [Extent(was[best].sector, |data|)], dirty, cap)
    ensures DirtySectors(table) < DirtySectors(was)
  {
    var at := was[best].sector;
    var e := Extent(at, |data|);
    var run := SectorSet(at, e.End());
    CleanedDirty(was, table, at, e.End());
    GatheredIsDirty(was, at, data);
    assert at in DirtySectors(was) && at in run;
    assert dirty - DirtySectors(table) == dirty - DirtySectors(was) + run by {
      RemoveSome(dirty, DirtySectors(was), run);
    }
    SendOneMore(runs, dirty - DirtySectors(was), cap, e, dirty - DirtySectors(table));
    NothingDirtyBehind(was, table, best, e, cap);
    DirtyStaysBehind(was, table, runs, e, cap);
  }

  lemma RemoveSome(all: set<nat>, left: set<nat>, some: set<nat>)
    requires some <= left <= all
    ensures all - (left - some) == all - left + some
  {
  }

  lemma DirtyStaysBehind<S>(was: seq<Entry<S>>, table: seq<Entry<S>>, runs: seq<Extent>, e: Extent, cap: nat)
    requires Cleaned(was, table, e.lba, e.End())
    requires forall i, r :: 0 <= i < |was| && was[i].dirty && 0 <= r < |runs| ==> Behind(runs[r], was[i].sector, cap)
    requires forall i :: 0 <= i < |table| && table[i].dirty ==> Behind(e, table[i].sector, cap)
    ensures forall i, r :: 0 <= i < |table| && table[i].dirty && 0 <= r < |runs + [e]| ==>
      Behind((runs + [e])[r], table[i].sector, cap)
  {
    forall i, r | 0 <= i < |table| && table[i].dirty && 0 <= r < |runs + [e]|
      ensures Behind((runs + [e])[r], table[i].sector, cap)
    {
      assert was[i] == table[i];
    }
  }

  lemma SendOneMore(runs: seq<Extent>, sent: set<nat>, cap: nat, e: Extent, sent': set<nat>)
    requires SendsExactly(runs, sent, cap)
    requires 1 <= e.count <= cap
    requires forall i :: 0 <= i < |runs| ==> runs[i].End() <= e.lba
    requires forall i :: 0 <= i < |runs| && runs[i].End() == e.lba ==> runs[i].count == cap
    requires sent' == sent + SectorSet(e.lba, e.End())
    ensures SendsExactly(runs + [e], sent', cap)
  {
    forall s: nat
      ensures s in sent' <==> Sent(runs + [e], s)
    {
      SentOneMore(runs, e, s);
    }
  }

  lemma SentOneMore(runs: seq<Extent>, e: Extent, s: nat)
    ensures Sent(runs + [e], s) <==> Sent(runs, s) || e.lba <= s < e.End()
  {
    var runs' := runs + [e];
    if Sent(runs, s) {
      var i :| 0 <= i < |runs| && runs[i].lba <= s < runs[i].End();
      assert runs'[i] == runs[i];
    }
    if e.lba <= s < e.End() {
      assert runs'[|runs|] == e;
    }
  }

  lemma GatherOneMore<S>(was: seq<Entry<S>>, table: seq<Entry<S>>, at: nat, data: seq<S>, idx: nat)
    requires Cleaned(was, table, at, at + |data|) && Gathered(was, at, data)
    requires idx < |was| && idx == Slot(was, at + |data|)
    ensures table[idx] == was[idx] && Gathered(was, at, data + [was[idx].data])
  {
    var data' := data + [was[idx].data];
    forall k: nat | k < |data'|
      ensures DirtyIn(was, at + k, data'[k])
    {
      if k < |data| {
        var d := data[k];
      }
    }
  }

  lemma CleanedSlot<S>(was: seq<Entry<S>>, table: seq<Entry<S>>, at: nat, end: nat)
    requires Cleaned(was, table, at, end)
    ensures Slot(table, end) == Slot(was, end)
  {
    forall i | 0 <= i < |was|
      ensures table[i].Holds(end) == was[i].Holds(end)
    {
    }
  }

  lemma GatheredIsDirty<S>(table: seq<Entry<S>>, at: nat, data: seq<S>)
    requires Gathered(table, at, data)
    ensures SectorSet(at, at + |data|) <= DirtySectors(table)
  {
    forall s | s in SectorSet(at, at + |data|)
      ensures s in DirtySectors(table)
    {
      var k := s - at;
      var d := data[k];
      assert Slot(table, at + k) >= 0;
    }
  }

  /** What is still dirty after a run lies behind it, and right behind it only
      if the run was cut short by the buffer's size. */
  lemma NothingDirtyBehind<S>(was: seq<Entry<S>>, table: seq<Entry<S>>, best: nat, e: Extent, cap: nat)
    requires best < |was| && IsLowestDirty(was, best) && was[best].sector == e.lba
    requires Cleaned(was, table, e.lba, e.End())
    requires e.count < cap ==> Slot(was, e.End()) < 0
    requires e.count <= cap
    ensures forall i :: 0 <= i < |table| && table[i].dirty ==> Behind(e, table[i].sector, cap)
  {
    forall i | 0 <= i < |table| && table[i].dirty
      ensures Behind(e, table[i].sector, cap)
    {
      assert was[i] == table[i];
    }
  }

  lemma BufferAddressIrrelevant<S>(image: seq<S>, at: nat, at': nat, table: seq<Entry<S>>)
    ensures Overlay(image, at, [], table) == Overlay(image, at', [], table)
  {
  }

  lemma CleanTableIsImage<S>(image: seq<S>, at: nat, table: seq<Entry<S>>)
    requires forall i :: 0 <= i < |table| ==> !table[i].dirty
    ensures Overlay(image, at, [], table) == image == Overlay(image, at, [], [])
  {
    forall i: nat | i < |image|
      ensures Slot(table, i) < 0
    {
    }
  }

  /** A gathered run is dirty, and ends where the next sector is not. */
  lemma RunIsDirty<S>(table: seq<Entry<S>>, at: nat, data: seq<S>)
    requires Gathered(table, at, data)
    ensures forall s: nat :: at <= s < at + |data| ==> s in DirtySectors(table)
    ensures Slot(table, at + |data|) < 0 ==> at + |data| !in DirtySectors(table)
  {
    GatheredIsDirty(table, at, data);
  }
}
