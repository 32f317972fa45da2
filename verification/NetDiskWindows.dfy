/** The read windows of the network block device client: which window answers
    for a sector, what a miss fetches, and the loop that serves one read. */
module NetDiskWindows {
  import Arithmetic
  import opened NetDiskLayers

  /** One read window; no data means the window is empty. */
  datatype Window<S> = Window(start: nat, data: seq<S>)
  {
    predicate Covers(sector: nat) {
      start <= sector < start + |data|
    }

    predicate Overlaps(lo: nat, hi: nat) {
      data != [] && lo < start + |data| && start < hi
    }
  }

  /** A window overlaps a range exactly if it covers a sector of it. */
  lemma OverlapsIs<S>(w: Window<S>, lo: nat, hi: nat)
    requires lo < hi
    ensures w.Overlaps(lo, hi) <==> exists i: nat :: lo <= i < hi && w.Covers(i)
  {
    if w.Overlaps(lo, hi) {
      assert w.Covers(if w.start < lo then lo else w.start);
    }
  }

  /** The first window, in slot order, that covers a sector. */
  function FirstCovering<S>(windows: seq<Window<S>>, sector: nat): (k: int)
    ensures -1 <= k < |windows|
    ensures k >= 0 ==> windows[k].Covers(sector)
  {
    if windows == [] then -1
    else if windows[0].Covers(sector) then 0
    else
      var k := FirstCovering(windows[1..], sector);
      if k < 0 then -1 else k + 1
  }

  lemma FirstCoveringIsFirst<S>(windows: seq<Window<S>>, sector: nat)
    ensures var k := FirstCovering(windows, sector);
      forall j :: 0 <= j < (if k < 0 then |windows| else k) ==> !windows[j].Covers(sector)
  {
  }

  /** A window holds the flat disk's bytes on the sectors it covers from `lo` up to `hi`. */
  ghost predicate Agrees<S>(w: Window<S>, flat: seq<S>, lo: nat, hi: nat) {
    forall i: nat :: w.Covers(i) && lo <= i < hi && i < |flat| ==> w.data[i - w.start] == flat[i]
  }

  ghost predicate AllAgree<S>(windows: seq<Window<S>>, flat: seq<S>, lo: nat, hi: nat) {
    forall k :: 0 <= k < |windows| ==> Agrees(windows[k], flat, lo, hi)
  }

  function AlignDown(x: nat, align: nat): (r: nat)
    requires 1 <= align
    ensures r <= x < r + align
    ensures align == 1 ==> r == x
  {
    assert x == x / align * align + x % align;
    x / align * align
  }

  /** What one miss fetches, as the client computes it from the first missing
      sector `cur` and the next sector `next` it need not fetch. The extent
      always reaches past `cur`, so the fallback for one that does not
      (ide.c:2966-2969) is never taken. */
  function FetchExtent(cfg: Config, cur: nat, next: nat, requestEnd: nat): (e: Extent)
    requires cfg.Valid()
    requires cur < next <= requestEnd <= cfg.nbSectors
    ensures e.lba <= cur < e.End() <= cfg.nbSectors
    ensures e.count <= cfg.maxSectors && e.count <= cfg.windowSectors
    ensures cfg.prefetchSectors == 1 ==> e.lba == cur && e.End() <= next
  {
    var missing := next - cur;
    var widen := next == requestEnd && missing < cfg.prefetchSectors;
    var start := if widen && cfg.prefetchSectors > 1
                 then AlignDown(cur, cfg.prefetchSectors) else cur;
    var want := if widen then cfg.prefetchSectors else missing;
    var want := if want > cfg.maxSectors then cfg.maxSectors else want;
    var want := if want > cfg.windowSectors then cfg.windowSectors else want;
    var want := if want > cfg.nbSectors - start then cfg.nbSectors - start else want;
    Extent(start, want)
  }

  /** A miss that reaches the end of the request short of the prefetch size fetches
      from the last multiple of that size on, as much as prefetch, request limit,
      window and disk allow; any other fetches just what is missing, as far as
      request limit and window allow. */
  lemma FetchExtentIs(cfg: Config, cur: nat, next: nat, requestEnd: nat)
    requires cfg.Valid() && cur < next <= requestEnd <= cfg.nbSectors
    ensures
      var e, missing, p := FetchExtent(cfg, cur, next, requestEnd), next - cur, cfg.prefetchSectors;
      if next == requestEnd && missing < p then
        && e.lba % p == 0 && cur < e.lba + p
        && e.count in {p, cfg.maxSectors, cfg.windowSectors, cfg.nbSectors - e.lba}
        && e.count <= p && e.count <= cfg.maxSectors && e.count <= cfg.windowSectors && e.count <= cfg.nbSectors - e.lba
      else
        && e.lba == cur && e.count in {missing, cfg.maxSectors, cfg.windowSectors}
        && e.count <= missing && e.count <= cfg.maxSectors && e.count <= cfg.windowSectors
  {
    if next == requestEnd && next - cur < cfg.prefetchSectors {
      Multiple(cur / cfg.prefetchSectors, cfg.prefetchSectors);
    }
  }

  lemma Multiple(q: nat, k: nat)
    requires k > 0
    ensures q * k % k == 0
  {
    Arithmetic.IsProduct(q, k);
    Arithmetic.OverIs(q * k, q, k, 0);
    Arithmetic.IsDivision(q * k, k);
  }

  /** The first sector past `sector` where a window starts, or `end` if none
      starts inside the request. */
  function NextStart<S>(windows: seq<Window<S>>, sector: nat, end: nat): (next: nat)
    requires sector < end
    ensures sector < next <= end
  {
    if windows == [] then end
    else
      var last := |windows| - 1;
      var next := NextStart(windows[..last], sector, end);
      if windows[last].data != [] && sector < windows[last].start < next then windows[last].start else next
  }

  lemma NextStartIsNearest<S>(windows: seq<Window<S>>, sector: nat, end: nat)
    requires sector < end
    ensures var next := NextStart(windows, sector, end);
      && (forall k :: 0 <= k < |windows| && windows[k].data != [] && windows[k].start > sector ==> next <= windows[k].start)
      && (next < end ==> exists k :: 0 <= k < |windows| && windows[k].data != [] && windows[k].start == next)
  {
  }

  function MissExtent<S>(cfg: Config, windows: seq<Window<S>>, cur: nat, end: nat): (e: Extent)
    requires cfg.Valid() && cur < end <= cfg.nbSectors
    ensures e.lba <= cur < e.End() <= cfg.nbSectors
    ensures e.count <= cfg.maxSectors && e.count <= cfg.windowSectors
    ensures cfg.prefetchSectors == 1 ==> e.lba == cur && e.End() <= end
  {
    FetchExtent(cfg, cur, NextStart(windows, cur, end), end)
  }

  /** The windows and the slot the next fetch will replace. */
  datatype Cache<S> = Cache(windows: seq<Window<S>>, next: nat)
  {
    ghost predicate Valid(cfg: Config) {
      && |windows| == cfg.windowCount && next < cfg.windowCount
      && forall k :: 0 <= k < |windows| && windows[k].data != [] ==>
           |windows[k].data| <= cfg.windowSectors && windows[k].start + |windows[k].data| <= cfg.nbSectors
    }
  }

  /** The window a READ of `e` fills. */
  function Fresh<S>(image: seq<S>, e: Extent): Window<S>
    requires e.End() <= |image|
  {
    Window(e.lba, image[e.lba..e.End()])
  }

  function FetchInto<S>(image: seq<S>, c: Cache<S>, e: Extent): Cache<S>
    requires e.End() <= |image| && c.next < |c.windows|
  {
    Cache(c.windows[c.next := Fresh(image, e)], (c.next + 1) % |c.windows|)
  }

  lemma FreshCovers<S>(image: seq<S>, c: Cache<S>, e: Extent, cur: nat)
    requires e.lba <= cur < e.End() <= |image| && c.next < |c.windows|
    requires FirstCovering(c.windows, cur) < 0
    ensures FirstCovering(FetchInto(image, c, e).windows, cur) == c.next
  {
    FirstCoveringIsFirst(c.windows, cur);
    FirstCoveringIsFirst(FetchInto(image, c, e).windows, cur);
    assert FetchInto(image, c, e).windows[c.next].Covers(cur);
  }

  /** The sectors from `cur` that the window at `slot` has and the request wants. */
  function Hit<S>(windows: seq<Window<S>>, slot: nat, cur: nat, end: nat): (data: seq<S>)
    requires slot < |windows| && windows[slot].Covers(cur) && cur < end
    ensures 1 <= |data| <= end - cur
  {
    var w := windows[slot];
    var copyEnd := if w.start + |w.data| < end then w.start + |w.data| else end;
    w.data[cur - w.start..copyEnd - w.start]
  }

  /** A read under way: the next sector to serve, the windows, the sectors
      copied out so far and the extents fetched so far. */
  datatype Progress<S> = Progress(cur: nat, cache: Cache<S>, out: seq<S>, fetched: seq<Extent>)
  {
    predicate CanServe(cfg: Config, image: seq<S>, end: nat) {
      cfg.Valid() && cache.next < |cache.windows| && cur <= end <= |image| == cfg.nbSectors
    }

    /** Sectors left, then whether the current one must still be fetched. */
    function Measure(end: nat): (nat, nat)
      requires cur <= end
    {
      (end - cur, if FirstCovering(cache.windows, cur) >= 0 then 0 else 1)
    }
  }

  /** One turn of the read loop: copy from a window that covers the current
      sector, else fetch one that will. */
  function Step<S>(cfg: Config, image: seq<S>, end: nat, p: Progress<S>): (p': Progress<S>)
    requires p.CanServe(cfg, image, end) && p.cur < end
    ensures p'.CanServe(cfg, image, end)
  {
    var k := FirstCovering(p.cache.windows, p.cur);
    if k >= 0 then
      var data := Hit(p.cache.windows, k, p.cur, end);
      p.(cur := p.cur + |data|, out := p.out + data)
    else
      var e := MissExtent(cfg, p.cache.windows, p.cur, end);
      p.(cache := FetchInto(image, p.cache, e), fetched := p.fetched + [e])
  }

  lemma StepMoves<S>(cfg: Config, image: seq<S>, end: nat, p: Progress<S>)
    requires p.CanServe(cfg, image, end) && p.cur < end
    ensures
      var p' := Step(cfg, image, end, p);
      var m, m' := p.Measure(end), p'.Measure(end);
      m'.0 < m.0 || (m'.0 == m.0 && m'.1 < m.1)
  {
    if FirstCovering(p.cache.windows, p.cur) < 0 {
      FreshCovers(image, p.cache, MissExtent(cfg, p.cache.windows, p.cur, end), p.cur);
    }
  }

  /** The whole read loop. It ends for every prefetch setting and every state
      of the windows, because a fetch covers the sector it was made for. */
  function Serve<S>(cfg: Config, image: seq<S>, end: nat, p: Progress<S>): (p': Progress<S>)
    requires p.CanServe(cfg, image, end)
    ensures p'.CanServe(cfg, image, end) && p'.cur == end
    decreases p.Measure(end).0, p.Measure(end).1
  {
    if p.cur == end then p
    else
      StepMoves(cfg, image, end, p);
      Serve(cfg, image, end, Step(cfg, image, end, p))
  }

  function Start<S>(c: Cache<S>, sector: nat): Progress<S> {
    Progress(sector, c, [], [])
  }

  /** The image holds something else than the flat disk somewhere in `e`: a
      write to that sector is still pending. */
  ghost predicate Stale<S>(image: seq<S>, flat: seq<S>, e: Extent)
    requires |image| == |flat|
  {
    exists i: nat :: e.lba <= i < e.End() && i < |image| && image[i] != flat[i]
  }

  ghost predicate AnyStale<S>(image: seq<S>, flat: seq<S>, fetched: seq<Extent>)
    requires |image| == |flat|
  {
    exists i :: 0 <= i < |fetched| && Stale(image, flat, fetched[i])
  }

  ghost predicate SameOn<S>(image: seq<S>, flat: seq<S>, lo: nat, hi: nat)
    requires |image| == |flat|
  {
    forall i: nat :: lo <= i < hi && i < |flat| ==> image[i] == flat[i]
  }

  lemma HitAgrees<S>(windows: seq<Window<S>>, flat: seq<S>, slot: nat, cur: nat, end: nat, lo: nat)
    requires slot < |windows| && windows[slot].Covers(cur) && lo <= cur < end <= |flat|
    requires AllAgree(windows, flat, lo, end)
    ensures Hit(windows, slot, cur, end) == flat[cur..cur + |Hit(windows, slot, cur, end)|]
  {
    var w := windows[slot];
    var data := Hit(windows, slot, cur, end);
    assert Agrees(w, flat, lo, end);
    forall i: nat | i < |data|
      ensures data[i] == flat[cur + i]
    {
      assert w.Covers(cur + i);
    }
  }

  // ------------------------------------------------------- reads are right

  /** The sectors copied so far are right, and the windows are right about the
      whole request [lo, end). */
  ghost predicate RightSoFar<S>(flat: seq<S>, lo: nat, end: nat, p: Progress<S>) {
    lo <= p.cur <= end <= |flat| && p.out == flat[lo..p.cur] && AllAgree(p.cache.windows, flat, lo, end)
  }

  lemma StepIsRight<S>(cfg: Config, image: seq<S>, flat: seq<S>, lo: nat, end: nat, p: Progress<S>)
    requires p.CanServe(cfg, image, end) && p.cur < end && |flat| == |image|
    requires SameOn(image, flat, lo, end) && RightSoFar(flat, lo, end, p)
    ensures RightSoFar(flat, lo, end, Step(cfg, image, end, p))
  {
    var k := FirstCovering(p.cache.windows, p.cur);
    if k >= 0 {
      HitAgrees(p.cache.windows, flat, k, p.cur, end, lo);
      var p' := Step(cfg, image, end, p);
      assert flat[lo..p'.cur] == flat[lo..p.cur] + flat[p.cur..p'.cur];
    }
  }

  lemma {:induction false} ServeKeepsRight<S>(cfg: Config, image: seq<S>, flat: seq<S>, lo: nat, end: nat, p: Progress<S>)
    requires p.CanServe(cfg, image, end) && |flat| == |image|
    requires SameOn(image, flat, lo, end) && RightSoFar(flat, lo, end, p)
    ensures RightSoFar(flat, lo, end, Serve(cfg, image, end, p))
    decreases p.Measure(end).0, p.Measure(end).1
  {
    if p.cur < end {
      StepMoves(cfg, image, end, p);
      StepIsRight(cfg, image, flat, lo, end, p);
      ServeKeepsRight(cfg, image, flat, lo, end, Step(cfg, image, end, p));
    }
  }

  /** A read is right wherever nothing requested is pending and no window is
      wrong about what is requested. */
  lemma ServeIsRight<S>(cfg: Config, image: seq<S>, flat: seq<S>, c: Cache<S>, sector: nat, end: nat)
    requires Start(c, sector).CanServe(cfg, image, end) && |flat| == |image|
    requires SameOn(image, flat, sector, end) && AllAgree(c.windows, flat, sector, end)
    ensures Serve(cfg, image, end, Start(c, sector)).out == flat[sector..end]
  {
    ServeKeepsRight(cfg, image, flat, sector, end, Start(c, sector));
  }

  // ------------------------------------- what a read does to the windows

  /** Fetches stay on the disk, within one request and one window. */
  predicate FetchesFit(cfg: Config, fetched: seq<Extent>) {
    forall i :: 0 <= i < |fetched| ==>
      && 1 <= fetched[i].count <= cfg.maxSectors && fetched[i].count <= cfg.windowSectors
      && fetched[i].End() <= cfg.nbSectors
  }

  /** How many fetches ago slot `k` was filled, if it was. */
  function Back(next: nat, k: nat, count: nat): (back: nat)
    requires next < count && k < count
    ensures 1 <= back <= count
  {
    if k < next then next - k else next + count - k
  }

  lemma BackAfterFetch(next: nat, k: nat, count: nat)
    requires next < count && k < count
    ensures Back((next + 1) % count, k, count) == if k == next then 1 else Back(next, k, count) + 1
  {
    assert (next + 1) % count == if next + 1 == count then 0 else next + 1;
  }

  /** Every slot holds the last fetch that went to it, or what it held before. */
  ghost predicate Held<S>(image: seq<S>, was: seq<Window<S>>, p: Progress<S>) {
    var count := |p.cache.windows|;
    && count == |was| && p.cache.next < count
    && (forall j :: 0 <= j < |p.fetched| ==> p.fetched[j].End() <= |image|)
    && forall k :: 0 <= k < count ==>
         var back := Back(p.cache.next, k, count);
         p.cache.windows[k] == if back <= |p.fetched| then Fresh(image, p.fetched[|p.fetched| - back]) else was[k]
  }

  lemma FetchStaysHeld<S>(image: seq<S>, was: seq<Window<S>>, p: Progress<S>, e: Extent)
    requires Held(image, was, p) && e.End() <= |image|
    ensures Held(image, was, p.(cache := FetchInto(image, p.cache, e), fetched := p.fetched + [e]))
  {
    var p' := p.(cache := FetchInto(image, p.cache, e), fetched := p.fetched + [e]);
    var count, next := |p.cache.windows|, p.cache.next;
    forall k | 0 <= k < count
      ensures
        var back := Back(p'.cache.next, k, count);
        p'.cache.windows[k] == if back <= |p'.fetched| then Fresh(image, p'.fetched[|p'.fetched| - back]) else was[k]
    {
      BackAfterFetch(next, k, count);
    }
  }

  lemma {:induction false} ServeStaysHeld<S>(cfg: Config, image: seq<S>, was: seq<Window<S>>, end: nat, p: Progress<S>)
    requires p.CanServe(cfg, image, end)
    requires Held(image, was, p) && FetchesFit(cfg, p.fetched)
    ensures Held(image, was, Serve(cfg, image, end, p)) && FetchesFit(cfg, Serve(cfg, image, end, p).fetched)
    decreases p.Measure(end).0, p.Measure(end).1
  {
    if p.cur < end {
      StepMoves(cfg, image, end, p);
      if FirstCovering(p.cache.windows, p.cur) < 0 {
        FetchStaysHeld(image, was, p, MissExtent(cfg, p.cache.windows, p.cur, end));
      }
      ServeStaysHeld(cfg, image, was, end, Step(cfg, image, end, p));
    }
  }

  lemma {:induction false} ServeStaysValid<S>(cfg: Config, image: seq<S>, end: nat, p: Progress<S>)
    requires p.CanServe(cfg, image, end) && p.cache.Valid(cfg)
    ensures Serve(cfg, image, end, p).cache.Valid(cfg)
    decreases p.Measure(end).0, p.Measure(end).1
  {
    if p.cur < end {
      StepMoves(cfg, image, end, p);
      ServeStaysValid(cfg, image, end, Step(cfg, image, end, p));
    }
  }

  /** The fetches that are still held: the last ones, as many as there are windows. */
  function Latest(fetched: seq<Extent>, count: nat): seq<Extent> {
    if |fetched| <= count then fetched else fetched[|fetched| - count..]
  }

  /** A window filled by a stale fetch is wrong. */
  lemma FreshIsWrongIff<S>(image: seq<S>, flat: seq<S>, e: Extent)
    requires |flat| == |image| && e.End() <= |image|
    ensures Agrees(Fresh(image, e), flat, 0, |flat|) <==> !Stale(image, flat, e)
  {
    var w := Fresh(image, e);
    if Stale(image, flat, e) {
      var i: nat :| e.lba <= i < e.End() && i < |image| && image[i] != flat[i];
      assert w.Covers(i) && w.data[i - w.start] != flat[i];
    } else {
      forall i: nat | w.Covers(i) && i < |flat|
        ensures w.data[i - w.start] == flat[i]
      {
        assert w.data[i - w.start] == image[i];
      }
    }
  }

  lemma StaleAtSlot<S>(image: seq<S>, was: seq<Window<S>>, p: Progress<S>, j: nat)
    requires Held(image, was, p) && j < |Latest(p.fetched, |was|)|
    ensures exists k :: 0 <= k < |was| && p.cache.windows[k] == Fresh(image, Latest(p.fetched, |was|)[j])
  {
    var count, next, back := |was|, p.cache.next, |Latest(p.fetched, |was|)| - j;
    var k := if next >= back then next - back else next + count - back;
    assert Back(next, k, count) == back;
    assert Latest(p.fetched, count)[j] == p.fetched[|p.fetched| - back];
  }

  /** Exactly when a read leaves every window right, if they all were: when none
      of its fetches that are still held covered a sector pending with other
      contents. */
  lemma ReadStaysRightIff<S>(cfg: Config, image: seq<S>, flat: seq<S>, c: Cache<S>, sector: nat, end: nat)
    requires Start(c, sector).CanServe(cfg, image, end) && |flat| == |image|
    requires c.Valid(cfg) && AllAgree(c.windows, flat, 0, |flat|)
    ensures
      var r := Serve(cfg, image, end, Start(c, sector));
      FetchesFit(cfg, r.fetched)
      && (AllAgree(r.cache.windows, flat, 0, |flat|) <==> !AnyStale(image, flat, Latest(r.fetched, cfg.windowCount)))
  {
    var r := Serve(cfg, image, end, Start(c, sector));
    ServeStaysHeld(cfg, image, c.windows, end, Start(c, sector));
    HeldRightIff(image, flat, c.windows, r);
  }

  lemma HeldRightIff<S>(image: seq<S>, flat: seq<S>, was: seq<Window<S>>, r: Progress<S>)
    requires |flat| == |image| && Held(image, was, r) && AllAgree(was, flat, 0, |flat|)
    ensures AllAgree(r.cache.windows, flat, 0, |flat|) <==> !AnyStale(image, flat, Latest(r.fetched, |was|))
  {
    var latest := Latest(r.fetched, |was|);
    if AnyStale(image, flat, latest) {
      var j :| 0 <= j < |latest| && Stale(image, flat, latest[j]);
      StaleAtSlot(image, was, r, j);
      var k :| 0 <= k < |was| && r.cache.windows[k] == Fresh(image, latest[j]);
      FreshIsWrongIff(image, flat, latest[j]);
    } else {
      forall k | 0 <= k < |was|
        ensures Agrees(r.cache.windows[k], flat, 0, |flat|)
      {
        var back := Back(r.cache.next, k, |was|);
        if back <= |r.fetched| {
          assert latest[|latest| - back] == r.fetched[|r.fetched| - back];
          FreshIsWrongIff(image, flat, latest[|latest| - back]);
        }
      }
    }
  }

  lemma LatestAreFetches<S>(image: seq<S>, flat: seq<S>, fetched: seq<Extent>, count: nat)
    requires |flat| == |image| && !AnyStale(image, flat, fetched)
    ensures !AnyStale(image, flat, Latest(fetched, count))
  {
    var latest := Latest(fetched, count);
    forall i | 0 <= i < |latest|
      ensures !Stale(image, flat, latest[i])
    {
      assert latest[i] == fetched[|fetched| - |latest| + i];
    }
  }

  // ------------------------------------------ what it fetches, told beforehand

  /** The windows lie at the same places, whatever they hold. */
  predicate SameSpans<S>(a: seq<Window<S>>, b: seq<Window<S>>) {
    |a| == |b| && forall k :: 0 <= k < |a| ==> a[k].start == b[k].start && |a[k].data| == |b[k].data|
  }

  lemma {:induction false} CoveringBySpans<S>(a: seq<Window<S>>, b: seq<Window<S>>, sector: nat)
    requires SameSpans(a, b)
    ensures FirstCovering(a, sector) == FirstCovering(b, sector)
  {
    if a != [] {
      CoveringBySpans(a[1..], b[1..], sector);
    }
  }

  lemma {:induction false} NextStartBySpans<S>(a: seq<Window<S>>, b: seq<Window<S>>, sector: nat, end: nat)
    requires SameSpans(a, b) && sector < end
    ensures NextStart(a, sector, end) == NextStart(b, sector, end)
  {
    if a != [] {
      NextStartBySpans(a[..|a| - 1], b[..|b| - 1], sector, end);
    }
  }

  /** A read's fetches depend on where the windows lie and on nothing they or the
      image hold: a caller can tell them before the read. */
  lemma {:induction false} FetchesBySpans<S>(cfg: Config, image: seq<S>, image': seq<S>, end: nat, p: Progress<S>, q: Progress<S>)
    requires p.CanServe(cfg, image, end) && q.CanServe(cfg, image', end)
    requires p.cur == q.cur && p.fetched == q.fetched && p.cache.next == q.cache.next && SameSpans(p.cache.windows, q.cache.windows)
    ensures Serve(cfg, image, end, p).fetched == Serve(cfg, image', end, q).fetched
    ensures SameSpans(Serve(cfg, image, end, p).cache.windows, Serve(cfg, image', end, q).cache.windows)
    decreases p.Measure(end).0, p.Measure(end).1
  {
    if p.cur < end {
      StepMoves(cfg, image, end, p);
      CoveringBySpans(p.cache.windows, q.cache.windows, p.cur);
      NextStartBySpans(p.cache.windows, q.cache.windows, p.cur, end);
      FetchesBySpans(cfg, image, image', end, Step(cfg, image, end, p), Step(cfg, image', end, q));
    }
  }

  lemma {:induction false} ServeFetchesRequested<S>(cfg: Config, image: seq<S>, flat: seq<S>, end: nat, p: Progress<S>)
    requires p.CanServe(cfg, image, end) && |flat| == |image|
    requires cfg.prefetchSectors == 1 && SameOn(image, flat, p.cur, end)
    requires !AnyStale(image, flat, p.fetched)
    ensures !AnyStale(image, flat, Serve(cfg, image, end, p).fetched)
    decreases p.Measure(end).0, p.Measure(end).1
  {
    if p.cur < end {
      StepMoves(cfg, image, end, p);
      ServeFetchesRequested(cfg, image, flat, end, Step(cfg, image, end, p));
    }
  }

  /** Without prefetching, a read of sectors that are not pending fetches
      nothing stale. */
  lemma NoPrefetchNothingStale<S>(cfg: Config, image: seq<S>, flat: seq<S>, c: Cache<S>, sector: nat, end: nat)
    requires Start(c, sector).CanServe(cfg, image, end) && |flat| == |image|
    requires cfg.prefetchSectors == 1 && SameOn(image, flat, sector, end)
    ensures !AnyStale(image, flat, Serve(cfg, image, end, Start(c, sector)).fetched)
  {
    ServeFetchesRequested(cfg, image, flat, end, Start(c, sector));
  }

  /** What a read of one sector returns: the copy of the first window that
      covers it, and the image's contents if none does. */
  ghost function Visible<S>(windows: seq<Window<S>>, image: seq<S>, sector: nat): S
    requires sector < |image|
  {
    var k := FirstCovering(windows, sector);
    if k >= 0 then windows[k].data[sector - windows[k].start] else image[sector]
  }

  /** A read of one sector, completely: what it returns and what it fetches. */
  lemma ServeOne<S>(cfg: Config, image: seq<S>, c: Cache<S>, sector: nat)
    requires Start(c, sector).CanServe(cfg, image, sector + 1)
    ensures
      var r := Serve(cfg, image, sector + 1, Start(c, sector));
      var e := FetchExtent(cfg, sector, sector + 1, sector + 1);
      && r.out == [Visible(c.windows, image, sector)]
      && r.fetched == (if FirstCovering(c.windows, sector) >= 0 then [] else [e])
      && r.cache == if FirstCovering(c.windows, sector) >= 0 then c else FetchInto(image, c, e)
  {
    hide FetchExtent, FirstCovering, NextStart;
    var p := Start(c, sector);
    var p1 := Step(cfg, image, sector + 1, p);
    if FirstCovering(c.windows, sector) < 0 {
      var e := FetchExtent(cfg, sector, sector + 1, sector + 1);
      assert NextStart(c.windows, sector, sector + 1) == sector + 1;
      assert p1 == Progress(sector, FetchInto(image, c, e), [], [e]);
      FreshCovers(image, c, e, sector);
      var p2 := Step(cfg, image, sector + 1, p1);
      assert p2 == Progress(sector + 1, FetchInto(image, c, e), [image[sector]], [e]);
      assert Serve(cfg, image, sector + 1, p1) == p2;
    } else {
      assert p1 == Progress(sector + 1, c, [Visible(c.windows, image, sector)], []);
    }
  }
}
