/** The 8254's timer interrupt: 32-bit microseconds turned into periods of the
    counter. */
module Pit {
  import opened Arithmetic
  import opened Sequences

  const FREQUENCY := 1193182
  const MILLION := 1000000
  const WORD := 0x1_0000_0000
  const REBASE := 0x8000_0000
  const LONGEST_GAP := 1_400_000_000

  /** Counter ticks in a time, in microseconds. */
  function Ticks(time: nat): nat {
    time * FREQUENCY / MILLION
  }

  lemma TicksAdd(a: nat, b: nat)
    ensures Ticks(a) + Ticks(b) <= Ticks(a + b) <= Ticks(a) + Ticks(b) + 1
  {
  }

  /** A boundary is a whole period past an earlier one exactly if its index is
      higher. */
  lemma Advanced(p: nat, index: nat, count: nat)
    ensures count > 0 ==> (Times(p, count) - Times(index, count) >= count <==> p > index)
    ensures p < index ==> Times(p, count) < Times(index, count) || count == 0
  {
    if p > index {
      TimesLess(index, p, count);
    } else if p < index {
      TimesLess(p, index, count);
    }
  }

  /** Calls close enough together leave no 32-bit quantity to wrap. */
  lemma GapFits(time: nat, gap: nat, last: nat, count: nat)
    requires Ticks(time) < last + count && last <= Ticks(REBASE) && count <= 0x1_0000 && gap < LONGEST_GAP
    ensures time + gap < WORD && Ticks(time + gap) < WORD
  {
  }

  lemma ClockDifference(now: nat, start: nat)
    requires start <= now < start + WORD
    ensures (now % WORD - start % WORD) % WORD == now - start
  {
    var a, b := now / WORD, start / WORD;
    assert now == WORD * a + now % WORD && start == WORD * b + start % WORD;
  }

  lemma TicksGrow(a: nat, b: nat)
    requires a <= b
    ensures Ticks(a) <= Ticks(b)
  {
  }

  // ---------------------------------------------------------- pulses in true time

  /** What the pulses of a periodic timer depend on: when time last restarted, and
      the period of the last pulse since. */
  datatype Base = Base(loadedAt: nat, index: nat)

  /** The period a moment falls in. */
  function Period(b: Base, now: nat, count: nat): nat
    requires count > 0 && b.loadedAt <= now
  {
    Over(Ticks(now - b.loadedAt), count)
  }

  function Called(b: Base, now: nat, count: nat): (b': Base)
    requires count > 0 && b.loadedAt <= now
    ensures b'.loadedAt <= now
  {
    if Period(b, now, count) <= b.index then b
    else if now - b.loadedAt > REBASE then Base(now, 0)
    else Base(b.loadedAt, Period(b, now, count))
  }

  /** Which of a run of calls pulse. */
  function PulsesOf(b: Base, now: nat, gaps: seq<nat>, count: nat): (pulses: seq<bool>)
    requires count > 0 && b.loadedAt <= now
    ensures |pulses| == |gaps|
    decreases |gaps|
  {
    if gaps == [] then []
    else
      var next := now + gaps[0];
      [Period(b, next, count) > b.index] + PulsesOf(Called(b, next, count), next, gaps[1..], count)
  }

  /** How often time restarts in it. */
  function Restarts(b: Base, now: nat, gaps: seq<nat>, count: nat): nat
    requires count > 0 && b.loadedAt <= now
    decreases |gaps|
  {
    if gaps == [] then 0
    else
      var next := now + gaps[0];
      (if Called(b, next, count).loadedAt == b.loadedAt then 0 else 1) + Restarts(Called(b, next, count), next, gaps[1..], count)
  }

  function Sum(gaps: seq<nat>): nat {
    if gaps == [] then 0 else gaps[0] + Sum(gaps[1..])
  }

  function Count(pulses: seq<bool>): nat {
    if pulses == [] then 0 else (if pulses[0] then 1 else 0) + Count(pulses[1..])
  }

  lemma {:induction false} TimesAdd(p: nat, q: nat, k: nat)
    ensures Times(p + q, k) == Times(p, k) + Times(q, k)
  {
    if p > 0 {
      TimesAdd(p - 1, q, k);
    }
  }

  lemma TimesMost(p: nat, q: nat, k: nat)
    requires p <= q
    ensures Times(p, k) <= Times(q, k)
  {
    if p < q {
      TimesLess(p, q, k);
    }
  }

  lemma PeriodBegan(b: Base, now: nat, count: nat, p: nat)
    requires count > 0 && b.loadedAt <= now && p <= Period(b, now, count)
    ensures Times(p, count) <= Ticks(now - b.loadedAt)
  {
    OverRest(Ticks(now - b.loadedAt), count);
    TimesMost(p, Period(b, now, count), count);
  }

  lemma PeriodLasts(b: Base, now: nat, count: nat, p: nat)
    requires count > 0 && b.loadedAt <= now && Period(b, now, count) <= p
    ensures Ticks(now - b.loadedAt) < Times(p + 1, count)
  {
    OverRest(Ticks(now - b.loadedAt), count);
    TimesMost(Period(b, now, count) + 1, p + 1, count);
  }

  /** However the calls fall and however often time restarts, pulses are no more
      than whole periods. */
  lemma {:induction false} PulsesBound(b: Base, now: nat, gaps: seq<nat>, count: nat)
    requires count > 0 && b.loadedAt <= now && b.index <= Period(b, now, count)
    ensures Times(b.index + Count(PulsesOf(b, now, gaps, count)), count) <= Ticks(now - b.loadedAt + Sum(gaps))
    decreases |gaps|
  {
    hide Ticks, Over, Times;
    if gaps == [] {
      PeriodBegan(b, now, count, b.index);
    } else {
      var next, rest := now + gaps[0], gaps[1..];
      var b' := Called(b, next, count);
      var later := Count(PulsesOf(b', next, rest, count));
      PeriodGrows(b, now, next, count);
      PeriodStarts(next, count);
      PulsesBound(b', next, rest, count);
      BoundBefore(b, next, count, Sum(rest), later);
    }
  }

  lemma BoundBefore(b: Base, next: nat, count: nat, sum: nat, later: nat)
    requires count > 0 && b.loadedAt <= next && b.index <= Period(b, next, count)
    requires var b' := Called(b, next, count); Times(b'.index + later, count) <= Ticks(next - b'.loadedAt + sum)
    ensures Times(b.index + later + if Period(b, next, count) > b.index then 1 else 0, count) <= Ticks(next - b.loadedAt + sum)
  {
    var b' := Called(b, next, count);
    if Period(b, next, count) > b.index {
      if next - b.loadedAt > REBASE {
        PeriodBegan(b, next, count, b.index + 1);
        TicksAdd(next - b.loadedAt, sum);
        TimesAdd(b.index + 1, later, count);
      } else {
        TimesMost(b.index + 1 + later, b'.index + later, count);
      }
    }
  }

  lemma PeriodStarts(now: nat, count: nat)
    requires count > 0
    ensures Period(Base(now, 0), now, count) == 0
  {
  }

  lemma PeriodGrows(b: Base, now: nat, next: nat, count: nat)
    requires count > 0 && b.loadedAt <= now <= next
    ensures Period(b, now, count) <= Period(b, next, count)
  {
    TicksGrow(now - b.loadedAt, next - b.loadedAt);
    OverGrows(Ticks(now - b.loadedAt), Ticks(next - b.loadedAt), count);
  }

  /** A call less than a period after the last one passes one boundary at most. */
  lemma OnePeriod(b: Base, now: nat, next: nat, count: nat)
    requires count > 0 && b.loadedAt <= now <= next && Ticks(next - now) < count
    ensures Period(b, next, count) <= Period(b, now, count) + 1
  {
    TicksAdd(now - b.loadedAt, next - now);
    OverRest(Ticks(now - b.loadedAt), count);
    OverRest(Ticks(next - b.loadedAt), count);
    var p, q := Period(b, now, count), Period(b, next, count);
    if q > p + 1 {
      TimesMost(p + 2, q, count);
      TimesAdd(2, p, count);
    }
  }

  predicate Close(gaps: seq<nat>, count: nat) {
    forall i :: 0 <= i < |gaps| ==> Ticks(gaps[i]) < count
  }

  /** With calls less than a period apart each restart of time costs less than one
      period, and nothing else is lost. */
  lemma {:induction false} PulsesKeepUp(b: Base, now: nat, gaps: seq<nat>, count: nat)
    requires count > 0 && b.loadedAt <= now && b.index == Period(b, now, count) && Close(gaps, count)
    ensures
      Ticks(now - b.loadedAt + Sum(gaps)) < Times(b.index + Count(PulsesOf(b, now, gaps, count)) + Restarts(b, now, gaps, count) + 1, count)
    decreases |gaps|
  {
    hide Ticks, Over, Times;
    if gaps == [] {
      PeriodLasts(b, now, count, b.index);
    } else {
      var next, rest := now + gaps[0], gaps[1..];
      var b' := Called(b, next, count);
      var later, restarts := Count(PulsesOf(b', next, rest, count)), Restarts(b', next, rest, count);
      PeriodGrows(b, now, next, count);
      OnePeriod(b, now, next, count);
      PeriodStarts(next, count);
      CloseRest(gaps, count);
      PulsesKeepUp(b', next, rest, count);
      BehindBefore(b, next, count, Sum(rest), later + restarts);
    }
  }

  lemma BehindBefore(b: Base, next: nat, count: nat, sum: nat, later: nat)
    requires count > 0 && b.loadedAt <= next && b.index <= Period(b, next, count) <= b.index + 1
    requires var b' := Called(b, next, count); Ticks(next - b'.loadedAt + sum) < Times(b'.index + later + 1, count)
    ensures
      var pulses := if Period(b, next, count) > b.index then 1 else 0;
      var restarts := if Called(b, next, count).loadedAt == b.loadedAt then 0 else 1;
      Ticks(next - b.loadedAt + sum) < Times(b.index + later + pulses + restarts + 1, count)
  {
    if Called(b, next, count).loadedAt != b.loadedAt {
      PeriodLasts(b, next, count, b.index + 1);
      TicksAdd(next - b.loadedAt, sum);
      TimesAdd(b.index + 2, later + 1, count);
    }
  }

  lemma CloseRest(gaps: seq<nat>, count: nat)
    requires gaps != [] && Close(gaps, count)
    ensures Close(gaps[1..], count)
  {
  }

  /** Until time has run for half the clock's range it does not restart. */
  lemma {:induction false} NoRestart(b: Base, now: nat, gaps: seq<nat>, count: nat)
    requires count > 0 && b.loadedAt <= now && now - b.loadedAt + Sum(gaps) <= REBASE
    ensures Restarts(b, now, gaps, count) == 0
    decreases |gaps|
  {
    if gaps != [] {
      var next := now + gaps[0];
      NoRestart(Called(b, next, count), next, gaps[1..], count);
    }
  }

  /** Until then a call pulses exactly if a boundary has been passed since the call
      before it. */
  lemma {:induction false} PulseAtBoundary(b: Base, now: nat, gaps: seq<nat>, count: nat, k: nat)
    requires count > 0 && b.loadedAt <= now && b.index == Period(b, now, count)
    requires k < |gaps| && now - b.loadedAt + Sum(gaps[..k]) <= REBASE
    ensures
      PulsesOf(b, now, gaps, count)[k]
      <==> Period(b, now + Sum(gaps[..k]) + gaps[k], count) > Period(b, now + Sum(gaps[..k]), count)
    decreases |gaps|
  {
    if k > 0 {
      var next, rest := now + gaps[0], gaps[1..];
      assert gaps[..k][1..] == rest[..k - 1];
      PeriodGrows(b, now, next, count);
      PulseAtBoundary(Called(b, next, count), next, rest, count, k - 1);
    } else {
      PeriodGrows(b, now, now + gaps[0], count);
    }
  }

  /** Which byte of the count an access takes: always one, or both in turn. */
  datatype Access = Low | High | First | Second

  /** What is left to read of a latched count. */
  datatype Latched = Nothing | LowByte | HighByte | BothBytes

  class Channel {
    var count: nat
    var loadTime: nat
    var lastIrq: nat
    var mode: nat
    var connected: bool
    var access: Access
    var readState: Access
    var writeState: Access
    var writeLatch: nat
    var latched: Latched
    var latchedCount: nat
    ghost var loadedAt: nat
    ghost var calledAt: nat
    ghost var index: nat

    constructor (now: nat, connected: bool)
      ensures Programmed() && mode == 3 && count == 0x1_0000 && this.connected == connected
      ensures loadedAt == calledAt == now
    {
      mode, this.connected := 3, connected;
      access, readState, writeState, writeLatch, latched, latchedCount := Low, Low, Low, 0, Nothing, 0;
      count, loadTime, lastIrq := 0x1_0000, now % WORD, 0;
      loadedAt, calledAt, index := now, now, 0;
    }

    /** What a count leaves, and every call after it keeps: the last interrupt's
        tick is a multiple of the count, and nothing is near wrapping. */
    ghost predicate Programmed()
      reads this
    {
      && 1 <= count <= 0x1_0000 && mode <= 5
      && loadedAt <= calledAt && loadTime == loadedAt % WORD
      && (mode in {2, 3} && connected ==>
            && lastIrq == Times(index, count) && lastIrq <= Ticks(REBASE)
            && Ticks(calledAt - loadedAt) < lastIrq + count)
      && lastIrq <= Ticks(calledAt - loadedAt)
    }

    ghost function TimeBase(): Base
      reads this
    {
      Base(loadedAt, index)
    }

    /** Microseconds since the count was loaded, on 32 bits. */
    function Since(now: nat): nat
      reads this
    {
      (now % WORD - loadTime) % WORD
    }

    /** Ticks since then, on 32 bits. */
    function Elapsed(now: nat): nat
      reads this
    {
      Ticks(Since(now)) % WORD
    }

    method Load(now: nat)
      modifies this`loadTime, this`lastIrq, this`loadedAt, this`calledAt, this`index
      ensures loadTime == now % WORD && lastIrq == 0 && loadedAt == calledAt == now && index == 0
    {
      loadTime, lastIrq := now % WORD, 0;
      loadedAt, calledAt, index := now, now, 0;
    }

    /** In the periodic modes, with calls less than 1.4e9 microseconds apart, one
        pulse exactly when the period has advanced since the last one, as in true
        time. */
    method UpdatePeriodic(now: nat) returns (pulse: bool)
      requires Programmed() && mode in {2, 3} && connected && calledAt <= now < calledAt + LONGEST_GAP
      modifies this`loadTime, this`lastIrq, this`loadedAt, this`calledAt, this`index
      ensures Programmed() && calledAt == now
      ensures pulse <==> Period(old(TimeBase()), now, count) > old(index)
      ensures TimeBase() == Called(old(TimeBase()), now, count)
      ensures pulse && now - old(loadedAt) > 0x8000_0000 ==> loadedAt == now && lastIrq == 0
      ensures !(pulse && now - old(loadedAt) > 0x8000_0000) ==> loadedAt == old(loadedAt)
    {
      ExactTime(now);
      BehindNever(now);
      var d := Elapsed(now);
      var due := d - Rest(d, count);
      var pending := (due - lastIrq) % WORD;
      if pending < count {
        NotYet(now);
        calledAt := now;
        return false;
      }
      Fire(now, d, due);
      pulse := true;
    }

    /** Elapsed time and ticks are what they are without wrapping. */
    lemma ExactTime(now: nat)
      requires Programmed() && mode in {2, 3} && connected && calledAt <= now < calledAt + LONGEST_GAP
      ensures Since(now) == now - loadedAt < WORD && Elapsed(now) == Ticks(now - loadedAt) < WORD
    {
      GapFits(calledAt - loadedAt, now - calledAt, lastIrq, count);
      ClockDifference(now, loadedAt);
    }

    /** The last interrupt is not after the last boundary, and is a period before
        it exactly if the period has advanced. */
    lemma BehindNever(now: nat)
      requires Programmed() && mode in {2, 3} && connected && calledAt <= now && Ticks(now - loadedAt) < WORD
      ensures
        var d := Ticks(now - loadedAt);
        && lastIrq <= d - Rest(d, count) && (d - Rest(d, count) - lastIrq) % WORD == d - Rest(d, count) - lastIrq
        && (d - Rest(d, count) - lastIrq >= count <==> Period(TimeBase(), now, count) > index)
    {
      var d := Ticks(now - loadedAt);
      TicksGrow(calledAt - loadedAt, now - loadedAt);
      OverRest(d, count);
      if Over(d, count) < index {
        TimesLess(Over(d, count), index, count);
      }
      Advanced(Over(d, count), index, count);
    }

    lemma NotYet(now: nat)
      requires Programmed() && mode in {2, 3} && connected && calledAt <= now && Period(TimeBase(), now, count) <= index
      ensures lastIrq <= Ticks(now - loadedAt) < lastIrq + count
    {
      TicksGrow(calledAt - loadedAt, now - loadedAt);
      PeriodLasts(TimeBase(), now, count, index);
      TimesAdd(1, index, count);
    }

    /** The pulse, and the new start of time when half the clock's range is used. */
    method Fire(now: nat, d: nat, due: nat)
      requires Programmed() && mode in {2, 3} && connected && calledAt <= now
      requires Since(now) == now - loadedAt < WORD && d == Ticks(now - loadedAt)
      requires due == d - Rest(d, count) && Over(d, count) > index
      modifies this`loadTime, this`lastIrq, this`loadedAt, this`calledAt, this`index
      ensures Programmed() && calledAt == now
      ensures TimeBase() == if now - old(loadedAt) > 0x8000_0000 then Base(now, 0) else Base(old(loadedAt), Over(d, count))
    {
      OverRest(d, count);
      lastIrq := due;
      index, calledAt := Over(d, count), now;
      if Since(now) > REBASE {
        Load(now);
      } else {
        TicksGrow(now - loadedAt, REBASE);
      }
    }

    /** The other modes: one pulse when the counter expires, and no other until a
        count is written. */
    method UpdateOnce(now: nat) returns (pulse: bool)
      requires Programmed() && mode in {0, 1, 4, 5} && calledAt <= now
      modifies this`lastIrq, this`calledAt
      ensures Programmed() && calledAt == now
      ensures pulse <==> old(lastIrq) == 0 && connected && Expired(loadedAt, now, count)
      ensures lastIrq == 0 <==> old(lastIrq) == 0 && !pulse
    {
      var d := Elapsed(now);
      TicksGrow(calledAt - loadedAt, now - loadedAt);
      ElapsedMost(loadedAt, now);
      calledAt := now;
      if lastIrq == 0 && d >= count && connected {
        lastIrq := count;
        return true;
      }
      pulse := false;
    }

    /** A one-shot timer called again and again pulses at the first call that finds
        the counter expired, and at no other. */
    method RunOnce(mode: nat, value: nat, start: nat, times: seq<nat>) returns (pulses: seq<bool>)
      requires mode in {0, 1, 4, 5} && value < 0x1_0000 && InOrder(start, times)
      modifies this
      ensures Programmed() && count == (if value == 0 then 0x1_0000 else value)
      ensures |pulses| == |times|
      ensures forall i :: 0 <= i < |times| ==> (pulses[i] <==> connected && FirstExpired(start, times, i, count))
    {
      ProgramWord(mode, value, start, start);
      pulses := [];
      for i := 0 to |times|
        invariant Programmed() && this.mode == mode && connected == old(connected) && loadedAt == start && |pulses| == i
        invariant count == (if value == 0 then 0x1_0000 else value) && calledAt == if i == 0 then start else times[i - 1]
        invariant lastIrq == 0 <==> !connected || NoneExpired(start, times[..i], count)
        invariant forall j :: 0 <= j < i ==> (pulses[j] <==> connected && FirstExpired(start, times, j, count))
      {
        NoneExpiredNext(start, times, i, count);
        var pulse := UpdateOnce(times[i]);
        pulses := pulses + [pulse];
      }
    }

    /** Calls in a row pulse as in true time. */
    method CallAll(start: nat, gaps: seq<nat>) returns (pulses: seq<bool>)
      requires Programmed() && mode in {2, 3} && connected && calledAt == start
      requires forall i :: 0 <= i < |gaps| ==> gaps[i] < LONGEST_GAP
      modifies this`loadTime, this`lastIrq, this`loadedAt, this`calledAt, this`index
      ensures Programmed() && calledAt == start + Sum(gaps)
      ensures pulses == PulsesOf(old(TimeBase()), start, gaps, count)
    {
      var now, i := start, 0;
      pulses := [];
      ghost var rest, all := gaps, PulsesOf(TimeBase(), start, gaps, count);
      while i < |gaps|
        invariant i <= |gaps| && Programmed() && calledAt == now && rest == gaps[i..]
        invariant now + Sum(rest) == start + Sum(gaps)
        invariant pulses + PulsesOf(TimeBase(), now, rest, count) == all
      {
        var pulse := CallNext(now, gaps[i], pulses, rest, all);
        pulses, rest := pulses + [pulse], rest[1..];
        now, i := now + gaps[i], i + 1;
      }
    }

    method CallNext(now: nat, gap: nat, ghost pulses: seq<bool>, ghost rest: seq<nat>, ghost all: seq<bool>) returns (pulse: bool)
      requires Programmed() && mode in {2, 3} && connected && calledAt == now && rest != [] && gap == rest[0] < LONGEST_GAP
      requires pulses + PulsesOf(TimeBase(), now, rest, count) == all
      modifies this`loadTime, this`lastIrq, this`loadedAt, this`calledAt, this`index
      ensures Programmed() && calledAt == now + gap && Sum(rest) == gap + Sum(rest[1..])
      ensures pulses + [pulse] + PulsesOf(TimeBase(), now + gap, rest[1..], count) == all
    {
      pulse := UpdatePeriodic(now + gap);
      Regroup(pulses, [pulse], PulsesOf(TimeBase(), now + gap, rest[1..], count));
    }

    /** A periodic timer called again and again pulses as in true time: never more
        often than whole periods have passed since it was programmed, however the
        calls fall and however often time is restarted. With calls less than a
        period apart it falls behind by less than a period each time the clock is
        restarted, and by nothing else. */
    method RunPeriodic(mode: nat, value: nat, start: nat, gaps: seq<nat>) returns (pulses: seq<bool>)
      requires mode in {2, 3} && value < 0x1_0000 && connected
      requires forall i :: 0 <= i < |gaps| ==> gaps[i] < LONGEST_GAP
      modifies this
      ensures Programmed() && count == (if value == 0 then 0x1_0000 else value) && calledAt == start + Sum(gaps)
      ensures pulses == PulsesOf(Base(start, 0), start, gaps, count)
      ensures OnTime(start, gaps, count, Count(pulses))
    {
      ProgramWord(mode, value, start, start);
      pulses := CallAll(start, gaps);
      PulsesOnTime(start, gaps, count);
    }

    // Counts, a byte at a time.

    /** The counter as the guest can read it, below 0x10000. */
    function Counter(now: nat): nat
      requires 1 <= count <= 0x1_0000
      reads this
    {
      var d := Elapsed(now);
      var value := if mode in {0, 1, 4, 5} then count - d else if mode == 3 then count - Rest(2 * d % WORD, count) else count - Rest(d, count);
      value % 0x1_0000
    }

    /** With `d` ticks of 1193182 Hz since the count was loaded, in 32-bit
        microseconds, modes 0, 1, 4 and 5 count down once, mode 2 again and again,
        and mode 3 by twos; the guest sees the low 16 bits. */
    lemma CountsDown(now: nat, d: nat)
      requires 1 <= count <= 0x1_0000
      requires d == (now % 0x1_0000_0000 - loadTime) % 0x1_0000_0000 * 1193182 / 1000000 % 0x1_0000_0000
      ensures mode in {0, 1, 4, 5} ==> Counter(now) == (count - d) % 0x1_0000
      ensures mode == 2 ==> Counter(now) == (count - d % count) % 0x1_0000
      ensures mode == 3 ==> Counter(now) == (count - 2 * d % 0x1_0000_0000 % count) % 0x1_0000
    {
      assert Elapsed(now) == d;
      IsDivision(d, count);
      IsDivision(2 * d % WORD, count);
    }

    /** A control word: the access mode, and where reads and writes start. */
    method Control(mode: nat, access: Access)
      requires mode < 8 && access != Second
      modifies this`mode, this`access, this`readState, this`writeState
      ensures this.mode == (if mode > 5 then mode - 4 else mode) <= 5 && this.access == readState == writeState == access
    {
      this.access, readState, writeState := access, access, access;
      this.mode := if mode > 5 then mode - 4 else mode;
    }

    /** A latch command; a second one before the first is read is ignored. */
    method Latch(now: nat)
      requires 1 <= count <= 0x1_0000
      modifies this`latched, this`latchedCount
      ensures old(latched) != Nothing ==> latched == old(latched) && latchedCount == old(latchedCount)
      ensures old(latched) == Nothing ==> latchedCount == Counter(now) && latched == if access == Low then LowByte else if access == High then HighByte else BothBytes
    {
      if latched == Nothing {
        latchedCount := Counter(now);
        latched := if access == Low then LowByte else if access == High then HighByte else BothBytes;
      }
    }

    method ReadPort(now: nat) returns (b: nat)
      requires 1 <= count <= 0x1_0000 && latchedCount < 0x1_0000
      modifies this`latched, this`readState
      ensures b < 256
      ensures
        old(latched) == LowByte || old(latched) == BothBytes ==>
          b == latchedCount % 256 && latched == (if old(latched) == BothBytes then HighByte else Nothing) && readState == old(readState)
      ensures old(latched) == HighByte ==> b == latchedCount / 256 && latched == Nothing && readState == old(readState)
      ensures
        old(latched) == Nothing ==>
          && latched == Nothing && b == (if old(readState) in {Low, First} then Counter(now) % 256 else Counter(now) / 256)
          && readState == if old(readState) == First then Second else if old(readState) == Second then First else old(readState)
    {
      match latched {
        case LowByte =>
          b, latched := latchedCount % 256, Nothing;
        case HighByte =>
          b, latched := latchedCount / 256, Nothing;
        case BothBytes =>
          b, latched := latchedCount % 256, HighByte;
        case Nothing =>
          var value := Counter(now);
          match readState {
            case Low =>
              b := value % 256;
            case High =>
              b := value / 256;
            case First =>
              b, readState := value % 256, Second;
            case Second =>
              b, readState := value / 256, First;
          }
      }
    }

    /** A latched count is read whole: the two bytes are of the moment of the
        latch, however late they are read and whatever is latched in between. */
    method ReadLatched(latchAt: nat, again: nat, first: nat, second: nat) returns (value: nat)
      requires 1 <= count <= 0x1_0000 && latched == Nothing && access == First
      modifies this`latched, this`latchedCount, this`readState
      ensures value == Counter(latchAt) && latched == Nothing && readState == old(readState)
    {
      Latch(latchAt);
      var low := ReadPort(first);
      Latch(again);
      var high := ReadPort(second);
      value := low + 256 * high;
    }

    method WritePort(b: nat, now: nat)
      requires b < 256
      modifies this`count, this`loadTime, this`lastIrq, this`loadedAt, this`calledAt, this`index, this`writeState, this`writeLatch
      ensures old(writeState) == First ==> writeState == Second && writeLatch == b && count == old(count) && loadTime == old(loadTime)
      ensures
        old(writeState) != First ==>
          var value := if old(writeState) == Low then b else if old(writeState) == High then 256 * b else old(writeLatch) + 256 * b;
          && count == (if value == 0 then 0x1_0000 else value) && loadTime == now % WORD && lastIrq == 0
          && loadedAt == calledAt == now && index == 0
          && writeState == (if old(writeState) == Second then First else old(writeState))
          && (mode <= 5 && value < 0x1_0000 ==> Programmed())
    {
      match writeState {
        case Low =>
          SetCount(b, now);
        case High =>
          SetCount(256 * b, now);
        case First =>
          writeLatch, writeState := b, Second;
        case Second =>
          SetCount(writeLatch + 256 * b, now);
          writeState := First;
      }
    }

    method SetCount(value: nat, now: nat)
      modifies this`count, this`loadTime, this`lastIrq, this`loadedAt, this`calledAt, this`index
      ensures count == (if value == 0 then 0x1_0000 else value) && loadTime == now % WORD && lastIrq == 0
      ensures loadedAt == calledAt == now && index == 0
      ensures mode <= 5 && value < 0x1_0000 ==> Programmed()
    {
      count := if value == 0 then 0x1_0000 else value;
      Load(now);
    }

    /** Programming a timer with a control word and two bytes. */
    method ProgramWord(mode: nat, value: nat, start: nat, end: nat)
      requires mode <= 5 && value < 0x1_0000
      modifies this
      ensures Programmed() && this.mode == mode && count == (if value == 0 then 0x1_0000 else value)
      ensures loadedAt == calledAt == end && lastIrq == 0 && index == 0
      ensures connected == old(connected)
    {
      Control(mode, First);
      WritePort(value % 256, start);
      WritePort(value / 256, end);
    }
  }

  lemma {:induction false} OverGrows(m: nat, n: nat, k: nat)
    requires k > 0 && m <= n
    ensures Over(m, k) <= Over(n, k)
  {
    if m >= k {
      OverGrows(m - k, n - k, k);
    }
  }

  /** The bounds `n` pulses of a run keep. */
  predicate OnTime(start: nat, gaps: seq<nat>, count: nat, n: nat)
    requires count > 0
  {
    && Times(n, count) <= Ticks(Sum(gaps))
    && (Close(gaps, count) ==> Ticks(Sum(gaps)) < Times(n + Restarts(Base(start, 0), start, gaps, count) + 1, count))
    && (Close(gaps, count) && Sum(gaps) <= REBASE ==> n == Over(Ticks(Sum(gaps)), count))
  }

  lemma PulsesOnTime(start: nat, gaps: seq<nat>, count: nat)
    requires count > 0
    ensures OnTime(start, gaps, count, Count(PulsesOf(Base(start, 0), start, gaps, count)))
  {
    var b := Base(start, 0);
    var n, ticks := Count(PulsesOf(b, start, gaps, count)), Ticks(Sum(gaps));
    PeriodStarts(start, count);
    PulsesBound(b, start, gaps, count);
    if Close(gaps, count) {
      PulsesKeepUp(b, start, gaps, count);
      if Sum(gaps) <= REBASE {
        NoRestart(b, start, gaps, count);
        TimesAdd(1, n, count);
        OverIs(ticks, n, count, ticks - Times(n, count));
      }
    }
  }

  // ----------------------------------------------------------------- one shot

  /** The counter has run out, as 32-bit time shows it. */
  predicate Expired(start: nat, now: nat, count: nat) {
    Ticks((now % WORD - start % WORD) % WORD) % WORD >= count
  }

  predicate InOrder(start: nat, times: seq<nat>) {
    forall i :: 0 <= i < |times| ==> (if i == 0 then start else times[i - 1]) <= times[i]
  }

  predicate NoneExpired(start: nat, times: seq<nat>, count: nat) {
    forall j :: 0 <= j < |times| ==> !Expired(start, times[j], count)
  }

  predicate FirstExpired(start: nat, times: seq<nat>, i: nat, count: nat)
    requires i < |times|
  {
    Expired(start, times[i], count) && NoneExpired(start, times[..i], count)
  }

  lemma NoneExpiredNext(start: nat, times: seq<nat>, i: nat, count: nat)
    requires i < |times|
    ensures NoneExpired(start, times[..i + 1], count) <==> NoneExpired(start, times[..i], count) && !Expired(start, times[i], count)
  {
    assert times[..i + 1] == times[..i] + [times[i]];
  }

  lemma ElapsedMost(start: nat, now: nat)
    requires start <= now
    ensures Ticks((now % WORD - start % WORD) % WORD) % WORD <= Ticks(now - start)
  {
    var since := (now % WORD - start % WORD) % WORD;
    var a, b := now / WORD, start / WORD;
    assert now == WORD * a + now % WORD && start == WORD * b + start % WORD;
    assert since <= now - start;
    TicksGrow(since, now - start);
  }

  /** For an hour it shows the truth. */
  lemma ExpiredTruly(start: nat, now: nat, count: nat)
    requires start <= now && Ticks(now - start) < WORD
    ensures Expired(start, now, count) <==> Ticks(now - start) >= count
  {
    ClockDifference(now, start);
  }

  /** A run pulses once at most. */
  lemma {:induction false} PulsesOnce(start: nat, times: seq<nat>, count: nat, pulses: seq<bool>)
    requires |pulses| == |times| && forall i :: 0 <= i < |times| ==> (pulses[i] ==> FirstExpired(start, times, i, count))
    ensures forall i, j :: 0 <= i < j < |times| ==> !(pulses[i] && pulses[j])
  {
    forall i, j | 0 <= i < j < |times| && pulses[i]
      ensures !pulses[j]
    {
      assert times[..j][i] == times[i];
    }
  }
}
