/** REPE/REPNE CMPS and SCAS, cut into slices that give way to interrupts,
    against the instruction run in one go, and what that one run finds. */
module RepScan {
  import LazyFlags
  import opened RepString

  /** The registers a scan moves, and the operands of its latest comparison. */
  datatype ScanState = ScanState(esi: Word, edi: Word, ecx: Word, last: Option<(seq<Byte>, seq<Byte>)>)

  /** A scan: the string configuration, with the accumulator as `fill` for SCAS;
      memory; and whether it repeats while equal (REPE) or while not (REPNE). */
  datatype Scan = Scan(cfg: Config, mem: seq<Byte>, whileEqual: bool)
  {
    predicate Valid() {
      cfg.Valid() && |mem| == cfg.ram
    }

    /** The bytes at a linear address, or None on a page fault. */
    function Load(laddr: Word): (d: Option<seq<Byte>>)
      requires Valid()
      ensures d.Some? ==> |d.value| == cfg.size
    {
      var p := Locate(cfg.readMap, laddr, cfg.size);
      LocatedInRam(cfg, cfg.ram, laddr);
      if p.None? then None else Some(LoadAt(mem, p.value, cfg.size))
    }

    /** The operands compared at these registers. */
    function Operands(esi: Word, edi: Word): (r: Option<(seq<Byte>, seq<Byte>)>)
      requires Valid()
      ensures r.Some? ==> |r.value.0| == |r.value.1| == cfg.size
    {
      var a := if cfg.fill.Some? then cfg.fill else Load(Add(esi, cfg.srcBase));
      var b := Load(Add(edi, cfg.dstBase));
      if a.None? || b.None? then None else Some((a.value, b.value))
    }

    /** The fault of reading them, if there is one: CMPS reads its source first. */
    function FaultAt(esi: Word, edi: Word): (f: Option<Fault>)
      requires Valid()
      ensures f.Some? <==> Operands(esi, edi).None?
    {
      var a, b := Missing(cfg.readMap, Add(esi, cfg.srcBase), cfg.size), Missing(cfg.readMap, Add(edi, cfg.dstBase), cfg.size);
      if cfg.fill.None? && a.Some? then Some(Fault(a.value, false))
      else if b.Some? then Some(Fault(b.value, false))
      else None
    }

    predicate Stops(pair: (seq<Byte>, seq<Byte>)) {
      (pair.0 == pair.1) != whileEqual
    }

    /** The operands `i` elements further on. */
    function OperandsAt(s: ScanState, i: nat): (r: Option<(seq<Byte>, seq<Byte>)>)
      requires Valid()
      ensures r.Some? ==> |r.value.0| == |r.value.1| == cfg.size
    {
      Operands(AddTimes(s.esi, cfg.SrcDir(), i), AddTimes(s.edi, cfg.Dir(), i))
    }
  }

  function Compared(scan: Scan, s: ScanState): (r: Option<ScanState>)
    requires scan.Valid() && s.ecx > 0
    ensures r.Some? ==> r.value.ecx == s.ecx - 1 && r.value.last.Some?
  {
    var pair := scan.Operands(s.esi, s.edi);
    if pair.None? then None
    else Some(ScanState(Add(s.esi, scan.cfg.SrcDir()), Add(s.edi, scan.cfg.Dir()), s.ecx - 1, pair))
  }

  datatype ScanOutcome = ScanOutcome(state: ScanState, fault: Option<Fault>)

  /** The whole instruction, not sliced. */
  function ScanAll(scan: Scan, s: ScanState): (o: ScanOutcome)
    requires scan.Valid()
    ensures o.state.ecx <= s.ecx
    decreases s.ecx
  {
    if s.ecx == 0 then ScanOutcome(s, None)
    else
      var next := Compared(scan, s);
      if next.None? then ScanOutcome(s, scan.FaultAt(s.esi, s.edi))
      else if scan.Stops(next.value.last.value) then ScanOutcome(next.value, None)
      else ScanAll(scan, next.value)
  }

  /** The elements before the last one compared all satisfy the condition. */
  ghost predicate AllContinue(scan: Scan, s: ScanState, n: nat)
    requires scan.Valid()
  {
    forall i: nat :: i < n ==> scan.OperandsAt(s, i).Some? && !scan.Stops(scan.OperandsAt(s, i).value)
  }

  lemma OperandsShift(scan: Scan, s: ScanState, s1: ScanState, i: nat)
    requires scan.Valid() && s1.esi == Add(s.esi, scan.cfg.SrcDir()) && s1.edi == Add(s.edi, scan.cfg.Dir())
    ensures scan.OperandsAt(s1, i) == scan.OperandsAt(s, i + 1)
  {
  }

  lemma ContinueShift(scan: Scan, s: ScanState, s1: ScanState, n: nat)
    requires scan.Valid() && s1.esi == Add(s.esi, scan.cfg.SrcDir()) && s1.edi == Add(s.edi, scan.cfg.Dir())
    requires scan.OperandsAt(s, 0).Some? && !scan.Stops(scan.OperandsAt(s, 0).value)
    ensures AllContinue(scan, s1, n) ==> AllContinue(scan, s, n + 1)
  {
    if AllContinue(scan, s1, n) {
      forall i: nat | i < n + 1
        ensures scan.OperandsAt(s, i).Some? && !scan.Stops(scan.OperandsAt(s, i).value)
      {
        if i > 0 {
          OperandsShift(scan, s, s1, i - 1);
          var p := scan.OperandsAt(s1, i - 1);
        }
      }
    }
  }

  /** What a scan finds: with k elements compared, the registers have moved by k
      elements and ECX counts what remains; all but the last of them satisfy the
      condition; the flags are those of the last comparison, and untouched when
      there was none; it ended because ECX ran out, because the last element
      fails the condition, or because the next one faults. */
  ghost predicate Found(scan: Scan, s: ScanState, o: ScanOutcome)
    requires scan.Valid() && o.state.ecx <= s.ecx
  {
    MovedBy(scan, s, o.state, s.ecx - o.state.ecx) && Ended(scan, s, o, s.ecx - o.state.ecx)
  }

  predicate MovedBy(scan: Scan, s: ScanState, s': ScanState, k: nat)
    requires scan.Valid()
  {
    && s'.esi == AddTimes(s.esi, scan.cfg.SrcDir(), k) && s'.edi == AddTimes(s.edi, scan.cfg.Dir(), k)
    && s'.last == if k == 0 then s.last else scan.OperandsAt(s, k - 1)
  }

  ghost predicate Ended(scan: Scan, s: ScanState, o: ScanOutcome, k: nat)
    requires scan.Valid()
  {
    && (k > 0 ==> o.state.last.Some? && AllContinue(scan, s, k - 1))
    && (o.fault.Some? ==>
          && o.state.ecx > 0 && scan.OperandsAt(s, k).None? && AllContinue(scan, s, k)
          && o.fault == scan.FaultAt(o.state.esi, o.state.edi))
    && (o.fault.None? ==> o.state.ecx == 0 || (k > 0 && scan.Stops(o.state.last.value)))
  }

  /** `s1` is one comparison after `s`, which lets the scan continue. */
  predicate Continues(scan: Scan, s: ScanState, s1: ScanState)
    requires scan.Valid()
  {
    s.ecx > 0 && Compared(scan, s) == Some(s1) && !scan.Stops(s1.last.value)
  }

  lemma MovedFurther(scan: Scan, s: ScanState, s1: ScanState, s': ScanState, k: nat)
    requires scan.Valid() && Continues(scan, s, s1) && MovedBy(scan, s1, s', k)
    ensures MovedBy(scan, s, s', k + 1)
  {
    assert scan.OperandsAt(s, 0) == scan.Operands(s.esi, s.edi);
    if k > 0 {
      OperandsShift(scan, s, s1, k - 1);
    }
  }

  lemma EndedFurther(scan: Scan, s: ScanState, s1: ScanState, o: ScanOutcome, k: nat)
    requires scan.Valid() && Continues(scan, s, s1)
    requires MovedBy(scan, s1, o.state, k) && Ended(scan, s1, o, k)
    ensures Ended(scan, s, o, k + 1)
  {
    assert scan.OperandsAt(s, 0) == scan.Operands(s.esi, s.edi);
    if k > 0 {
      ContinueShift(scan, s, s1, k - 1);
    }
    ContinueShift(scan, s, s1, k);
    OperandsShift(scan, s, s1, k);
  }

  lemma FoundAtOnce(scan: Scan, s: ScanState)
    requires scan.Valid()
    requires s.ecx > 0 && Compared(scan, s).Some? ==> scan.Stops(Compared(scan, s).value.last.value)
    ensures Found(scan, s, ScanAll(scan, s))
  {
    assert scan.OperandsAt(s, 0) == scan.Operands(s.esi, s.edi);
    if s.ecx > 0 && Compared(scan, s).Some? {
      var s1 := Compared(scan, s).value;
      assert ScanAll(scan, s) == ScanOutcome(s1, None);
      assert AddTimes(s.esi, scan.cfg.SrcDir(), 1) == AddTimes(s1.esi, scan.cfg.SrcDir(), 0);
      assert AddTimes(s.edi, scan.cfg.Dir(), 1) == AddTimes(s1.edi, scan.cfg.Dir(), 0);
    }
  }

  lemma ScanContinues(scan: Scan, s: ScanState, s1: ScanState)
    requires scan.Valid() && Continues(scan, s, s1)
    ensures ScanAll(scan, s) == ScanAll(scan, s1)
  {
  }

  lemma FoundFurtherOn(scan: Scan, s: ScanState, s1: ScanState, o: ScanOutcome)
    requires scan.Valid() && Continues(scan, s, s1)
    requires o.state.ecx <= s1.ecx && Found(scan, s1, o)
    ensures o.state.ecx <= s.ecx && Found(scan, s, o)
  {
    hide ScanAll, Compared;
    var k := s1.ecx - o.state.ecx;
    MovedFurther(scan, s, s1, o.state, k);
    EndedFurther(scan, s, s1, o, k);
    assert s.ecx - o.state.ecx == k + 1;
  }

  lemma {:induction false} ScanFinds(scan: Scan, s: ScanState)
    requires scan.Valid()
    ensures Found(scan, s, ScanAll(scan, s))
    decreases s.ecx
  {
    if s.ecx > 0 && Compared(scan, s).Some? && Continues(scan, s, Compared(scan, s).value) {
      var s1 := Compared(scan, s).value;
      var o := ScanAll(scan, s1);
      ScanFinds(scan, s1);
      FoundFurtherOn(scan, s, s1, o);
      ScanContinues(scan, s, s1);
    } else {
      FoundAtOnce(scan, s);
    }
  }

  // ------------------------------------------------ equality is the zero flag

  /** An element as the number it stands for, lowest byte first. */
  function Number(d: seq<Byte>): nat {
    if d == [] then 0 else d[0] + 256 * Number(d[1..])
  }

  lemma {:induction false} NumberIsInjective(a: seq<Byte>, b: seq<Byte>)
    requires |a| == |b| && Number(a) == Number(b)
    ensures a == b
  {
    if a != [] {
      assert a[0] == b[0] && Number(a[1..]) == Number(b[1..]);
      NumberIsInjective(a[1..], b[1..]);
      assert a == [a[0]] + a[1..] && b == [b[0]] + b[1..];
    }
  }

  lemma {:induction false} NumberFits(d: seq<Byte>, n: nat)
    requires |d| == n
    ensures Number(d) < LazyFlags.Pow2(8 * n)
  {
    if n > 0 {
      NumberFits(d[1..], n - 1);
      EightMore(8 * (n - 1));
    }
  }

  lemma EightMore(k: nat)
    ensures LazyFlags.Pow2(k + 8) == 256 * LazyFlags.Pow2(k)
  {
    assert LazyFlags.Pow2(k + 2) == 2 * LazyFlags.Pow2(k + 1);
    assert LazyFlags.Pow2(k + 4) == 2 * LazyFlags.Pow2(k + 3);
    assert LazyFlags.Pow2(k + 6) == 2 * LazyFlags.Pow2(k + 5);
    assert LazyFlags.Pow2(k + 8) == 2 * LazyFlags.Pow2(k + 7);
  }

  function Operand(w: LazyFlags.Width, d: seq<Byte>): (x: Word)
    requires 8 * |d| == LazyFlags.Bits(w)
    ensures x < LazyFlags.Modulus(w)
  {
    NumberFits(d, |d|);
    LazyFlags.ModulusIsPower(w);
    Number(d)
  }

  /** The comparison the helper makes is a SUB of the operands, and its zero flag
      is their equality. */
  lemma EqualIffZeroFlag(w: LazyFlags.Width, a: seq<Byte>, b: seq<Byte>)
    requires 8 * |a| == 8 * |b| == LazyFlags.Bits(w)
    ensures LazyFlags.SubFlags(w, Operand(w, a), Operand(w, b), 0).0.zf <==> a == b
  {
    var x, y := Operand(w, a), Operand(w, b);
    LazyFlags.LowOfReduced(w, x);
    LazyFlags.LowOfReduced(w, y);
    LazyFlags.LowOfReduced(w, LazyFlags.SubFlags(w, x, y, 0).1);
    if x == y {
      NumberIsInjective(a, b);
    }
  }

  /** Where a scan stops, told by the flags of its comparisons: every one before the
      last leaves ZF set under REPE and clear under REPNE; if ECX has not run out
      and nothing faults, the last one leaves it the other way round. */
  lemma ScanByFlags(scan: Scan, s: ScanState, w: LazyFlags.Width, i: nat)
    requires scan.Valid() && 8 * scan.cfg.size == LazyFlags.Bits(w)
    ensures
      var o, at := ScanAll(scan, s), scan.OperandsAt(s, i);
      var k := s.ecx - o.state.ecx;
      && (i < k ==> at.Some?)
      && (i + 1 < k || (i + 1 == k && o.fault.Some?) ==>
            (LazyFlags.SubFlags(w, Operand(w, at.value.0), Operand(w, at.value.1), 0).0.zf <==> scan.whileEqual))
      && (i + 1 == k && o.fault.None? && o.state.ecx > 0 ==>
            (LazyFlags.SubFlags(w, Operand(w, at.value.0), Operand(w, at.value.1), 0).0.zf <==> !scan.whileEqual))
      && (o.fault.None? && o.state.ecx > 0 ==> k > 0)
  {
    hide ScanAll, LazyFlags.SubFlags, Operand;
    ScanFinds(scan, s);
    var at := scan.OperandsAt(s, i);
    if at.Some? {
      EqualIffZeroFlag(w, at.value.0, at.value.1);
    }
  }

  /** Byte `j` of the operands: the accumulator's for SCAS, DS:ESI's for CMPS, and
      ES:EDI's, each found through the page of its own linear address. */
  lemma OperandByte(scan: Scan, esi: Word, edi: Word, j: nat)
    requires scan.Valid() && scan.Operands(esi, edi).Some? && j < scan.cfg.size
    ensures
      var (a, b), cfg := scan.Operands(esi, edi).value, scan.cfg;
      var left, right := (esi + cfg.srcBase) % WORD + j, (edi + cfg.dstBase) % WORD + j;
      && |a| == |b| == cfg.size
      && right / PAGE in cfg.readMap && cfg.readMap[right / PAGE] * PAGE + right % PAGE < |scan.mem|
      && b[j] == scan.mem[cfg.readMap[right / PAGE] * PAGE + right % PAGE]
      && (cfg.fill.Some? ==> a == cfg.fill.value)
      && (cfg.fill.None? ==>
            && left / PAGE in cfg.readMap && cfg.readMap[left / PAGE] * PAGE + left % PAGE < |scan.mem|
            && a[j] == scan.mem[cfg.readMap[left / PAGE] * PAGE + left % PAGE])
  {
    var from, to := Add(esi, scan.cfg.srcBase), Add(edi, scan.cfg.dstBase);
    assert from == (esi + scan.cfg.srcBase) % WORD && to == (edi + scan.cfg.dstBase) % WORD;
    LoadByte(scan, to, j);
    if scan.cfg.fill.None? {
      LoadByte(scan, from, j);
    }
  }

  lemma LoadByte(scan: Scan, laddr: Word, j: nat)
    requires scan.Valid() && scan.Load(laddr).Some? && j < scan.cfg.size
    ensures
      var l, pages := laddr + j, scan.cfg.readMap;
      l / PAGE in pages && pages[l / PAGE] * PAGE + l % PAGE < |scan.mem| && scan.Load(laddr).value[j] == scan.mem[pages[l / PAGE] * PAGE + l % PAGE]
  {
    hide Locate, LoadAt;
    LocatedInRam(scan.cfg, scan.cfg.ram, laddr);
    ByteAt(scan.cfg.readMap, laddr, scan.cfg.size, j);
    LoadedByte(scan.mem, Locate(scan.cfg.readMap, laddr, scan.cfg.size).value, scan.cfg.size, j);
  }

  // --------------------------------------------------------------- in slices

  class ScanUnit {
    const scan: Scan
    var esi: Word
    var edi: Word
    var ecx: Word
    var last: Option<(seq<Byte>, seq<Byte>)>

    constructor (scan: Scan, s: ScanState)
      requires scan.Valid()
      ensures this.scan == scan && Abs() == s
    {
      this.scan := scan;
      esi, edi, ecx, last := s.esi, s.edi, s.ecx, s.last;
    }

    function Abs(): ScanState
      reads this
    {
      ScanState(esi, edi, ecx, last)
    }

    /** Once through the helper: at most a slice of the elements. */
    method Execute() returns (status: Status, fault: Option<Fault>)
      requires scan.Valid()
      modifies this
      ensures ecx <= old(ecx) && (fault.Some? <==> status.Faulted?)
      ensures status.Yielded? ==> 0 < ecx < old(ecx) && ScanAll(scan, Abs()) == ScanAll(scan, old(Abs()))
      ensures !status.Yielded? ==> ScanAll(scan, old(Abs())) == ScanOutcome(Abs(), fault)
    {
      fault := None;
      ghost var end := ScanAll(scan, Abs());
      var count: nat := if scan.cfg.givesWay && ecx > scan.cfg.slice then scan.cfg.slice else ecx;
      ghost var limit := count;
      while count > 0 && ecx > 0
        invariant count <= limit && ecx == old(ecx) - (limit - count)
        invariant ScanAll(scan, Abs()) == end && fault.None?
        decreases count
      {
        count := count - 1;
        status, fault := CompareOne(end);
        if status != Yielded {
          return;
        }
      }
      status := if scan.cfg.givesWay && ecx > 0 then Yielded else Finished;
    }

    /** One comparison; `Yielded` if the scan goes on. */
    method CompareOne(ghost end: ScanOutcome) returns (status: Status, fault: Option<Fault>)
      requires scan.Valid() && ecx > 0 && ScanAll(scan, Abs()) == end
      modifies this
      ensures fault.Some? <==> status.Faulted?
      ensures status.Yielded? ==> ScanAll(scan, Abs()) == end && ecx == old(ecx) - 1
      ensures !status.Yielded? ==> end == ScanOutcome(Abs(), fault) && ecx <= old(ecx)
    {
      var pair := scan.Operands(esi, edi);
      fault := scan.FaultAt(esi, edi);
      if pair.None? {
        return Faulted, fault;
      }
      esi := Add(esi, scan.cfg.SrcDir());
      edi := Add(edi, scan.cfg.Dir());
      ecx := ecx - 1;
      last := pair;
      status := if scan.Stops(pair.value) then Finished else Yielded;
    }

    /** The instruction, executed again after every slice, ends exactly as the
        unsliced one. */
    method ExecuteAll() returns (fault: Option<Fault>)
      requires scan.Valid()
      modifies this
      ensures ScanAll(scan, old(Abs())) == ScanOutcome(Abs(), fault)
    {
      var status;
      status, fault := Execute();
      while status.Yielded?
        invariant status.Yielded? ==> ScanAll(scan, Abs()) == ScanAll(scan, old(Abs()))
        invariant !status.Yielded? ==> ScanAll(scan, old(Abs())) == ScanOutcome(Abs(), fault)
        decreases ecx, if status.Yielded? then 1 else 0
      {
        status, fault := Execute();
      }
    }
  }
}
