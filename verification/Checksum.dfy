/** The boot loader's checksum loop: the native replacement against the twelve
    guest instructions it stands for. */
module Checksum {
  import opened LazyFlags

  type Byte = b: nat | b < 256

  // --------------------------------------------------------------- the guest

  /** The instructions of the loop, operands fixed as in the recognised code. */
  datatype Instruction =
    | MovzxEdxSource
    | AddAccEdx
    | IncEax
    | MovEdxAcc
    | MovEsiAcc
    | AndEdxFfff
    | ShrEsi16
    | AddEdxEsi
    | DecEcx
    | MovAccEdx
    | JnzStart

  const LOOP: seq<Instruction> :=
    [MovzxEdxSource, AddAccEdx, IncEax, MovEdxAcc, MovEsiAcc, AndEdxFfff,
     IncEax, ShrEsi16, AddEdxEsi, DecEcx, MovAccEdx, JnzStart]

  function Encode(i: Instruction): seq<Byte> {
    match i
    case MovzxEdxSource => [0x0f, 0xb7, 0x10]
    case AddAccEdx => [0x01, 0x55, 0x08]
    case IncEax => [0x40]
    case MovEdxAcc => [0x8b, 0x55, 0x08]
    case MovEsiAcc => [0x8b, 0x75, 0x08]
    case AndEdxFfff => [0x81, 0xe2, 0xff, 0xff, 0x00, 0x00]
    case ShrEsi16 => [0xc1, 0xee, 0x10]
    case AddEdxEsi => [0x03, 0xd6]
    case DecEcx => [0x49]
    case MovAccEdx => [0x89, 0x55, 0x08]
    case JnzStart => [0x75, 0xe1]
  }

  const SIGNATURE: seq<Byte> := [
    0x0f, 0xb7, 0x10, 0x01, 0x55, 0x08, 0x40, 0x8b,
    0x55, 0x08, 0x8b, 0x75, 0x08, 0x81, 0xe2, 0xff,
    0xff, 0x00, 0x00, 0x40, 0xc1, 0xee, 0x10, 0x03,
    0xd6, 0x49, 0x89, 0x55, 0x08, 0x75, 0xe1]

  function EncodeAll(code: seq<Instruction>): seq<Byte> {
    if code == [] then [] else Encode(code[0]) + EncodeAll(code[1..])
  }

  /** Registers, flags, memory, the index of the next instruction (12 past the
      loop) and the cycle counter. */
  datatype Guest = Guest(eax: Word, ecx: Word, edx: Word, esi: Word, flags: Eager, mem: seq<Byte>, pc: nat, cycle: nat)

  /** What stays fixed: the linear address of the accumulator and of DS:0. */
  datatype Frame = Frame(acc: nat, ds: nat)

  // Reading outside memory gives 0, and writing there does nothing.

  function Load16(mem: seq<Byte>, at: nat): Word {
    if at + 2 > |mem| then 0
    else
      var b0: int, b1: int := mem[at], mem[at + 1];
      b0 + 256 * b1
  }

  function Load32(mem: seq<Byte>, at: nat): Word {
    if at + 4 > |mem| then 0
    else
      var b0: int, b1: int, b2: int, b3: int := mem[at], mem[at + 1], mem[at + 2], mem[at + 3];
      b0 + 256 * b1 + 0x1_0000 * b2 + 0x100_0000 * b3
  }

  function Store32(mem: seq<Byte>, at: nat, v: Word): (r: seq<Byte>)
    ensures |r| == |mem|
    ensures forall i :: 0 <= i < |mem| && !(at <= i < at + 4) ==> r[i] == mem[i]
  {
    if at + 4 > |mem| then mem
    else mem[at := v % 256][at + 1 := v / 256 % 256][at + 2 := v / 0x1_0000 % 256][at + 3 := v / 0x100_0000]
  }

  lemma LoadStored(mem: seq<Byte>, at: nat, v: Word)
    requires at + 4 <= |mem|
    ensures Load32(Store32(mem, at, v), at) == v
  {
    var q1, q2 := v / 256, v / 0x1_0000;
    assert q2 == q1 / 256 && v / 0x100_0000 == q2 / 256;
  }

  lemma StoreStored(mem: seq<Byte>, at: nat, v: Word, v': Word)
    ensures Store32(Store32(mem, at, v), at, v') == Store32(mem, at, v')
  {
  }

  /** SHR by 16, with the flags the interpreter gives it. */
  function ShrFlags(x: Word): Eager {
    var r := x / 0x1_0000;
    Eager(x / 0x8000 % 2 == 1, EvenParity((r % 256) as bv8), Undefined, r == 0, false, Top(x))
  }

  function Step(f: Frame, g: Guest): (g': Guest)
    requires g.pc < 12
    ensures |g'.mem| == |g.mem|
  {
    var n := g.(pc := g.pc + 1, cycle := g.cycle + 1);
    match LOOP[g.pc]
    case MovzxEdxSource => n.(edx := Load16(g.mem, f.ds + g.eax))
    case AddAccEdx =>
      var (e, r) := Execute(g.flags, Add(W32, Load32(g.mem, f.acc), g.edx));
      n.(mem := Store32(g.mem, f.acc, r), flags := e)
    case IncEax => var (e, r) := Execute(g.flags, Inc(W32, g.eax)); n.(eax := r, flags := e)
    case MovEdxAcc => n.(edx := Load32(g.mem, f.acc))
    case MovEsiAcc => n.(esi := Load32(g.mem, f.acc))
    case AndEdxFfff =>
      var r := g.edx % 0x1_0000;
      n.(edx := r, flags := Flags(W32, r, false, Undefined, false))
    case ShrEsi16 => n.(esi := g.esi / 0x1_0000, flags := ShrFlags(g.esi))
    case AddEdxEsi => var (e, r) := Execute(g.flags, Add(W32, g.edx, g.esi)); n.(edx := r, flags := e)
    case DecEcx => var (e, r) := Execute(g.flags, Dec(W32, g.ecx)); n.(ecx := r, flags := e)
    case MovAccEdx => n.(mem := Store32(g.mem, f.acc, g.edx))
    case JnzStart => if g.flags.zf then n else n.(pc := 0)
  }

  datatype Option<T> = None | Some(value: T)

  /** `n` steps of a machine, or None if it cannot make that many. */
  function Iterate<T>(step: T -> Option<T>, x: T, n: nat): Option<T>
    decreases n
  {
    if n == 0 then Some(x)
    else
      var next := step(x);
      if next.None? then None else Iterate(step, next.value, n - 1)
  }

  lemma {:induction false} IterateTwice<T>(step: T -> Option<T>, x: T, m: nat, y: T, n: nat, total: nat)
    requires Iterate(step, x, m) == Some(y) && total == m + n
    ensures Iterate(step, x, total) == Iterate(step, y, n)
    decreases m
  {
    if m > 0 {
      IterateTwice(step, step(x).value, m - 1, y, n, total - 1);
    }
  }

  /** The guest, one instruction at a time, while it is in the loop. */
  function Machine(f: Frame): Guest -> Option<Guest> {
    (g: Guest) => if g.pc < 12 then Some(Step(f, g)) else None
  }

  /** The guest after `n` instructions. */
  ghost predicate Reaches(f: Frame, g: Guest, n: nat, g': Guest) {
    Iterate(Machine(f), g, n) == Some(g')
  }

  lemma ReachesStep(f: Frame, g: Guest, g1: Guest, n: nat, g': Guest)
    requires g.pc < 12 && g1 == Step(f, g) && Reaches(f, g1, n, g')
    ensures Reaches(f, g, n + 1, g')
  {
    assert Machine(f)(g) == Some(g1);
  }

  lemma ReachesNow(f: Frame, g: Guest, n: nat)
    requires n == 0
    ensures Reaches(f, g, n, g)
  {
  }

  lemma ReachesOn(f: Frame, g: Guest, m: nat, h: Guest, n: nat, g': Guest, total: nat)
    requires Reaches(f, g, m, h) && Reaches(f, h, n, g') && total == m + n
    ensures Reaches(f, g, total, g')
  {
    IterateTwice(Machine(f), g, m, h, n, total);
  }

  // -------------------------------------------------------------- the replacement

  /** The accumulator and the high half last folded into it. */
  datatype Partial = Partial(acc: Word, high: Word)

  /** Adding one word: the wrapped sum's low half plus its high half. */
  function Fold(acc: Word, w: Word): Partial
    requires w < 0x1_0000
  {
    var sum := Plus(acc, w);
    Partial(sum % 0x1_0000 + sum / 0x1_0000, sum / 0x1_0000)
  }

  function Plus(x: Word, y: Word): Word {
    if x + y >= WORD then x + y - WORD else x + y
  }

  /** Accumulator and last high half after `n` words. */
  function Sum(mem: seq<Byte>, src: nat, n: nat, acc: Word, high: Word): Partial
    decreases n
  {
    if n == 0 then Partial(acc, high)
    else
      var p := Fold(acc, Load16(mem, src));
      Sum(mem, src + 2, n - 1, p.acc, p.high)
  }

  lemma SumStep(mem: seq<Byte>, src: nat, n: nat, acc: Word, high: Word)
    requires n > 0
    ensures
      var p := Fold(acc, Load16(mem, src));
      Sum(mem, src, n, acc, high) == Sum(mem, src + 2, n - 1, p.acc, p.high)
  {
  }

  /** There is a word to sum, and EAX does not wrap on the way. */
  predicate NoWrap(g: Guest) {
    g.ecx > 0 && g.eax + 2 * g.ecx <= WORD
  }

  /** The accumulator is in memory, and no word read after it was first stored
      overlaps it. */
  predicate Harmless(f: Frame, eax: nat, ecx: nat, ram: nat) {
    && f.acc + 4 <= ram
    && (ecx == 1 || f.acc + 4 <= f.ds + eax + 2 || f.ds + eax + 2 * ecx <= f.acc)
  }

  /** A loop in which the replacement is right. */
  predicate Apart(f: Frame, g: Guest) {
    NoWrap(g) && Harmless(f, g.eax, g.ecx, |g.mem|)
  }

  const EXIT_FLAGS := Eager(false, true, Known(false), true, false, false)

  /** The state the replacement leaves, as it writes it down. */
  function Native(f: Frame, g: Guest): Guest
    requires NoWrap(g)
  {
    var sum := Sum(g.mem, f.ds + g.eax, g.ecx, Load32(g.mem, f.acc), 0);
    var end := g.eax + 2 * g.ecx;
    Guest(if end == WORD then 0 else end, 0, sum.acc, sum.high, EXIT_FLAGS,
          Store32(g.mem, f.acc, sum.acc), 12, g.cycle + 12 * g.ecx)
  }

  // ------------------------------------------------------------- one iteration

  /** Counting down from one leaves ZF and PF set and the rest clear. */
  lemma FlagsAtExit(e: Eager, low: Word, high: Word)
    requires low + high < WORD
    ensures Execute(AddFlags(W32, low, high, 0).0, Dec(W32, 1)).0 == EXIT_FLAGS
  {
    assert EvenParity(0);
  }

  /** A pass begins by adding the word to the accumulator in memory, */
  lemma AddWord(f: Frame, g: Guest, n: nat) returns (h: Guest)
    requires n == 2
    requires g.pc == 0
    ensures Reaches(f, g, n, h)
    ensures
      var w := Load16(g.mem, f.ds + g.eax);
      h == Guest(g.eax, g.ecx, w, g.esi, h.flags, Store32(g.mem, f.acc, Plus(Load32(g.mem, f.acc), w)), 2, g.cycle + 2)
  {
    var g1 := Step(f, g);
    h := Step(f, g1);
    ReachesNow(f, h, n - 2);
    ReachesStep(f, g1, h, n - 2, h);
    ReachesStep(f, g, g1, n - 1, h);
  }

  /** then loads the sum into EDX and ESI. */
  lemma LoadSum(f: Frame, g: Guest, n: nat) returns (h: Guest)
    requires n == 3
    requires g.pc == 2
    ensures Reaches(f, g, n, h)
    ensures
      var sum := Load32(g.mem, f.acc);
      h == g.(eax := Plus(g.eax, 1), edx := sum, esi := sum, flags := h.flags, pc := 5, cycle := g.cycle + 3)
  {
    var g1 := Step(f, g);
    var g2 := Step(f, g1);
    h := Step(f, g2);
    ReachesNow(f, h, n - 3);
    ReachesStep(f, g2, h, n - 3, h);
    ReachesStep(f, g1, g2, n - 2, h);
    ReachesStep(f, g, g1, n - 1, h);
  }

  lemma FirstHalf(f: Frame, g: Guest, n: nat) returns (h: Guest)
    requires n == 5
    requires g.pc == 0
    ensures Reaches(f, g, n, h)
    ensures
      var sum := Plus(Load32(g.mem, f.acc), Load16(g.mem, f.ds + g.eax));
      && h == Guest(Plus(g.eax, 1), g.ecx, h.edx, h.edx, h.flags, Store32(g.mem, f.acc, sum), 5, g.cycle + 5)
      && h.edx == if f.acc + 4 <= |g.mem| then sum else 0
  {
    var two, three := n - 3, n - 2;
    var g1 := AddWord(f, g, two);
    h := LoadSum(f, g1, three);
    if f.acc + 4 <= |g.mem| {
      LoadStored(g.mem, f.acc, Plus(Load32(g.mem, f.acc), g1.edx));
    }
    ReachesOn(f, g, two, g1, three, h, n);
  }

  /** Then it is split into halves, */
  lemma Split(f: Frame, h: Guest, n: nat) returns (g': Guest)
    requires n == 3
    requires h.pc == 5
    ensures Reaches(f, h, n, g')
    ensures g'.edx == h.edx % 0x1_0000 && g'.esi == h.esi / 0x1_0000
    ensures g' == Guest(Plus(h.eax, 1), h.ecx, g'.edx, g'.esi, g'.flags, h.mem, 8, h.cycle + 3)
  {
    var h1 := Step(f, h);
    var h2 := Step(f, h1);
    g' := Step(f, h2);
    ReachesNow(f, g', n - 3);
    ReachesStep(f, h2, g', n - 3, g');
    ReachesStep(f, h1, h2, n - 2, g');
    ReachesStep(f, h, h1, n - 1, g');
  }

  /** added up and the count decremented, */
  lemma AddUp(f: Frame, h: Guest, n: nat) returns (g': Guest)
    requires n == 2
    requires h.pc == 8 && h.edx + h.esi < WORD && h.ecx > 0
    ensures Reaches(f, h, n, g')
    ensures g' == h.(edx := h.edx + h.esi, ecx := h.ecx - 1, pc := 10, cycle := h.cycle + 2, flags := g'.flags)
    ensures g'.flags.zf <==> h.ecx == 1
    ensures h.ecx == 1 ==> g'.flags == EXIT_FLAGS
  {
    var h1 := Step(f, h);
    g' := Step(f, h1);
    ReachesNow(f, g', n - 2);
    ReachesStep(f, h1, g', n - 2, g');
    ReachesStep(f, h, h1, n - 1, g');
    if h.ecx == 1 {
      FlagsAtExit(h.flags, h.edx, h.esi);
    }
  }

  /** and stored; the branch closes the loop. */
  lemma StoreAndBranch(f: Frame, h: Guest, n: nat) returns (g': Guest)
    requires n == 2
    requires h.pc == 10
    ensures Reaches(f, h, n, g')
    ensures g' == h.(mem := Store32(h.mem, f.acc, h.edx), pc := if h.flags.zf then 12 else 0, cycle := h.cycle + 2)
  {
    var h1 := Step(f, h);
    g' := Step(f, h1);
    ReachesNow(f, g', n - 2);
    ReachesStep(f, h1, g', n - 2, g');
    ReachesStep(f, h, h1, n - 1, g');
  }

  lemma CloseLoop(f: Frame, h: Guest, n: nat) returns (g': Guest)
    requires n == 4
    requires h.pc == 8 && h.edx + h.esi < WORD && h.ecx > 0
    ensures Reaches(f, h, n, g')
    ensures g' == Guest(h.eax, h.ecx - 1, h.edx + h.esi, h.esi, g'.flags,
                        Store32(h.mem, f.acc, h.edx + h.esi), if h.ecx == 1 then 12 else 0, h.cycle + 4)
    ensures h.ecx == 1 ==> g'.flags == EXIT_FLAGS
  {
    hide Step, Reaches;
    var two := n - 2;
    var h1 := AddUp(f, h, two);
    g' := StoreAndBranch(f, h1, two);
    ReachesOn(f, h, two, h1, two, g', n);
  }

  lemma SecondHalf(f: Frame, h: Guest, n: nat) returns (g': Guest)
    requires n == 7
    requires h.pc == 5 && h.edx == h.esi && h.ecx > 0
    ensures Reaches(f, h, n, g')
    ensures g'.esi == h.edx / 0x1_0000 && g'.edx == h.edx % 0x1_0000 + g'.esi
    ensures g' == Guest(Plus(h.eax, 1), h.ecx - 1, g'.edx, g'.esi, g'.flags,
                        Store32(h.mem, f.acc, g'.edx), if h.ecx == 1 then 12 else 0, h.cycle + 7)
    ensures h.ecx == 1 ==> g'.flags == EXIT_FLAGS
  {
    var three, four := n - 4, n - 3;
    var h1 := Split(f, h, three);
    Halves(h.edx, h1.edx, h1.esi);
    g' := CloseLoop(f, h1, four);
    HalvesJoin(f, h, h1, g');
    ReachesOn(f, h, three, h1, four, g', n);
  }

  lemma Halves(x: Word, low: Word, high: Word)
    requires low == x % 0x1_0000 && high == x / 0x1_0000
    ensures low + high < WORD
  {
  }

  lemma HalvesJoin(f: Frame, h: Guest, h1: Guest, g': Guest)
    requires h.ecx > 0
    requires h1.edx == h.edx % 0x1_0000 && h1.esi == h.edx / 0x1_0000 && h1.edx + h1.esi < WORD
    requires h1 == Guest(Plus(h.eax, 1), h.ecx, h1.edx, h1.esi, h1.flags, h.mem, 8, h.cycle + 3)
    requires g' == Guest(h1.eax, h1.ecx - 1, h1.edx + h1.esi, h1.esi, g'.flags,
                         Store32(h1.mem, f.acc, h1.edx + h1.esi), if h1.ecx == 1 then 12 else 0, h1.cycle + 4)
    ensures g'.esi == h.edx / 0x1_0000 && g'.edx == h.edx % 0x1_0000 + g'.esi
    ensures g' == Guest(Plus(h.eax, 1), h.ecx - 1, g'.edx, g'.esi, g'.flags,
                        Store32(h.mem, f.acc, g'.edx), if h.ecx == 1 then 12 else 0, h.cycle + 7)
  {
  }

  /** What a pass makes of the accumulator in memory; where there is none, it
      reads back 0. */
  function Pass(mem: seq<Byte>, acc: nat, w: Word): Partial
    requires w < 0x1_0000
  {
    if acc + 4 <= |mem| then Fold(Load32(mem, acc), w) else Partial(0, 0)
  }

  /** The state after one pass through the loop, in the terms of the replacement. */
  lemma OnePass(f: Frame, g: Guest, n: nat) returns (p: Guest)
    requires g.ecx > 0 && g.pc == 0 && n == 12
    ensures Reaches(f, g, n, p)
    ensures Partial(p.edx, p.esi) == Pass(g.mem, f.acc, Load16(g.mem, f.ds + g.eax))
    ensures p == Guest(Plus(Plus(g.eax, 1), 1), g.ecx - 1, p.edx, p.esi, p.flags,
                       Store32(g.mem, f.acc, p.edx), if g.ecx == 1 then 12 else 0, g.cycle + 12)
    ensures g.ecx == 1 ==> p.flags == EXIT_FLAGS
  {
    hide Step, Reaches;
    var five, seven := n - 7, n - 5;
    var h := FirstHalf(f, g, five);
    p := SecondHalf(f, h, seven);
    ReachesOn(f, g, five, h, seven, p, n);
    StoreStored(g.mem, f.acc, Plus(Load32(g.mem, f.acc), Load16(g.mem, f.ds + g.eax)), p.edx);
  }

  /** The next pass reads the same source words. */
  lemma SumSeesOnlySource(mem: seq<Byte>, mem': seq<Byte>, src: nat, n: nat, acc: Word, high: Word)
    requires |mem| == |mem'|
    requires forall i :: src <= i < src + 2 * n && i < |mem| ==> mem'[i] == mem[i]
    ensures Sum(mem', src, n, acc, high) == Sum(mem, src, n, acc, high)
    decreases n
  {
    if n > 0 {
      var p := Fold(acc, Load16(mem, src));
      assert src + 2 <= |mem| ==> mem'[src] == mem[src] && mem'[src + 1] == mem[src + 1];
      SumStep(mem, src, n, acc, high);
      SumStep(mem', src, n, acc, high);
      SumSeesOnlySource(mem, mem', src + 2, n - 1, p.acc, p.high);
    }
  }

  /** The last high half replaces whatever was there. */
  lemma SumForgetsHigh(mem: seq<Byte>, src: nat, n: nat, acc: Word, high: Word, high': Word)
    requires n > 0
    ensures Sum(mem, src, n, acc, high) == Sum(mem, src, n, acc, high')
  {
  }

  /** What is left after a pass is as far apart as it was. */
  lemma RestIsApart(f: Frame, g: Guest, p: Guest)
    requires Apart(f, g) && g.ecx > 1
    requires p.eax == Plus(Plus(g.eax, 1), 1) && p.ecx == g.ecx - 1 && |p.mem| == |g.mem|
    ensures Apart(f, p) && p.eax == g.eax + 2
  {
  }

  /** The rest of the sum, read from the memory a pass leaves, is the whole sum. */
  lemma SumOfRest(mem: seq<Byte>, mem': seq<Byte>, acc: nat, src: nat, n: nat, v: Word)
    requires n > 1 && acc + 4 <= |mem| && (acc + 4 <= src + 2 || src + 2 * n <= acc)
    requires v == Fold(Load32(mem, acc), Load16(mem, src)).acc
    requires mem' == Store32(mem, acc, v)
    ensures Sum(mem', src + 2, n - 1, Load32(mem', acc), 0) == Sum(mem, src, n, Load32(mem, acc), 0)
  {
    var high := Fold(Load32(mem, acc), Load16(mem, src)).high;
    LoadStored(mem, acc, v);
    SumSeesOnlySource(mem, mem', src + 2, n - 1, v, 0);
    SumForgetsHigh(mem, src + 2, n - 1, v, high, 0);
  }

  /** Only where a loop reads, sums and stores decides where it ends. */
  lemma SameEnd(f: Frame, g: Guest, p: Guest, end: Guest)
    requires Apart(f, g) && Apart(f, p)
    requires p.eax + 2 * p.ecx == g.eax + 2 * g.ecx && p.cycle + 12 * p.ecx == g.cycle + 12 * g.ecx
    requires Sum(p.mem, f.ds + p.eax, p.ecx, Load32(p.mem, f.acc), 0) == Sum(g.mem, f.ds + g.eax, g.ecx, Load32(g.mem, f.acc), 0)
    requires end == Native(f, p)
    requires Store32(p.mem, f.acc, end.edx) == Store32(g.mem, f.acc, end.edx)
    ensures end == Native(f, g)
  {
    hide Sum, Store32, Load32, Load16, Fold;
  }

  lemma NativeOfRest(f: Frame, g: Guest, p: Guest)
    requires Apart(f, g) && g.ecx > 1
    requires p.eax == Plus(Plus(g.eax, 1), 1) && p.ecx == g.ecx - 1 && p.cycle == g.cycle + 12
    requires p.edx == Fold(Load32(g.mem, f.acc), Load16(g.mem, f.ds + g.eax)).acc
    requires p.mem == Store32(g.mem, f.acc, p.edx)
    ensures Apart(f, p) && Native(f, p) == Native(f, g)
  {
    RestIsApart(f, g, p);
    SumOfRest(g.mem, p.mem, f.acc, f.ds + g.eax, g.ecx, p.edx);
    var end := Native(f, p);
    StoreStored(g.mem, f.acc, p.edx, end.edx);
    SameEnd(f, g, p, end);
  }

  /** A pass that is not the last leads to a shorter loop with the same end. */
  lemma PassLeavesRest(f: Frame, g: Guest, n: nat) returns (p: Guest)
    requires Apart(f, g) && g.pc == 0 && g.ecx > 1 && n == 12
    ensures Reaches(f, g, n, p)
    ensures p.pc == 0 && p.ecx == g.ecx - 1
    ensures Apart(f, p) && Native(f, p) == Native(f, g)
  {
    p := OnePass(f, g, n);
    NativeOfRest(f, g, p);
  }

  /** The last pass leads to the end. */
  lemma PassEnds(f: Frame, g: Guest, n: nat) returns (p: Guest)
    requires Apart(f, g) && g.pc == 0 && g.ecx == 1 && n == 12
    ensures Reaches(f, g, n, p)
    ensures p == Native(f, g)
  {
    p := OnePass(f, g, n);
    SumOfOne(g.mem, f.ds + g.eax, g.ecx, Load32(g.mem, f.acc));
    LastPass(f, g, p);
  }

  lemma SumOfOne(mem: seq<Byte>, src: nat, n: nat, acc: Word)
    requires n == 1
    ensures Sum(mem, src, n, acc, 0) == Fold(acc, Load16(mem, src))
  {
    SumStep(mem, src, n, acc, 0);
  }

  lemma LastPass(f: Frame, g: Guest, p: Guest)
    requires Apart(f, g) && g.ecx == 1
    requires Partial(p.edx, p.esi) == Sum(g.mem, f.ds + g.eax, g.ecx, Load32(g.mem, f.acc), 0)
    requires p == Guest(Plus(Plus(g.eax, 1), 1), 0, p.edx, p.esi, EXIT_FLAGS, Store32(g.mem, f.acc, p.edx), 12, g.cycle + 12)
    ensures p == Native(f, g)
  {
  }

  /** The replacement leaves every register, the six flags, memory, the exit
      address and the cycle count exactly as executing the guest's instructions
      until they leave the loop. */
  lemma {:induction false} NativeIsGuest(f: Frame, g: Guest, total: nat, end: Guest)
    requires Apart(f, g) && g.pc == 0
    requires end == Native(f, g) && total == 12 * g.ecx
    ensures Reaches(f, g, total, end)
    decreases g.ecx
  {
    hide Native, Sum, Step;
    var n: nat := 12;
    if g.ecx == 1 {
      var p := PassEnds(f, g, n);
    } else {
      var p := PassLeavesRest(f, g, n);
      var rest: nat := total - n;
      NativeIsGuest(f, p, rest, end);
      ReachesOn(f, g, n, p, rest, end, total);
    }
  }

  // ------------------------------------------------------------ where they differ

  /** EDX after the guest's passes, which store and reread the accumulator. */
  function GuestSum(acc: nat, mem: seq<Byte>, src: nat, n: nat, edx: Word): Word
    decreases n
  {
    if n == 0 then edx
    else
      var v := Pass(mem, acc, Load16(mem, src)).acc;
      GuestSum(acc, Store32(mem, acc, v), src + 2, n - 1, v)
  }

  lemma {:induction false} GuestEnds(f: Frame, g: Guest, total: nat) returns (end: Guest)
    requires NoWrap(g) && g.pc == 0 && total == 12 * g.ecx
    ensures Reaches(f, g, total, end)
    ensures end.pc == 12 && end.edx == GuestSum(f.acc, g.mem, f.ds + g.eax, g.ecx, g.edx)
    decreases g.ecx
  {
    hide Step, Pass, Store32, Load16;
    var n: nat := 12;
    var p := OnePass(f, g, n);
    if g.ecx == 1 {
      end := p;
      assert GuestSum(f.acc, p.mem, f.ds + g.eax + 2, g.ecx - 1, p.edx) == p.edx;
    } else {
      var rest: nat := total - n;
      end := GuestEnds(f, p, rest);
      ReachesOn(f, g, n, p, rest, end, total);
    }
  }

  /** Executing the guest's instructions ends where the replacement does. */
  ghost predicate RightFor(f: Frame, g: Guest) {
    NoWrap(g) && Reaches(f, g, 12 * g.ecx, Native(f, g))
  }

  /** It does so whatever is in memory, in the other registers and the flags. */
  ghost predicate AlwaysRight(f: Frame, eax: Word, ecx: Word, ram: nat) {
    forall g: Guest :: g.pc == 0 && g.eax == eax && g.ecx == ecx && |g.mem| == ram ==> RightFor(f, g)
  }

  /** A placement in which nothing wraps, the first word is in memory, and neither
      a word nor the accumulator lies across the end of memory. */
  predicate Whole(f: Frame, eax: Word, ecx: Word, ram: nat) {
    var s := f.ds + eax;
    && ecx > 0 && eax + 2 * ecx <= WORD
    && s + 2 <= ram && (s + 2 * ecx <= ram || (ram - s) % 2 == 0)
    && (f.acc + 4 <= ram || ram <= f.acc)
  }

  /** The replacement is right, whatever is in memory, exactly for the harmless
      placements. */
  lemma RightIffHarmless(f: Frame, eax: Word, ecx: Word, ram: nat)
    requires Whole(f, eax, ecx, ram)
    ensures AlwaysRight(f, eax, ecx, ram) <==> Harmless(f, eax, ecx, ram)
  {
    hide Native, Reaches, Harmless;
    if Harmless(f, eax, ecx, ram) {
      forall g: Guest | g.pc == 0 && g.eax == eax && g.ecx == ecx && |g.mem| == ram
        ensures RightFor(f, g)
      {
        NativeIsGuest(f, g, 12 * g.ecx, Native(f, g));
      }
    } else {
      var g := Counterexample(f, eax, ecx, ram);
    }
  }

  /** A memory of zeros but for one byte. */
  function OneBit(ram: nat, at: nat): (mem: seq<Byte>) {
    seq(ram, i => if i == at then 1 else 0)
  }

  /** The byte that gives the difference away. */
  function Telltale(acc: nat, s: nat, ram: nat): nat {
    if acc + 4 > ram || acc >= s + 2 then s
    else if acc == s + 1 then acc
    else if acc == s then acc + 2
    else acc + 3
  }

  lemma Counterexample(f: Frame, eax: Word, ecx: Word, ram: nat) returns (g: Guest)
    requires Whole(f, eax, ecx, ram) && !Harmless(f, eax, ecx, ram)
    ensures g.pc == 0 && g.eax == eax && g.ecx == ecx && |g.mem| == ram && !RightFor(f, g)
  {
    hide Step, Reaches;
    g := Guest(eax, ecx, 0, 0, EXIT_FLAGS, OneBit(ram, Telltale(f.acc, f.ds + eax, ram)), 0, 0);
    var end := GuestEnds(f, g, 12 * ecx);
    SumsDiffer(f.acc, g.mem, f.ds + eax, ecx);
    OneEnd(f, g, 12 * ecx, end, Native(f, g));
  }

  lemma OneEnd(f: Frame, g: Guest, n: nat, end: Guest, end': Guest)
    requires Reaches(f, g, n, end)
    ensures Reaches(f, g, n, end') <==> end == end'
  {
  }

  /** All words of a range that is in memory are 0. */
  predicate Silent(mem: seq<Byte>, src: nat, n: nat) {
    forall i :: src <= i < src + 2 * n && i < |mem| ==> mem[i] == 0
  }

  /** The accumulator in memory holds `v`. */
  predicate Holds(mem: seq<Byte>, at: nat, v: nat) {
    at + 4 <= |mem| && v < 0x1_0000 && mem[at] == v % 256 && mem[at + 1] == v / 256 && mem[at + 2] == 0 && mem[at + 3] == 0
  }

  lemma HeldIsLoaded(mem: seq<Byte>, at: nat, v: nat)
    requires Holds(mem, at, v)
    ensures Load32(mem, at) == v && Store32(mem, at, v) == mem
  {
  }

  lemma StoredIsHeld(mem: seq<Byte>, at: nat, v: nat)
    requires at + 4 <= |mem| && v < 0x1_0000
    ensures Holds(Store32(mem, at, v), at, v)
  {
  }

  lemma SilentWord(mem: seq<Byte>, src: nat, n: nat)
    requires Silent(mem, src, n) && n > 0
    ensures Load16(mem, src) == 0 && Silent(mem, src + 2, n - 1)
  {
  }

  lemma FoldSmall(a: nat, w: nat)
    requires a + w < 0x1_0000
    ensures Fold(a, w) == Partial(a + w, 0)
  {
  }

  lemma {:induction false} SumSilent(mem: seq<Byte>, src: nat, n: nat, acc: nat, high: Word)
    requires acc < 0x1_0000 && Silent(mem, src, n)
    ensures Sum(mem, src, n, acc, high).acc == acc
    decreases n
  {
    hide Silent, Load16, Fold;
    if n > 0 {
      SilentWord(mem, src, n);
      FoldSmall(acc, 0);
      SumSilent(mem, src + 2, n - 1, acc, 0);
    }
  }

  /** Words that are 0 leave the guest's accumulator alone. */
  lemma {:induction false} GuestSilent(acc: nat, mem: seq<Byte>, src: nat, m: nat, n: nat, v: nat)
    requires Holds(mem, acc, v) && m <= n && Silent(mem, src, m)
    ensures GuestSum(acc, mem, src, n, v) == GuestSum(acc, mem, src + 2 * m, n - m, v)
    decreases m
  {
    hide Silent, Load16, Load32, Store32, Fold;
    if m > 0 {
      SilentWord(mem, src, m);
      HeldIsLoaded(mem, acc, v);
      FoldSmall(v, 0);
      GuestSilent(acc, mem, src + 2, m - 1, n - 1, v);
    }
  }

  /** A pass over the word `w`, with `a` in the accumulator. */
  lemma GuestPass(acc: nat, mem: seq<Byte>, src: nat, n: nat, edx: Word, a: Word, w: nat, v: nat) returns (next: seq<Byte>)
    requires n > 0 && acc + 4 <= |mem| && w < 0x1_0000
    requires Load16(mem, src) == w && Load32(mem, acc) == a && Fold(a, w).acc == v < 0x1_0000
    ensures next == Store32(mem, acc, v) && Holds(next, acc, v)
    ensures GuestSum(acc, mem, src, n, edx) == GuestSum(acc, next, src + 2, n - 1, v)
  {
    hide Load16, Load32, Store32, Fold;
    next := Store32(mem, acc, v);
    StoredIsHeld(mem, acc, v);
  }

  lemma SumsDiffer(acc: nat, mem: seq<Byte>, s: nat, n: nat)
    requires n > 0 && s + 2 <= |mem| && (s + 2 * n <= |mem| || (|mem| - s) % 2 == 0)
    requires acc + 4 <= |mem| || |mem| <= acc
    requires acc + 4 <= |mem| ==> n > 1 && s + 2 < acc + 4 && acc < s + 2 * n
    requires mem == OneBit(|mem|, Telltale(acc, s, |mem|))
    ensures Sum(mem, s, n, Load32(mem, acc), 0).acc != GuestSum(acc, mem, s, n, 0)
  {
    if acc + 4 > |mem| {
      NoAccumulator(acc, mem, s, n);
    } else if acc >= s + 2 {
      LaterOverlap(acc, mem, s, n);
    } else if acc == s + 1 {
      OverlapAt1(acc, mem, s, n);
    } else if acc == s {
      OverlapAt0(acc, mem, s, n);
    } else {
      OverlapBefore(acc, mem, s, n);
    }
  }

  lemma FirstWord(acc: nat, mem: seq<Byte>, s: nat, n: nat)
    requires n > 0 && s + 2 <= |mem| && s + 2 <= acc && mem == OneBit(|mem|, s)
    ensures Load16(mem, s) == 1 && Load32(mem, acc) == 0 && Silent(mem, s + 2, n - 1)
  {
  }

  /** Without an accumulator in memory the guest comes to 0. */
  lemma NoAccumulator(acc: nat, mem: seq<Byte>, s: nat, n: nat)
    requires n > 0 && s + 2 <= |mem| <= acc && mem == OneBit(|mem|, s)
    ensures Load32(mem, acc) == 0 && Sum(mem, s, n, 0, 0).acc == 1 && GuestSum(acc, mem, s, n, 0) == 0
  {
    hide OneBit, Load16, Load32, Silent, GuestSum, Fold;
    FirstWord(acc, mem, s, n);
    SumStep(mem, s, n, 0, 0);
    FoldSmall(0, 1);
    SumSilent(mem, s + 2, n - 1, 1, 0);
    GuestNothing(acc, mem, s, n);
  }

  lemma {:induction false} GuestNothing(acc: nat, mem: seq<Byte>, s: nat, n: nat)
    requires acc + 4 > |mem|
    ensures GuestSum(acc, mem, s, n, 0) == 0
    decreases n
  {
    if n > 0 {
      GuestNothing(acc, mem, s + 2, n - 1);
    }
  }

  /** The first word is 1, and the guest meets it again where it has stored it. */
  lemma LaterOverlap(acc: nat, mem: seq<Byte>, s: nat, n: nat)
    requires n > 1 && acc + 4 <= |mem| && s + 2 <= acc < s + 2 * n && mem == OneBit(|mem|, s)
    ensures Sum(mem, s, n, Load32(mem, acc), 0).acc == 1 != GuestSum(acc, mem, s, n, 0)
  {
    hide OneBit, Load16, Load32, Silent, GuestSum, Store32, Holds, Fold;
    FirstWord(acc, mem, s, n);
    SumStep(mem, s, n, 0, 0);
    FoldSmall(0, 1);
    SumSilent(mem, s + 2, n - 1, 1, 0);
    var next := GuestPass(acc, mem, s, n, 0, 0, 1, 1);
    var m := (acc - s - 2) / 2;
    StoredApart(acc, mem, next, s, n - 1 - m, m);
    GuestSilent(acc, next, s + 2, m, n - 1, 1);
    if acc == s + 2 + 2 * m {
      MeetsLow(acc, next, n - 1 - m);
    } else {
      MeetsHigh(acc, next, n - 1 - m);
    }
  }

  /** Up to the accumulator and behind it, memory is as it was. */
  lemma StoredApart(acc: nat, mem: seq<Byte>, next: seq<Byte>, s: nat, n: nat, m: nat)
    requires acc + 4 <= |mem| && s + 2 <= acc && mem == OneBit(|mem|, s) && next == Store32(mem, acc, 1) && m == (acc - s - 2) / 2
    ensures Silent(next, s + 2, m) && Silent(next, acc + 4, n) && (acc > s + 2 ==> next[acc - 1] == 0)
  {
    hide Store32;
  }

  /** The word that it meets is the accumulator's low half, */
  lemma MeetsLow(acc: nat, mem: seq<Byte>, n: nat)
    requires n > 0 && Holds(mem, acc, 1) && Silent(mem, acc + 4, n)
    ensures GuestSum(acc, mem, acc, n, 1) == 2
  {
    hide GuestSum, Store32;
    HeldIsLoaded(mem, acc, 1);
    FoldSmall(1, 1);
    var next := GuestPass(acc, mem, acc, n, 1, 1, 1, 2);
    GuestSilent(acc, next, acc + 2, n - 1, n - 1, 2);
    NoPasses(acc, next, acc + 2 + 2 * (n - 1), 2);
  }

  lemma NoPasses(acc: nat, mem: seq<Byte>, src: nat, v: Word)
    ensures GuestSum(acc, mem, src, 0, v) == v
  {
  }

  /** or its lowest byte and the one before, and then what follows. */
  lemma MeetsHigh(acc: nat, mem: seq<Byte>, n: nat)
    requires n > 0 && acc > 0 && Holds(mem, acc, 1) && mem[acc - 1] == 0 && Silent(mem, acc + 4, n)
    ensures GuestSum(acc, mem, acc - 1, n, 1) in {257, 258}
  {
    hide GuestSum, Store32;
    HeldIsLoaded(mem, acc, 1);
    FoldSmall(1, 256);
    var next := GuestPass(acc, mem, acc - 1, n, 1, 1, 256, 257);
    if n == 1 {
      NoPasses(acc, next, acc + 1, 257);
    } else {
      HeldIsLoaded(next, acc, 257);
      FoldSmall(257, 1);
      var last := GuestPass(acc, next, acc + 1, n - 1, 257, 257, 1, 258);
      GuestSilent(acc, last, acc + 3, n - 2, n - 2, 258);
      NoPasses(acc, last, acc + 3 + 2 * (n - 2), 258);
    }
  }

  /** The accumulator's first byte is the first word's second. */
  lemma OverlapAt1(acc: nat, mem: seq<Byte>, s: nat, n: nat)
    requires n > 1 && acc + 4 <= |mem| && acc == s + 1 && mem == OneBit(|mem|, acc)
    ensures Sum(mem, s, n, Load32(mem, acc), 0).acc == 257 && GuestSum(acc, mem, s, n, 0) == 258
  {
    hide GuestSum, Store32;
    SumStep(mem, s, n, 1, 0);
    FoldSmall(1, 256);
    SumSilent(mem, s + 2, n - 1, 257, 0);
    var next := GuestPass(acc, mem, s, n, 0, 1, 256, 257);
    HeldIsLoaded(next, acc, 257);
    FoldSmall(257, 1);
    var last := GuestPass(acc, next, s + 2, n - 1, 257, 257, 1, 258);
    GuestSilent(acc, last, s + 4, n - 2, n - 2, 258);
    NoPasses(acc, last, s + 4 + 2 * (n - 2), 258);
  }

  /** The accumulator's high half is the second word, which the first pass clears. */
  lemma OverlapAt0(acc: nat, mem: seq<Byte>, s: nat, n: nat)
    requires n > 1 && acc + 4 <= |mem| && acc == s && mem == OneBit(|mem|, acc + 2)
    ensures Sum(mem, s, n, Load32(mem, acc), 0).acc == 2 && GuestSum(acc, mem, s, n, 0) == 1
  {
    hide GuestSum, Store32;
    var a := Load32(mem, acc);
    assert Fold(a, 0) == Partial(1, 1);
    SumStep(mem, s, n, a, 0);
    FoldSmall(1, 1);
    SumStep(mem, s + 2, n - 1, 1, 1);
    SumSilent(mem, s + 4, n - 2, 2, 0);
    var next := GuestPass(acc, mem, s, n, 0, a, 0, 1);
    GuestSilent(acc, next, s + 2, n - 1, n - 1, 1);
    NoPasses(acc, next, s + 2 + 2 * (n - 1), 1);
  }

  /** The accumulator's last byte is the second word's first. */
  lemma OverlapBefore(acc: nat, mem: seq<Byte>, s: nat, n: nat)
    requires n > 1 && acc + 5 <= |mem| && acc + 1 == s && mem == OneBit(|mem|, acc + 3)
    ensures Sum(mem, s, n, Load32(mem, acc), 0).acc == 257 && GuestSum(acc, mem, s, n, 0) == 256
  {
    hide GuestSum, Store32;
    var a := Load32(mem, acc);
    assert Fold(a, 0) == Partial(256, 256);
    SumStep(mem, s, n, a, 0);
    FoldSmall(256, 1);
    SumStep(mem, s + 2, n - 1, 256, 256);
    SumSilent(mem, s + 4, n - 2, 257, 0);
    var next := GuestPass(acc, mem, s, n, 0, a, 0, 256);
    GuestSilent(acc, next, s + 2, n - 1, n - 1, 256);
    NoPasses(acc, next, s + 2 + 2 * (n - 1), 256);
  }

  /** DS one byte up from SS, and the second of two words the accumulator: the
      guest reads back what it has stored. */
  lemma OverlapExample(g: Guest) returns (end: Guest)
    requires g.pc == 0 && g.eax == 5 && g.ecx == 2 && |g.mem| == PAGE && g.mem == OneBit(PAGE, 6)
    ensures Reaches(Frame(8, 1), g, 24, end) && end.edx == 2 && Native(Frame(8, 1), g).edx == 1
  {
    hide Step, Reaches, GuestSum, Sum, Store32;
    var f, n := Frame(8, 1), g.ecx;
    end := GuestEnds(f, g, 12 * n);
    LaterOverlap(8, g.mem, 6, n);
    FoldSmall(0, 1);
    assert Load32(g.mem, 8) == 0;
    var next := GuestPass(8, g.mem, 6, n, g.edx, 0, 1, 1);
    MeetsLow(8, next, n - 1);
  }

  // ------------------------------------------------------------------ the code

  const PAGE := 0x1000
  const MOST_WORDS := 0x100_0000

  /** Where devices answer instead of memory. */
  predicate Device(linear: nat) {
    0xa_0000 <= linear < 0xc_0000 || linear >= 0xe000_0000
  }

  /** The range test looks at this byte: the first, and the first of each page. */
  predicate Looked(at: nat, o: nat) {
    o == 0 || (at + o) % PAGE == 0
  }

  /** The processor as the replacement sees it: flat memory that starts at
      linear address 0. `pc` counts instructions of the loop. */
  class Processor {
    const ds: nat
    const ss: nat
    const mem: array<Byte>
    var eax: Word
    var ecx: Word
    var edx: Word
    var esi: Word
    var ebp: Word
    var flags: Eager
    var pc: nat
    var cycle: nat

    constructor (ds: nat, ss: nat, ram: nat)
      requires ram % PAGE == 0
      ensures this.ds == ds && this.ss == ss && fresh(mem) && mem.Length == ram
      ensures forall i :: 0 <= i < ram ==> mem[i] == 0
    {
      this.ds, this.ss := ds, ss;
      mem := new Byte[ram](_ => 0);
    }

    ghost function Fixed(): Frame
      reads this
    {
      Frame(ss + ebp + 8, ds)
    }

    /** The guest before the fetch of the current instruction was counted. */
    ghost function View(): Guest
      requires cycle > 0
      reads this, mem
    {
      Guest(eax, ecx, edx, esi, flags, mem[..], pc, cycle - 1)
    }

    predicate Ordinary(linear: nat)
      reads mem
    {
      linear < mem.Length && !Device(linear)
    }

    /** The byte `o` on from the offset `at`. */
    predicate There(at: nat, o: nat)
      reads mem
    {
      Ordinary(ds + at + o)
    }

    /** The range starts, and goes on at the start of every page of offsets, in
        ordinary memory. */
    predicate PagesThere(at: nat, size: nat)
      reads mem
    {
      forall o :: 0 <= o < size && Looked(at, o) ==> There(at, o)
    }

    /** The range test looks at the first byte of each page of offsets. */
    method InRam(at: nat, size: nat) returns (ok: bool)
      ensures ok <==> PagesThere(at, size)
    {
      var offset := 0;
      while offset < size
        invariant 0 <= offset <= size && (offset < size ==> Looked(at, offset))
        invariant PagesThere(at, offset)
      {
        var linear := ds + at + offset;
        if Device(linear) || linear >= mem.Length {
          assert !There(at, offset);
          return false;
        }
        var chunk := PAGE - (at + offset) % PAGE;
        NextPage(at, offset, chunk);
        if chunk > size - offset {
          chunk := size - offset;
        }
        offset := offset + chunk;
      }
      ok := true;
    }

    /** With a base at the start of a page, all of the range is ordinary memory. */
    lemma AlignedRange(at: nat, size: nat)
      requires ds % PAGE == 0 && mem.Length % PAGE == 0
      ensures PagesThere(at, size) <==> forall o :: 0 <= o < size ==> There(at, o)
      ensures
        forall o: nat :: There(at, o) <==>
          var linear := ds + at + o;
          linear < mem.Length && !(0xa_0000 <= linear < 0xc_0000) && linear < 0xe000_0000
    {
      if PagesThere(at, size) {
        forall o | 0 <= o < size
          ensures There(at, o)
        {
          var start := PageStart(at, o);
          assert There(at, start);
          SamePage(ds, at + start, at + o, mem.Length);
        }
      }
    }

    /** The guard against the loop summing its own accumulator. */
    predicate Overlaps()
      reads this
    {
      ds == ss && eax < ebp + 8 + 4 && ebp + 8 < eax + 2 * ecx
    }

    /** No word of the source and not the accumulator lies across the end of
        memory, and where the range test looks past a device there is none. */
    predicate Regular()
      reads this, mem
    {
      var s, at, size := ds + eax, ss + ebp + 8, 2 * ecx;
      && (s + size <= mem.Length || s >= mem.Length || (mem.Length - s) % 2 == 0)
      && (at + 4 <= mem.Length || at >= mem.Length)
      && !Device(at) && !Device(at + 3)
      && (PagesThere(eax, size) ==> forall i :: s <= i < s + size ==> !Device(i))
    }

    /** The replacement runs exactly when the count is in range, the guard sees no
        overlap and the range test passes; then it leaves `Native`, which is what
        the guest's instructions leave in a harmless placement; otherwise it
        changes nothing. */
    method FastLoop() returns (taken: bool)
      requires pc == 0 && cycle > 0
      requires eax + 2 * ecx <= WORD && ebp + 12 <= WORD && Regular()
      modifies this, mem
      ensures
        taken <==>
        && 0 < old(ecx) <= 0x100_0000 && old(PagesThere(eax, 2 * ecx))
        && !(ds == ss && old(eax) < old(ebp) + 12 && old(ebp) + 8 < old(eax) + 2 * old(ecx))
      ensures !taken ==> unchanged(this) && unchanged(mem)
      ensures taken ==> ebp == old(ebp) && cycle == old(cycle) + 12 * old(ecx) - 1
      ensures
        taken ==>
          && NoWrap(old(View()))
          && Guest(eax, ecx, edx, esi, flags, mem[..], pc, cycle) == Native(old(Fixed()), old(View()))
      ensures
        taken && Harmless(old(Fixed()), old(eax), old(ecx), mem.Length) ==>
          Reaches(old(Fixed()), old(View()), 12 * old(ecx), Guest(eax, ecx, edx, esi, flags, mem[..], pc, cycle))
      ensures
        taken && ds == ss ==>
          (Harmless(old(Fixed()), old(eax), old(ecx), mem.Length) <==> old(Fixed().acc) < mem.Length)
    {
      hide Native, Reaches, PagesThere;
      if ecx == 0 || ecx > MOST_WORDS || Overlaps() {
        return false;
      }
      var fits := InRam(eax, 2 * ecx);
      if !fits {
        return false;
      }
      ghost var f, g := Fixed(), View();
      SumAndLeave();
      if Harmless(f, g.eax, g.ecx, mem.Length) {
        NativeIsGuest(f, g, 12 * g.ecx, Native(f, g));
      }
      taken := true;
    }

    method SumAndLeave()
      requires cycle > 0 && ecx > 0 && eax + 2 * ecx <= WORD
      modifies this, mem
      ensures ebp == old(ebp) && cycle == old(cycle) + 12 * old(ecx) - 1
      ensures Guest(eax, ecx, edx, esi, flags, mem[..], pc, cycle) == Native(old(Fixed()), old(View()))
    {
      var at, end := ss + ebp + 8, eax + 2 * ecx;
      var sum, high := SumWords(eax, ecx, Load32(mem[..], at));
      StoreWord(at, sum);
      cycle := cycle + 12 * ecx - 1;
      eax := if end == WORD then 0 else end;
      ecx, edx, esi := 0, sum, high;
      flags := EXIT_FLAGS;
      pc := |LOOP|;
    }

    method SumWords(source: nat, count: nat, first: Word) returns (accumulator: Word, high: Word)
      ensures Partial(accumulator, high) == Sum(mem[..], ds + source, count, first, 0)
    {
      accumulator, high := first, 0;
      ghost var bytes, src := mem[..], ds + source;
      var i := 0;
      while i < count
        invariant i <= count && bytes == mem[..]
        invariant Sum(bytes, src + 2 * i, count - i, accumulator, high) == Sum(bytes, src, count, first, 0)
      {
        SumStep(bytes, src + 2 * i, count - i, accumulator, high);
        var word := Load16(mem[..], ds + source + 2 * i);
        high := Plus(accumulator, word) / 0x1_0000;
        accumulator := Plus(accumulator, word) % 0x1_0000 + high;
        i := i + 1;
      }
    }

    method StoreWord(at: nat, v: Word)
      modifies mem
      ensures mem[..] == Store32(old(mem[..]), at, v)
    {
      if at + 4 > mem.Length {
        return;
      }
      mem[at] := v % 256;
      mem[at + 1] := v / 256 % 256;
      mem[at + 2] := v / 0x1_0000 % 256;
      mem[at + 3] := v / 0x100_0000;
    }
  }

  /** The replacement takes the example, and comes to 1 where the guest comes to 2. */
  method OverlapTaken() returns (c: Processor, taken: bool, ghost was: Guest, ghost end: Guest)
    ensures taken && c.edx == 1
    ensures was.pc == 0 && was.eax == 5 && was.ecx == 2 && was.mem == OneBit(PAGE, 6)
    ensures Reaches(Frame(8, 1), was, 24, end) && end.edx == 2
  {
    hide Native, Reaches, Step;
    c := new Processor(1, 0, PAGE);
    c.eax, c.ecx, c.ebp, c.pc, c.cycle := 5, 2, 0, 0, 1;
    c.mem[6] := 1;
    assert c.mem[..] == OneBit(PAGE, 6);
    was := c.View();
    end := OverlapExample(was);
    taken := c.FastLoop();
  }

  /** Up to the start of the next page of offsets no other byte is looked at. */
  lemma NextPage(at: nat, offset: nat, chunk: nat)
    requires chunk == PAGE - (at + offset) % PAGE
    ensures Looked(at, offset + chunk)
    ensures forall o :: offset < o < offset + chunk ==> !Looked(at, o)
  {
    var x := at + offset;
    var q, r := x / PAGE, x % PAGE;
    assert x + chunk == PAGE * (q + 1);
    forall o | offset < o < offset + chunk
      ensures !Looked(at, o)
    {
      assert at + o == PAGE * q + (r + o - offset) && 0 < r + o - offset < PAGE;
    }
  }

  /** The offset at which the range test looks at the page of offset `o`. */
  function PageStart(at: nat, o: nat): (start: nat)
    ensures start <= o && Looked(at, start) && (at + start) / PAGE == (at + o) / PAGE
  {
    var r := (at + o) % PAGE;
    var q := (at + o) / PAGE;
    assert at + o == PAGE * q + r;
    if r <= o then
      assert at + (o - r) == PAGE * q;
      o - r
    else
      assert at == PAGE * q + (r - o);
      0
  }

  /** What is on a page is there, and a device, together. */
  lemma SamePage(base: nat, x: nat, y: nat, ram: nat)
    requires base % PAGE == 0 && ram % PAGE == 0 && x / PAGE == y / PAGE
    ensures base + x < ram <==> base + y < ram
    ensures Device(base + x) <==> Device(base + y)
  {
    var b, q := base / PAGE, x / PAGE;
    var i, j := x % PAGE, y % PAGE;
    assert base + x == PAGE * (b + q) + i && base + y == PAGE * (b + q) + j;
    OnePage(b + q, i, j, ram / PAGE);
    OnePage(b + q, i, j, 0xa0);
    OnePage(b + q, i, j, 0xc0);
    OnePage(b + q, i, j, 0xe_0000);
  }

  lemma OnePage(page: nat, i: nat, j: nat, bound: nat)
    requires i < PAGE && j < PAGE
    ensures PAGE * page + i < PAGE * bound <==> PAGE * page + j < PAGE * bound
  {
  }

  // -------------------------------------------------------------- the signature

  lemma {:induction false} EncodedApart(a: seq<Instruction>, b: seq<Instruction>)
    ensures EncodeAll(a + b) == EncodeAll(a) + EncodeAll(b)
  {
    if a == [] {
      assert a + b == b;
    } else {
      assert (a + b)[1..] == a[1..] + b;
      EncodedApart(a[1..], b);
    }
  }

  lemma EncodedThree(a: Instruction, b: Instruction, c: Instruction)
    ensures EncodeAll([a, b, c]) == Encode(a) + Encode(b) + Encode(c)
  {
    EncodedApart([a], [b, c]);
    EncodedApart([b], [c]);
    assert [a] + [b, c] == [a, b, c] && [b] + [c] == [b, c];
  }

  lemma SignatureHead()
    ensures EncodeAll([MovzxEdxSource, AddAccEdx, IncEax, MovEdxAcc, MovEsiAcc, AndEdxFfff]) == SIGNATURE[..19]
  {
    var a, b := [MovzxEdxSource, AddAccEdx, IncEax], [MovEdxAcc, MovEsiAcc, AndEdxFfff];
    EncodedThree(a[0], a[1], a[2]);
    EncodedThree(b[0], b[1], b[2]);
    var left: seq<Byte> := [0x0f, 0xb7, 0x10, 0x01, 0x55, 0x08, 0x40];
    var right: seq<Byte> := [0x8b, 0x55, 0x08, 0x8b, 0x75, 0x08, 0x81, 0xe2, 0xff, 0xff, 0x00, 0x00];
    assert Encode(a[0]) + Encode(a[1]) + Encode(a[2]) == left;
    assert Encode(b[0]) + Encode(b[1]) + Encode(b[2]) == right;
    assert left + right == SIGNATURE[..19];
    EncodedApart(a, b);
    assert a + b == [MovzxEdxSource, AddAccEdx, IncEax, MovEdxAcc, MovEsiAcc, AndEdxFfff];
  }

  lemma SignatureTail()
    ensures EncodeAll([IncEax, ShrEsi16, AddEdxEsi, DecEcx, MovAccEdx, JnzStart]) == SIGNATURE[19..]
  {
    var a, b := [IncEax, ShrEsi16, AddEdxEsi], [DecEcx, MovAccEdx, JnzStart];
    EncodedThree(a[0], a[1], a[2]);
    EncodedThree(b[0], b[1], b[2]);
    assert Encode(a[0]) + Encode(a[1]) + Encode(a[2]) == SIGNATURE[19..25];
    assert Encode(b[0]) + Encode(b[1]) + Encode(b[2]) == SIGNATURE[25..];
    EncodedApart(a, b);
    assert a + b == [IncEax, ShrEsi16, AddEdxEsi, DecEcx, MovAccEdx, JnzStart];
  }

  /** The recognised bytes are these twelve instructions, and the address written
      at the end is the one past them. */
  lemma SignatureIsLoop()
    ensures EncodeAll(LOOP) == SIGNATURE && |SIGNATURE| == 0x1f
  {
    hide Encode, EncodeAll;
    var head := [MovzxEdxSource, AddAccEdx, IncEax, MovEdxAcc, MovEsiAcc, AndEdxFfff];
    var tail := [IncEax, ShrEsi16, AddEdxEsi, DecEcx, MovAccEdx, JnzStart];
    SignatureHead();
    SignatureTail();
    EncodedApart(head, tail);
    assert head + tail == LOOP;
  }
}
