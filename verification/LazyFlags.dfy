/** The interpreter's lazy arithmetic flags: an instruction leaves its operands
    and result behind, and each flag is worked out only when it is read.

    A machine word is a number below 2^32 and arithmetic on it wraps there. A
    set of flag bits, such as the flags register, is the set of the bits set. */
module LazyFlags {

  const WORD: int := 0x1_0000_0000

  type Word = x: nat | x < WORD

  datatype Flag = CF | PF | AF | ZF | SF | OF | Other(bit: nat)

  const ARITH: set<Flag> := {CF, PF, AF, ZF, SF, OF}

  datatype Width = W8 | W16 | W32

  function Modulus(w: Width): int {
    match w
    case W8 => 0x100
    case W16 => 0x1_0000
    case W32 => 0x1_0000_0000
  }

  function Half(w: Width): int {
    match w
    case W8 => 0x80
    case W16 => 0x8000
    case W32 => 0x8000_0000
  }

  /** The low `w` bits. */
  function Low(w: Width, x: Word): (r: Word)
    ensures r < Modulus(w)
  {
    match w
    case W8 => x % 0x100
    case W16 => x % 0x1_0000
    case W32 => x
  }

  function Wrap(x: int): Word
    requires 0 - 2 * WORD <= x < 3 * WORD
  {
    if x >= 2 * WORD then x - 2 * WORD
    else if x >= WORD then x - WORD
    else if x >= 0 then x
    else if x >= 0 - WORD then x + WORD
    else x + 2 * WORD
  }

  /** Sign extension of the low `w` bits to a word. */
  function Sext(w: Width, x: Word): Word {
    if Low(w, x) >= Half(w) then Low(w, x) + (WORD - Modulus(w)) else Low(w, x)
  }

  function Top(x: Word): bool {
    x >= 0x8000_0000
  }

  function Bit4(x: Word): bool {
    x / 16 % 2 == 1
  }

  function SetFlag(flags: set<Flag>, on: bool, f: Flag): set<Flag> {
    if on then flags + {f} else flags - {f}
  }

  // ------------------------------------------------------------ parity table

  const ROW_A: bv16 := 0x9669
  const ROW_B: bv16 := 0x6996

  /** The parity table, sixteen entries to a row, entry c of a row at bit c. */
  function ParityRow(r: bv8): bv16 {
    if r == 0 || r == 3 || r == 5 || r == 6 || r == 9 || r == 10 || r == 12 || r == 15 then ROW_A else ROW_B
  }

  predicate ParityTable(b: bv8) {
    (ParityRow(b >> 4) >> ((b & 15) as bv16)) & 1 == 1
  }

  /** An even number of the eight bits is set. */
  predicate EvenParity(b: bv8) {
    (b ^ (b >> 1) ^ (b >> 2) ^ (b >> 3) ^ (b >> 4) ^ (b >> 5) ^ (b >> 6) ^ (b >> 7)) & 1 == 0
  }

  /** The 256 table entries say exactly which bytes have even parity. */
  lemma TableIsEvenParity(b: bv8)
    ensures ParityTable(b) == EvenParity(b)
  {
    assert ParityRow(b >> 4) == ROW_A <==> EvenParity(b >> 4);
  }

  // --------------------------------------------------------------- lazy state

  /** The instruction the pending flags belong to. */
  datatype CcOp = CcAdc | CcAdd | CcSbb | CcSub | CcNeg(w: Width) | CcDec(w: Width) | CcInc(w: Width)
                | CcAnd | CcOr | CcXor

  /** The pending computation; `mask` says which flags are still to be read from it. */
  datatype Cc = Cc(op: CcOp, dst: Word, src1: Word, src2: Word, mask: set<Flag>)

  /** The flags register, its writable bits, and the pending computation. */
  datatype Lazy = Lazy(flags: set<Flag>, flagsMask: set<Flag>, cc: Cc)
  {
    /** The carry is never pending on INC and DEC, where reading it would be an
        assertion failure; the six flags are writable on every CPU generation. */
    predicate WellFormed() {
      && ARITH <= flagsMask
      && (cc.op.CcInc? || cc.op.CcDec? ==> CF !in cc.mask)
    }
  }

  function GetCF(s: Lazy): bool
    requires s.WellFormed()
  {
    if CF !in s.cc.mask then CF in s.flags
    else match s.cc.op
      case CcAdc => s.cc.dst <= s.cc.src2
      case CcAdd => s.cc.dst < s.cc.src2
      case CcSbb => s.cc.src1 <= s.cc.src2
      case CcSub => s.cc.src1 < s.cc.src2
      case CcNeg(_) => s.cc.dst != 0
      case _ => false
  }

  function GetPF(s: Lazy): bool {
    if PF !in s.cc.mask then PF in s.flags else ParityTable((s.cc.dst % 256) as bv8)
  }

  function GetAF(s: Lazy): bool {
    if AF !in s.cc.mask then AF in s.flags
    else match s.cc.op
      case CcNeg(_) => s.cc.dst % 16 != 0
      case CcDec(_) => s.cc.dst % 16 == 15
      case CcInc(_) => s.cc.dst % 16 == 0
      case CcAnd | CcOr | CcXor => false
      case _ => (Bit4(s.cc.src1) != Bit4(s.cc.src2)) != Bit4(s.cc.dst)
  }

  function GetZF(s: Lazy): bool {
    if ZF !in s.cc.mask then ZF in s.flags else s.cc.dst == 0
  }

  function GetSF(s: Lazy): bool {
    if SF !in s.cc.mask then SF in s.flags else Top(s.cc.dst)
  }

  function GetOF(s: Lazy): bool {
    if OF !in s.cc.mask then OF in s.flags
    else match s.cc.op
      case CcAdc | CcAdd => Top(s.cc.src1) == Top(s.cc.src2) != Top(s.cc.dst)
      case CcSbb | CcSub => Top(s.cc.src1) != Top(s.cc.src2) && Top(s.cc.dst) != Top(s.cc.src1)
      case CcDec(w) => s.cc.dst == Sext(w, Half(w) - 1)
      case CcInc(w) => s.cc.dst == Sext(w, Half(w))
      case CcNeg(w) => s.cc.dst == Sext(w, Half(w))
      case _ => false
  }

  /** Works every flag out into the register. */
  function Refresh(s: Lazy): Lazy
    requires s.WellFormed()
  {
    var f := SetFlag(s.flags, GetCF(s), CF);
    var f := SetFlag(f, GetPF(s), PF);
    var f := SetFlag(f, GetAF(s), AF);
    var f := SetFlag(f, GetZF(s), ZF);
    var f := SetFlag(f, GetSF(s), SF);
    s.(flags := SetFlag(f, GetOF(s), OF))
  }

  // ------------------------------------------------------------ instructions

  datatype LogicOp = And | Or | Xor

  /** CMP is `Sub` and TEST is `Logic(And, ...)` with the result not stored. A
      set of flags stands for the byte in AH. */
  datatype Ins =
    | Adc(w: Width, a: Word, b: Word)
    | Sbb(w: Width, a: Word, b: Word)
    | Add(w: Width, a: Word, b: Word)
    | Sub(w: Width, a: Word, b: Word)
    | Neg(w: Width, a: Word)
    | Inc(w: Width, a: Word)
    | Dec(w: Width, a: Word)
    | Logic(op: LogicOp, w: Width, a: Word, b: Word)
    | Clc
    | Stc
    | Cmc
    | Sahf(ah: set<Flag>)
    | Lahf

  function Pow2(n: nat): int {
    if n == 0 then 1 else 2 * Pow2(n - 1)
  }

  function BitOf(op: LogicOp, x: bool, y: bool): nat {
    if (match op case And => x && y case Or => x || y case Xor => x != y) then 1 else 0
  }

  /** The low `n` bits of a bitwise operation, from the lowest up. */
  function BitwiseBits(op: LogicOp, a: nat, b: nat, n: nat): (r: nat)
    ensures r < Pow2(n)
  {
    if n == 0 then 0
    else BitOf(op, a % 2 == 1, b % 2 == 1) + 2 * BitwiseBits(op, a / 2, b / 2, n - 1)
  }

  function Bitwise(op: LogicOp, a: Word, b: Word): Word {
    assert Pow2(8) == 0x100;
    assert Pow2(16) == 0x1_0000;
    assert Pow2(24) == 0x100_0000;
    assert Pow2(32) == WORD;
    BitwiseBits(op, a, b, 32)
  }

  /** Bit `k` of a number. */
  predicate Bit(x: nat, k: nat) {
    if k == 0 then x % 2 == 1 else Bit(x / 2, k - 1)
  }

  /** Bits in an operand. */
  function Bits(w: Width): nat {
    match w
    case W8 => 8
    case W16 => 16
    case W32 => 32
  }

  lemma {:induction false} BitOfBits(op: LogicOp, a: nat, b: nat, n: nat, k: nat)
    requires k < n
    ensures var r := Bit(BitwiseBits(op, a, b, n), k);
      match op
      case And => r <==> Bit(a, k) && Bit(b, k)
      case Or => r <==> Bit(a, k) || Bit(b, k)
      case Xor => r <==> Bit(a, k) != Bit(b, k)
  {
    var bit, rest := BitOf(op, a % 2 == 1, b % 2 == 1), BitwiseBits(op, a / 2, b / 2, n - 1);
    var r := bit + 2 * rest;
    assert r % 2 == bit && r / 2 == rest;
    if k > 0 {
      BitOfBits(op, a / 2, b / 2, n - 1, k - 1);
    }
  }

  /** Each bit of AND is set if it is in both operands, of OR if it is in either, of
      XOR if it is in exactly one. */
  lemma BitwiseByBit(op: LogicOp, a: Word, b: Word, k: nat)
    requires k < 32
    ensures var r := Bit(Bitwise(op, a, b), k);
      match op
      case And => r <==> Bit(a, k) && Bit(b, k)
      case Or => r <==> Bit(a, k) || Bit(b, k)
      case Xor => r <==> Bit(a, k) != Bit(b, k)
  {
    BitOfBits(op, a, b, 32, k);
  }

  lemma PowIsPositive(n: nat)
    ensures Pow2(n) > 0
  {
  }

  /** Bits below a multiple of a power of two do not see it. */
  lemma {:induction false} BitBelow(x: nat, m: nat, n: nat, k: nat)
    requires k < n
    ensures Pow2(n) * m >= 0 && Bit(x + Pow2(n) * m, k) == Bit(x, k)
  {
    PowIsPositive(n - 1);
    var half := Pow2(n - 1) * m;
    assert Pow2(n) * m == 2 * half;
    assert (x + 2 * half) / 2 == x / 2 + half && (x + 2 * half) % 2 == x % 2;
    if k > 0 {
      BitBelow(x / 2, m, n - 1, k - 1);
    }
  }

  lemma ModulusIsPower(w: Width)
    ensures Modulus(w) == Pow2(Bits(w)) && Half(w) == Pow2(Bits(w) - 1)
  {
    assert Pow2(8) == 0x100;
    assert Pow2(16) == 0x1_0000;
    assert Pow2(24) == 0x100_0000;
    assert Pow2(32) == WORD;
  }

  /** Sign extension keeps the bits of the operand and repeats the highest. */
  lemma SextByBit(w: Width, x: Word, k: nat)
    requires k < Bits(w)
    ensures Bit(Sext(w, x), k) == Bit(x, k)
  {
    ModulusIsPower(w);
    var m := Modulus(w);
    BitBelow(Low(w, x), x / m, Bits(w), k);
    assert x == Low(w, x) + m * (x / m);
    var e := (Sext(w, x) - Low(w, x)) / m;
    BitBelow(Low(w, x), e, Bits(w), k);
    assert Sext(w, x) == Low(w, x) + m * e;
  }

  const LOW_BYTE: set<Flag> := {CF, Other(1), PF, Other(3), AF, Other(5), ZF, SF}

  function Carry(on: bool): nat {
    if on then 1 else 0
  }

  function SumOf(w: Width, a: Word, b: Word, c: nat): Word
    requires c <= 1
  {
    Sext(w, Wrap(Sext(w, a) + Sext(w, b) + c))
  }

  function DiffOf(w: Width, a: Word, b: Word, c: nat): Word
    requires c <= 1
  {
    Sext(w, Wrap(Sext(w, a) - Sext(w, b) - c))
  }

  /** What the interpreter does to the flags and the pending computation. */
  function Exec(s: Lazy, i: Ins): Lazy
    requires s.WellFormed()
  {
    match i
    case Adc(w, a, b) =>
      var cf := GetCF(s);
      s.(cc := Cc(if cf then CcAdc else CcAdd, SumOf(w, a, b, Carry(cf)), Sext(w, a), Sext(w, b), ARITH))
    case Sbb(w, a, b) =>
      var cf := GetCF(s);
      s.(cc := Cc(if cf then CcSbb else CcSub, DiffOf(w, a, b, Carry(cf)), Sext(w, a), Sext(w, b), ARITH))
    case Add(w, a, b) => s.(cc := Cc(CcAdd, SumOf(w, a, b, 0), Sext(w, a), Sext(w, b), ARITH))
    case Sub(w, a, b) => s.(cc := Cc(CcSub, DiffOf(w, a, b, 0), Sext(w, a), Sext(w, b), ARITH))
    case Neg(w, a) =>
      s.(cc := s.cc.(op := CcNeg(w), src1 := Sext(w, a), dst := Sext(w, Wrap(0 - Sext(w, a))), mask := ARITH))
    case Inc(w, a) =>
      s.(flags := SetFlag(s.flags, GetCF(s), CF),
         cc := s.cc.(op := CcInc(w), dst := Sext(w, Wrap(Sext(w, a) + 1)), mask := ARITH - {CF}))
    case Dec(w, a) =>
      s.(flags := SetFlag(s.flags, GetCF(s), CF),
         cc := s.cc.(op := CcDec(w), dst := Sext(w, Wrap(Sext(w, a) - 1)), mask := ARITH - {CF}))
    case Logic(op, w, a, b) =>
      s.(cc := s.cc.(op := match op case And => CcAnd case Or => CcOr case Xor => CcXor,
                     dst := Sext(w, Bitwise(op, a, b)), mask := ARITH - {AF}))
    case Clc => s.(flags := s.flags - {CF}, cc := s.cc.(mask := s.cc.mask - {CF}))
    case Stc => s.(flags := s.flags + {CF}, cc := s.cc.(mask := s.cc.mask - {CF}))
    case Cmc => s.(flags := SetFlag(s.flags, !GetCF(s), CF), cc := s.cc.(mask := s.cc.mask - {CF}))
    case Sahf(ah) =>
      s.(flags := ((s.flags - LOW_BYTE) + (ah * LOW_BYTE)) * s.flagsMask + {Other(1)},
         cc := s.cc.(mask := s.cc.mask * {OF}))
    case Lahf => Refresh(s).(cc := s.cc.(mask := {}))
  }

  // ----------------------------------------------- the flags as architecture

  datatype Defined = Undefined | Known(value: bool)

  /** The six flags as the architecture defines them. */
  datatype Eager = Eager(cf: bool, pf: bool, af: Defined, zf: bool, sf: bool, of: bool)

  function Signed(w: Width, x: Word): int {
    if Low(w, x) >= Half(w) then Low(w, x) - Modulus(w) else Low(w, x)
  }

  predicate Fits(w: Width, x: int) {
    0 - Half(w) <= x < Half(w)
  }

  /** A `w`-bit result, and the flags that depend on it alone. */
  function Flags(w: Width, r: Word, cf: bool, af: Defined, of: bool): Eager {
    Eager(cf, EvenParity((Low(w, r) % 256) as bv8), af, Low(w, r) == 0, Low(w, r) >= Half(w), of)
  }

  function ReduceTo(w: Width, x: int): Word
    requires 0 - 2 * Modulus(w) <= x < 2 * Modulus(w)
  {
    var m := Modulus(w);
    if x >= m then x - m else if x >= 0 then x else if x >= 0 - m then x + m else x + 2 * m
  }

  /** Addition with carry: CF when the unsigned sum does not fit in `w` bits, OF
      when the signed one does not, AF when the low digits carry. */
  function AddFlags(w: Width, a: Word, b: Word, c: nat): (Eager, Word)
    requires c <= 1
  {
    var r := ReduceTo(w, Low(w, a) + Low(w, b) + c);
    (Flags(w, r, Low(w, a) + Low(w, b) + c >= Modulus(w), Known(a % 16 + b % 16 + c >= 16),
       !Fits(w, Signed(w, a) + Signed(w, b) + c)), r)
  }

  function SubFlags(w: Width, a: Word, b: Word, c: nat): (Eager, Word)
    requires c <= 1
  {
    var r := ReduceTo(w, Low(w, a) - Low(w, b) - c);
    (Flags(w, r, Low(w, a) < Low(w, b) + c, Known(a % 16 < b % 16 + c),
       !Fits(w, Signed(w, a) - Signed(w, b) - c)), r)
  }

  /** The flags after an instruction, and the result it leaves (0 if none). */
  function Execute(e: Eager, i: Ins): (Eager, Word) {
    match i
    case Adc(w, a, b) => AddFlags(w, a, b, Carry(e.cf))
    case Sbb(w, a, b) => SubFlags(w, a, b, Carry(e.cf))
    case Add(w, a, b) => AddFlags(w, a, b, 0)
    case Sub(w, a, b) => SubFlags(w, a, b, 0)
    case Neg(w, a) => SubFlags(w, 0, a, 0)
    case Inc(w, a) => var (e', r) := AddFlags(w, a, 1, 0); (e'.(cf := e.cf), r)
    case Dec(w, a) => var (e', r) := SubFlags(w, a, 1, 0); (e'.(cf := e.cf), r)
    case Logic(op, w, a, b) =>
      var r := Low(w, Bitwise(op, a, b));
      (Flags(w, r, false, Undefined, false), r)
    case Clc => (e.(cf := false), 0)
    case Stc => (e.(cf := true), 0)
    case Cmc => (e.(cf := !e.cf), 0)
    case Sahf(ah) => (Eager(CF in ah, PF in ah, Known(AF in ah), ZF in ah, SF in ah, e.of), 0)
    case Lahf => (e, 0)
  }

  /** Bytes, by their numbers: 0x7F + 1 overflows, 0xFF + 1 carries, 0 - 1 borrows,
      0x80 - 1 overflows; */
  lemma ByteExamples(e: Eager)
    ensures Execute(e, Add(W8, 0x7f, 1)) == (Eager(false, false, Known(true), false, true, true), 0x80)
    ensures Execute(e, Add(W8, 0xff, 1)) == (Eager(true, true, Known(true), true, false, false), 0)
    ensures Execute(e, Sub(W8, 0, 1)) == (Eager(true, true, Known(true), false, true, false), 0xff)
    ensures Execute(e, Sub(W8, 0x80, 1)) == (Eager(false, false, Known(true), false, false, true), 0x7f)
  {
    Parities();
  }

  /** and carry and borrow come in. */
  lemma CarryInExamples(e: Eager)
    ensures e.cf ==> Execute(e, Adc(W8, 1, 1)) == (Eager(false, true, Known(false), false, false, false), 3)
    ensures e.cf ==> Execute(e, Sbb(W8, 5, 1)) == (Eager(false, true, Known(false), false, false, false), 3)
  {
    Parities();
  }

  lemma Parities()
    ensures EvenParity(0) && EvenParity(3) && EvenParity(0xff) && !EvenParity(0x80) && !EvenParity(0x7f)
  {
  }

  /** INC and DEC keep the carry; */
  lemma CarryExamples(e: Eager)
    ensures Execute(e, Inc(W16, 0xffff)) == (Eager(e.cf, true, Known(true), true, false, false), 0)
    ensures Execute(e, Dec(W16, 0)) == (Eager(e.cf, true, Known(true), false, true, false), 0xffff)
  {
    Parities();
  }

  /** NEG sets it except for 0; */
  lemma NegExamples(e: Eager)
    ensures Execute(e, Neg(W32, 0)) == (Eager(false, true, Known(false), true, false, false), 0)
    ensures Execute(e, Neg(W32, 1)) == (Eager(true, true, Known(true), false, true, false), 0xffff_ffff)
    ensures Execute(e, Neg(W32, 0x8000_0000)) == (Eager(true, true, Known(false), false, true, true), 0x8000_0000)
  {
    Parities();
  }

  /** CLC, STC and CMC change nothing else. */
  lemma CarryInstructions(e: Eager)
    ensures Execute(e, Stc).0 == e.(cf := true) && Execute(e, Clc).0 == e.(cf := false) && Execute(e, Cmc).0 == e.(cf := !e.cf)
  {
  }

  /** Reading each flag gives its defined value. */
  predicate Shows(s: Lazy, e: Eager) {
    && s.WellFormed()
    && GetCF(s) == e.cf && GetPF(s) == e.pf && GetZF(s) == e.zf && GetSF(s) == e.sf && GetOF(s) == e.of
    && (e.af.Known? ==> GetAF(s) == e.af.value)
  }

  /** The low bits of a number known up to a multiple of the modulus. */
  lemma LowUnique(w: Width, x: Word, r: int, k: int)
    requires 0 <= r < Modulus(w) && x == r + k * Modulus(w)
    ensures Low(w, x) == r
  {
    match w
    case W8 =>
    case W16 =>
    case W32 =>
  }

  /** How many multiples of the modulus sign extension adds. */
  function Extension(w: Width, x: Word): int {
    if Low(w, x) < Half(w) then 0
    else match w
      case W8 => 0xFF_FFFF
      case W16 => 0xFFFF
      case W32 => 0
  }

  lemma SextAddsMultiple(w: Width, x: Word)
    ensures Sext(w, x) == Low(w, x) + Extension(w, x) * Modulus(w)
  {
  }

  lemma SextKeepsLowByte(w: Width, x: Word)
    ensures Sext(w, x) % 256 == Low(w, x) % 256
  {
    SextAddsMultiple(w, x);
    match w
    case W8 => LowUnique(W8, Sext(w, x), Low(w, x), Extension(w, x));
    case W16 => assert Modulus(w) == 256 * 256;
    case W32 =>
  }

  /** ZF, SF and PF of a result, read from its sign extension. */
  lemma SextShowsResult(w: Width, r: Word)
    ensures Low(w, Sext(w, r)) == Low(w, r)
    ensures Sext(w, r) == 0 <==> Low(w, r) == 0
    ensures Top(Sext(w, r)) <==> Low(w, r) >= Half(w)
  {
    SextAddsMultiple(w, r);
    LowUnique(w, Sext(w, r), Low(w, r), Extension(w, r));
  }

  /** The wrapped sum of sign-extended operands, reduced to `w` bits. */
  lemma SumWraps(w: Width, a: Word, b: Word, c: nat)
    requires c <= 1
    ensures Low(w, Wrap(Sext(w, a) + Sext(w, b) + c)) == ReduceTo(w, Low(w, a) + Low(w, b) + c)
  {
    SextAddsMultiple(w, a);
    SextAddsMultiple(w, b);
    var x := Wrap(Sext(w, a) + Sext(w, b) + c);
    var r := ReduceTo(w, Low(w, a) + Low(w, b) + c);
    var wraps := Sext(w, a) + Sext(w, b) + c - x;
    var over := Low(w, a) + Low(w, b) + c - r;
    match w
    case W8 => LowUnique(w, x, r, Extension(w, a) + Extension(w, b) + over / 0x100 - wraps / 0x100);
    case W16 => LowUnique(w, x, r, Extension(w, a) + Extension(w, b) + over / 0x1_0000 - wraps / 0x1_0000);
    case W32 =>
  }

  lemma DiffWraps(w: Width, a: Word, b: Word, c: nat)
    requires c <= 1
    ensures Low(w, Wrap(Sext(w, a) - Sext(w, b) - c)) == ReduceTo(w, Low(w, a) - Low(w, b) - c)
  {
    SextAddsMultiple(w, a);
    SextAddsMultiple(w, b);
    var x := Wrap(Sext(w, a) - Sext(w, b) - c);
    var r := ReduceTo(w, Low(w, a) - Low(w, b) - c);
    var wraps := x - (Sext(w, a) - Sext(w, b) - c);
    var over := r - (Low(w, a) - Low(w, b) - c);
    match w
    case W8 => LowUnique(w, x, r, Extension(w, a) - Extension(w, b) - over / 0x100 + wraps / 0x100);
    case W16 => LowUnique(w, x, r, Extension(w, a) - Extension(w, b) - over / 0x1_0000 + wraps / 0x1_0000);
    case W32 =>
  }

  /** Sign extension keeps unsigned order, so comparing the extended sum with an
      extended operand finds the carry, and comparing the operands the borrow. */
  lemma CarryFromOrder(w: Width, a: Word, b: Word, c: nat)
    requires c <= 1
    ensures Low(w, a) + Low(w, b) + c >= Modulus(w)
      <==> if c == 1 then SumOf(w, a, b, c) <= Sext(w, b) else SumOf(w, a, b, c) < Sext(w, b)
  {
    SumWraps(w, a, b, c);
  }

  lemma BorrowFromOrder(w: Width, a: Word, b: Word, c: nat)
    requires c <= 1
    ensures Low(w, a) < Low(w, b) + c
      <==> if c == 1 then Sext(w, a) <= Sext(w, b) else Sext(w, a) < Sext(w, b)
  {
  }

  /** The signs of the operands and the result tell signed overflow. */
  lemma SumOverflow(w: Width, a: Word, b: Word, c: nat)
    requires c <= 1
    ensures !Fits(w, Signed(w, a) + Signed(w, b) + c)
      <==> Top(Sext(w, a)) == Top(Sext(w, b)) != Top(SumOf(w, a, b, c))
  {
    SumWraps(w, a, b, c);
    SextTop(w, a);
    SextTop(w, b);
    SextTop(w, Wrap(Sext(w, a) + Sext(w, b) + c));
  }

  lemma DiffOverflow(w: Width, a: Word, b: Word, c: nat)
    requires c <= 1
    ensures !Fits(w, Signed(w, a) - Signed(w, b) - c)
      <==> Top(Sext(w, a)) != Top(Sext(w, b)) && Top(DiffOf(w, a, b, c)) != Top(Sext(w, a))
  {
    DiffWraps(w, a, b, c);
    SextTop(w, a);
    SextTop(w, b);
    SextTop(w, Wrap(Sext(w, a) - Sext(w, b) - c));
  }

  lemma SextTop(w: Width, x: Word)
    ensures Top(Sext(w, x)) <==> Low(w, x) >= Half(w)
  {
  }

  // ---------------------------------------------------------------- the AF bit

  lemma MultipleDropsOut(y: int, k: int)
    ensures (y + 32 * k) % 32 == y % 32
  {
  }

  lemma LowKeepsDigits(w: Width, x: Word)
    ensures Low(w, x) % 32 == x % 32
  {
    match w
    case W8 => MultipleDropsOut(x % 0x100, 8 * (x / 0x100));
    case W16 => MultipleDropsOut(x % 0x1_0000, 2048 * (x / 0x1_0000));
    case W32 =>
  }

  lemma SextKeepsDigits(w: Width, x: Word)
    ensures Sext(w, x) % 32 == x % 32
  {
    LowKeepsDigits(w, x);
    SextAddsMultiple(w, x);
    match w
    case W8 => MultipleDropsOut(Low(w, x), 8 * Extension(w, x));
    case W16 => MultipleDropsOut(Low(w, x), 2048 * Extension(w, x));
    case W32 =>
  }

  lemma WrapKeepsDigits(x: int)
    requires 0 - 2 * WORD <= x < 3 * WORD
    ensures Wrap(x) % 32 == x % 32
  {
  }

  lemma Bit4IsHighHalf(x: Word)
    ensures Bit4(x) <==> x % 32 >= 16
  {
  }

  lemma AddDigits(x: int, y: int, c: int)
    ensures (x + y + c) % 32 == (x % 32 + y % 32 + c) % 32
    ensures (x - y - c) % 32 == (x % 32 - y % 32 - c) % 32
  {
    var p, q := x / 32, y / 32;
    assert x + y + c == 32 * (p + q) + (x % 32 + y % 32 + c);
    assert x - y - c == 32 * (p - q) + (x % 32 - y % 32 - c);
  }

  lemma SumDigits(w: Width, a: Word, b: Word, c: nat)
    requires c <= 1
    ensures SumOf(w, a, b, c) % 32 == (a % 32 + b % 32 + c) % 32
    ensures DiffOf(w, a, b, c) % 32 == (a % 32 - b % 32 - c) % 32
  {
    SextKeepsDigits(w, a);
    SextKeepsDigits(w, b);
    SextKeepsDigits(w, Wrap(Sext(w, a) + Sext(w, b) + c));
    SextKeepsDigits(w, Wrap(Sext(w, a) - Sext(w, b) - c));
    WrapKeepsDigits(Sext(w, a) + Sext(w, b) + c);
    WrapKeepsDigits(Sext(w, a) - Sext(w, b) - c);
    AddDigits(Sext(w, a), Sext(w, b), c);
  }

  /** Bit 4 of the operands and the result tells the carry between the digits. */
  lemma DigitCarry(w: Width, a: Word, b: Word, c: nat)
    requires c <= 1
    ensures a % 16 + b % 16 + c >= 16
      <==> (Bit4(Sext(w, a)) != Bit4(Sext(w, b))) != Bit4(SumOf(w, a, b, c))
    ensures a % 16 < b % 16 + c
      <==> (Bit4(Sext(w, a)) != Bit4(Sext(w, b))) != Bit4(DiffOf(w, a, b, c))
  {
    SextKeepsDigits(w, a);
    SextKeepsDigits(w, b);
    SumDigits(w, a, b, c);
    Bit4IsHighHalf(Sext(w, a));
    Bit4IsHighHalf(Sext(w, b));
    Bit4IsHighHalf(SumOf(w, a, b, c));
    Bit4IsHighHalf(DiffOf(w, a, b, c));
    LowDigit(a);
    LowDigit(b);
    SmallDigits(a % 32, b % 32, c);
  }

  lemma Remainder16(d: int, k: int)
    requires 0 <= d < 16
    ensures (d + 16 * k) % 16 == d
  {
  }

  lemma LowDigit(x: nat)
    ensures x % 16 == if x % 32 >= 16 then x % 32 - 16 else x % 32
  {
    var p, q := x % 32, x / 32;
    if p >= 16 {
      Remainder16(p - 16, 2 * q + 1);
    } else {
      Remainder16(p, 2 * q);
    }
  }

  /** The carry between digits on five-bit numbers. */
  lemma SmallDigits(p: nat, q: nat, c: nat)
    requires p < 32 && q < 32 && c <= 1
    ensures
      var t := (p + q + c) % 32;
      var p', q' := if p >= 16 then p - 16 else p, if q >= 16 then q - 16 else q;
      p' + q' + c >= 16 <==> ((p >= 16) != (q >= 16)) != (t >= 16)
    ensures
      var t := (p - q - c) % 32;
      var p', q' := if p >= 16 then p - 16 else p, if q >= 16 then q - 16 else q;
      p' < q' + c <==> ((p >= 16) != (q >= 16)) != (t >= 16)
  {
    assert (p + q + c) % 32 == if p + q + c >= 32 then p + q + c - 32 else p + q + c;
    assert (p - q - c) % 32 == if p - q - c < 0 then p - q - c + 32 else p - q - c;
  }

  // The low digit of a negation, an increment and a decrement.

  lemma NegLowDigit(w: Width, a: Word)
    ensures DiffOf(w, 0, a, 0) % 16 != 0 <==> 0 < a % 16
  {
    hide DiffOf, Sext, Low;
    SumDigits(w, 0, a, 0);
    LowDigit(a);
    LowDigit(DiffOf(w, 0, a, 0));
    SmallLowDigits(a % 32);
  }

  lemma IncLowDigit(w: Width, a: Word)
    ensures SumOf(w, a, 1, 0) % 16 == 0 <==> a % 16 + 1 >= 16
  {
    hide SumOf, Sext, Low;
    SumDigits(w, a, 1, 0);
    LowDigit(a);
    LowDigit(SumOf(w, a, 1, 0));
    SmallLowDigits(a % 32);
  }

  lemma DecLowDigit(w: Width, a: Word)
    ensures DiffOf(w, a, 1, 0) % 16 == 15 <==> a % 16 < 1
  {
    hide DiffOf, Sext, Low;
    SumDigits(w, a, 1, 0);
    LowDigit(a);
    LowDigit(DiffOf(w, a, 1, 0));
    SmallLowDigits(a % 32);
  }

  lemma SmallLowDigits(p: nat)
    requires p < 32
    ensures (0 - p) % 32 == (if p == 0 then 0 else 32 - p)
    ensures (p + 1) % 32 == (if p == 31 then 0 else p + 1)
    ensures (p - 1) % 32 == (if p == 0 then 31 else p - 1)
  {
  }

  // Overflow of a negation, an increment and a decrement: the one result that
  // each compares with.

  lemma NegOverflow(w: Width, a: Word)
    ensures !Fits(w, Signed(w, 0) - Signed(w, a) - 0) <==> DiffOf(w, 0, a, 0) == Sext(w, Half(w))
  {
    DiffWraps(w, 0, a, 0);
    LowOfReduced(w, 0);
    LowOfReduced(w, Half(w));
  }

  lemma IncOverflow(w: Width, a: Word)
    ensures !Fits(w, Signed(w, a) + Signed(w, 1) + 0) <==> SumOf(w, a, 1, 0) == Sext(w, Half(w))
  {
    SumWraps(w, a, 1, 0);
    LowOfReduced(w, 1);
    LowOfReduced(w, Half(w));
  }

  lemma DecOverflow(w: Width, a: Word)
    ensures !Fits(w, Signed(w, a) - Signed(w, 1) - 0) <==> DiffOf(w, a, 1, 0) == Sext(w, Half(w) - 1)
  {
    DiffWraps(w, a, 1, 0);
    LowOfReduced(w, 1);
    LowOfReduced(w, Half(w) - 1);
  }

  // ---------------------------------------------------- instruction by instruction

  /** The state an addition or subtraction leaves behind. */
  predicate Pending(s: Lazy, op: CcOp, dst: Word, src1: Word, src2: Word) {
    s.cc == Cc(op, dst, src1, src2, ARITH) && ARITH <= s.flagsMask
  }

  lemma AddShows(s: Lazy, w: Width, a: Word, b: Word, c: nat)
    requires c <= 1
    requires Pending(s, if c == 1 then CcAdc else CcAdd, SumOf(w, a, b, c), Sext(w, a), Sext(w, b))
    ensures Shows(s, AddFlags(w, a, b, c).0)
    ensures Low(w, s.cc.dst) == AddFlags(w, a, b, c).1
  {
    var e, r := AddFlags(w, a, b, c).0, AddFlags(w, a, b, c).1;
    LowOfReduced(w, r);
    SumWraps(w, a, b, c);
    ResultShows(s, w, Wrap(Sext(w, a) + Sext(w, b) + c), r, e);
    assert GetCF(s) == e.cf by {
      CarryFromOrder(w, a, b, c);
    }
    assert GetAF(s) == e.af.value by {
      DigitCarry(w, a, b, c);
    }
    assert GetOF(s) == e.of by {
      SumOverflow(w, a, b, c);
    }
  }

  lemma SubShows(s: Lazy, w: Width, a: Word, b: Word, c: nat)
    requires c <= 1
    requires Pending(s, if c == 1 then CcSbb else CcSub, DiffOf(w, a, b, c), Sext(w, a), Sext(w, b))
    ensures Shows(s, SubFlags(w, a, b, c).0)
    ensures Low(w, s.cc.dst) == SubFlags(w, a, b, c).1
  {
    var e, r := SubFlags(w, a, b, c).0, SubFlags(w, a, b, c).1;
    LowOfReduced(w, r);
    DiffWraps(w, a, b, c);
    ResultShows(s, w, Wrap(Sext(w, a) - Sext(w, b) - c), r, e);
    assert GetCF(s) == e.cf by {
      BorrowFromOrder(w, a, b, c);
    }
    assert GetAF(s) == e.af.value by {
      DigitCarry(w, a, b, c);
    }
    assert GetOF(s) == e.of by {
      DiffOverflow(w, a, b, c);
    }
  }

  lemma LowOfReduced(w: Width, r: Word)
    requires r < Modulus(w)
    ensures Low(w, r) == r
  {
  }

  lemma ParityShows(s: Lazy, x: Word)
    requires PF in s.cc.mask && s.cc.dst % 256 == x % 256
    ensures GetPF(s) == EvenParity((x % 256) as bv8)
  {
    TableIsEvenParity((x % 256) as bv8);
  }

  /** The flags that depend on the result alone. */
  lemma ResultShows(s: Lazy, w: Width, x: Word, r: Word, e: Eager)
    requires {PF, ZF, SF} <= s.cc.mask && s.cc.dst == Sext(w, x) && Low(w, x) == r
    requires e == Flags(w, r, e.cf, e.af, e.of) && Low(w, r) == r
    ensures GetPF(s) == e.pf && GetZF(s) == e.zf && GetSF(s) == e.sf
    ensures Low(w, s.cc.dst) == r
  {
    SextShowsResult(w, x);
    SextKeepsLowByte(w, x);
    ParityShows(s, r);
  }

  lemma NegDigit(s: Lazy, w: Width, a: Word)
    requires s.WellFormed() && s.cc.op == CcNeg(w) && s.cc.mask == ARITH
    requires s.cc.dst == Sext(w, Wrap(0 - Sext(w, a)))
    ensures Known(GetAF(s)) == SubFlags(w, 0, a, 0).0.af
  {
    NegLowDigit(w, a);
    LowOfReduced(w, 0);
    LowOfReduced(w, 1);
  }

  lemma NegSign(s: Lazy, w: Width, a: Word)
    requires s.WellFormed() && s.cc.op == CcNeg(w) && s.cc.mask == ARITH
    requires s.cc.dst == Sext(w, Wrap(0 - Sext(w, a)))
    ensures GetOF(s) == SubFlags(w, 0, a, 0).0.of
  {
    NegOverflow(w, a);
    LowOfReduced(w, 0);
    LowOfReduced(w, 1);
  }

  lemma NegResult(w: Width, a: Word)
    ensures
      var r := SubFlags(w, 0, a, 0).1;
      Low(w, Wrap(0 - Sext(w, a))) == r && Low(w, r) == r
  {
    LowOfReduced(w, 0);
    LowOfReduced(w, 1);
    LowOfReduced(w, SubFlags(w, 0, a, 0).1);
    DiffWraps(w, 0, a, 0);
  }

  lemma NegShows(s: Lazy, w: Width, a: Word)
    requires s.WellFormed() && s.cc.op == CcNeg(w) && s.cc.mask == ARITH
    requires s.cc.dst == Sext(w, Wrap(0 - Sext(w, a)))
    ensures Shows(s, SubFlags(w, 0, a, 0).0)
    ensures Low(w, s.cc.dst) == SubFlags(w, 0, a, 0).1
  {
    NegResult(w, a);
    ResultShows(s, w, Wrap(0 - Sext(w, a)), SubFlags(w, 0, a, 0).1, SubFlags(w, 0, a, 0).0);
    NegDigit(s, w, a);
    NegSign(s, w, a);
  }

  lemma IncDigit(s: Lazy, w: Width, a: Word)
    requires s.WellFormed() && s.cc.op == CcInc(w) && s.cc.mask == ARITH - {CF}
    requires s.cc.dst == Sext(w, Wrap(Sext(w, a) + 1))
    ensures Known(GetAF(s)) == AddFlags(w, a, 1, 0).0.af
  {
    IncLowDigit(w, a);
    LowOfReduced(w, 0);
    LowOfReduced(w, 1);
  }

  lemma IncSign(s: Lazy, w: Width, a: Word)
    requires s.WellFormed() && s.cc.op == CcInc(w) && s.cc.mask == ARITH - {CF}
    requires s.cc.dst == Sext(w, Wrap(Sext(w, a) + 1))
    ensures GetOF(s) == AddFlags(w, a, 1, 0).0.of
  {
    IncOverflow(w, a);
    LowOfReduced(w, 0);
    LowOfReduced(w, 1);
  }

  lemma IncResult(w: Width, a: Word)
    ensures
      var r := AddFlags(w, a, 1, 0).1;
      Low(w, Wrap(Sext(w, a) + 1)) == r && Low(w, r) == r
  {
    LowOfReduced(w, 0);
    LowOfReduced(w, 1);
    LowOfReduced(w, AddFlags(w, a, 1, 0).1);
    SumWraps(w, a, 1, 0);
  }

  lemma IncShows(s: Lazy, w: Width, a: Word)
    requires s.WellFormed() && s.cc.op == CcInc(w) && s.cc.mask == ARITH - {CF}
    requires s.cc.dst == Sext(w, Wrap(Sext(w, a) + 1))
    ensures Shows(s, AddFlags(w, a, 1, 0).0.(cf := GetCF(s)))
    ensures Low(w, s.cc.dst) == AddFlags(w, a, 1, 0).1
  {
    IncResult(w, a);
    ResultShows(s, w, Wrap(Sext(w, a) + 1), AddFlags(w, a, 1, 0).1, AddFlags(w, a, 1, 0).0);
    IncDigit(s, w, a);
    IncSign(s, w, a);
  }

  lemma DecDigit(s: Lazy, w: Width, a: Word)
    requires s.WellFormed() && s.cc.op == CcDec(w) && s.cc.mask == ARITH - {CF}
    requires s.cc.dst == Sext(w, Wrap(Sext(w, a) - 1))
    ensures Known(GetAF(s)) == SubFlags(w, a, 1, 0).0.af
  {
    DecLowDigit(w, a);
    LowOfReduced(w, 0);
    LowOfReduced(w, 1);
  }

  lemma DecSign(s: Lazy, w: Width, a: Word)
    requires s.WellFormed() && s.cc.op == CcDec(w) && s.cc.mask == ARITH - {CF}
    requires s.cc.dst == Sext(w, Wrap(Sext(w, a) - 1))
    ensures GetOF(s) == SubFlags(w, a, 1, 0).0.of
  {
    DecOverflow(w, a);
    LowOfReduced(w, 0);
    LowOfReduced(w, 1);
  }

  lemma DecResult(w: Width, a: Word)
    ensures
      var r := SubFlags(w, a, 1, 0).1;
      Low(w, Wrap(Sext(w, a) - 1)) == r && Low(w, r) == r
  {
    LowOfReduced(w, 0);
    LowOfReduced(w, 1);
    LowOfReduced(w, SubFlags(w, a, 1, 0).1);
    DiffWraps(w, a, 1, 0);
  }

  lemma DecShows(s: Lazy, w: Width, a: Word)
    requires s.WellFormed() && s.cc.op == CcDec(w) && s.cc.mask == ARITH - {CF}
    requires s.cc.dst == Sext(w, Wrap(Sext(w, a) - 1))
    ensures Shows(s, SubFlags(w, a, 1, 0).0.(cf := GetCF(s)))
    ensures Low(w, s.cc.dst) == SubFlags(w, a, 1, 0).1
  {
    DecResult(w, a);
    ResultShows(s, w, Wrap(Sext(w, a) - 1), SubFlags(w, a, 1, 0).1, SubFlags(w, a, 1, 0).0);
    DecDigit(s, w, a);
    DecSign(s, w, a);
  }

  lemma LogicShows(s: Lazy, w: Width, r: Word)
    requires s.WellFormed() && (s.cc.op.CcAnd? || s.cc.op.CcOr? || s.cc.op.CcXor?) && s.cc.mask == ARITH - {AF}
    requires s.cc.dst == Sext(w, r)
    ensures Shows(s, Flags(w, Low(w, r), false, Undefined, false))
    ensures Low(w, s.cc.dst) == Low(w, r)
  {
    LowOfReduced(w, Low(w, r));
    ResultShows(s, w, r, Low(w, r), Flags(w, Low(w, r), false, Undefined, false));
  }

  /** Working all flags out and dropping the pending computation changes no flag
      that can be read, and no other bit of the register. */
  lemma RefreshChangesNothing(s: Lazy)
    requires s.WellFormed()
    ensures
      var s' := Refresh(s).(cc := s.cc.(mask := {}));
      && s'.WellFormed()
      && GetCF(s') == GetCF(s) && GetPF(s') == GetPF(s) && GetAF(s') == GetAF(s)
      && GetZF(s') == GetZF(s) && GetSF(s') == GetSF(s) && GetOF(s') == GetOF(s)
      && s'.flags - ARITH == s.flags - ARITH
  {
  }

  /** Storing one flag in the register changes the reading of no other. */
  lemma SettingKeepsOthers(s: Lazy, on: bool, f: Flag)
    ensures
      var s' := s.(flags := SetFlag(s.flags, on, f));
      && (f != PF ==> GetPF(s') == GetPF(s)) && (f != AF ==> GetAF(s') == GetAF(s))
      && (f != ZF ==> GetZF(s') == GetZF(s)) && (f != SF ==> GetSF(s') == GetSF(s))
      && (f != OF ==> GetOF(s') == GetOF(s))
  {
  }

  /** The instruction's own result, in its low bits. */
  predicate StoresResult(s: Lazy, i: Ins, r: Word) {
    match i
    case Clc | Stc | Cmc | Sahf(_) | Lahf => true
    case _ => Low(i.w, s.cc.dst) == r
  }

  lemma SahfShows(s: Lazy, e: Eager, ah: set<Flag>)
    requires Shows(s, e)
    ensures Shows(Exec(s, Sahf(ah)), Execute(e, Sahf(ah)).0)
  {
    var s' := Exec(s, Sahf(ah));
    assert forall f | f in ARITH - {OF} :: f in s'.flags <==> f in ah;
    assert OF in s'.flags <==> OF in s.flags;
  }

  lemma CarryInstructionShows(s: Lazy, e: Eager, i: Ins)
    requires Shows(s, e)
    requires i.Clc? || i.Stc? || i.Cmc?
    ensures Shows(Exec(s, i), Execute(e, i).0)
  {
  }

  /** One instruction: if the lazy state showed the flags before, it shows the
      architecture's flags after, and the stored result is right too. */
  lemma ExecShows(s: Lazy, e: Eager, i: Ins)
    requires Shows(s, e)
    ensures Shows(Exec(s, i), Execute(e, i).0)
    ensures StoresResult(Exec(s, i), i, Execute(e, i).1)
  {
    var s' := Exec(s, i);
    match i
    case Adc(w, a, b) => AddShows(s', w, a, b, Carry(e.cf));
    case Sbb(w, a, b) => SubShows(s', w, a, b, Carry(e.cf));
    case Add(w, a, b) => AddShows(s', w, a, b, 0);
    case Sub(w, a, b) => SubShows(s', w, a, b, 0);
    case Neg(w, a) => NegShows(s', w, a);
    case Inc(w, a) => IncShows(s', w, a);
    case Dec(w, a) => DecShows(s', w, a);
    case Logic(op, w, a, b) => LogicShows(s', w, Bitwise(op, a, b));
    case Sahf(ah) => SahfShows(s, e, ah);
    case Lahf => RefreshChangesNothing(s);
    case _ => CarryInstructionShows(s, e, i);
  }

  function ExecAll(s: Lazy, code: seq<Ins>): (s': Lazy)
    requires s.WellFormed()
    ensures s'.WellFormed()
  {
    if code == [] then s else Exec(ExecAll(s, code[..|code| - 1]), code[|code| - 1])
  }

  function ExecuteAll(e: Eager, code: seq<Ins>): Eager {
    if code == [] then e else Execute(ExecuteAll(e, code[..|code| - 1]), code[|code| - 1]).0
  }

  /** Over every sequence of instructions, at every width, reading the flags
      lazily gives exactly the architecture's flags. */
  lemma {:induction false} RunShows(s: Lazy, e: Eager, code: seq<Ins>)
    requires Shows(s, e)
    ensures Shows(ExecAll(s, code), ExecuteAll(e, code))
  {
    if code != [] {
      var before := code[..|code| - 1];
      RunShows(s, e, before);
      ExecShows(ExecAll(s, before), ExecuteAll(e, before), code[|code| - 1]);
    }
  }

  /** The operand that AND, OR or XOR stores, bit by bit. */
  lemma LogicByBit(op: LogicOp, w: Width, a: Word, b: Word)
    ensures var r := Sext(w, Bitwise(op, a, b));
      && (op.And? ==> forall k: nat :: k < Bits(w) ==> (Bit(r, k) <==> Bit(a, k) && Bit(b, k)))
      && (op.Or? ==> forall k: nat :: k < Bits(w) ==> (Bit(r, k) <==> Bit(a, k) || Bit(b, k)))
      && (op.Xor? ==> forall k: nat :: k < Bits(w) ==> (Bit(r, k) <==> Bit(a, k) != Bit(b, k)))
  {
    hide Bit, Sext, Bitwise;
    var x := Bitwise(op, a, b);
    forall k: nat | k < Bits(w)
      ensures Bit(Sext(w, x), k) == Bit(x, k)
    {
      SextByBit(w, x, k);
    }
    forall k: nat | k < Bits(w)
      ensures op.And? ==> (Bit(x, k) <==> Bit(a, k) && Bit(b, k))
      ensures op.Or? ==> (Bit(x, k) <==> Bit(a, k) || Bit(b, k))
      ensures op.Xor? ==> (Bit(x, k) <==> Bit(a, k) != Bit(b, k))
    {
      BitwiseByBit(op, a, b, k);
    }
  }

  lemma BitwiseIs(op: LogicOp, a: Word, b: Word, n: nat)
    requires n == 32
    ensures Bitwise(op, a, b) == BitwiseBits(op, a, b, n)
  {
  }

  lemma {:induction false} NoBits(op: LogicOp, n: nat)
    ensures BitwiseBits(op, 0, 0, n) == 0
  {
    if n > 0 {
      NoBits(op, n - 1);
    }
  }

  lemma FourBits(op: LogicOp, n: nat)
    requires n >= 4
    ensures BitwiseBits(op, 12, 10, n) == match op case And => 8 case Or => 14 case Xor => 6
  {
    NoBits(op, n - 4);
    assert BitwiseBits(op, 1, 1, n - 3) == BitOf(op, true, true) + 2 * BitwiseBits(op, 0, 0, n - 4);
    assert BitwiseBits(op, 3, 2, n - 2) == BitOf(op, true, false) + 2 * BitwiseBits(op, 1, 1, n - 3);
    assert BitwiseBits(op, 6, 5, n - 1) == BitOf(op, false, true) + 2 * BitwiseBits(op, 3, 2, n - 2);
  }

  /** The four rows of each truth table: 12 AND 10 is 8, 12 OR 10 is 14, 12 XOR 10
      is 6. */
  lemma LogicExample(s: Lazy, w: Width)
    requires s.WellFormed()
    ensures Exec(s, Logic(And, w, 12, 10)).cc.dst == 8
    ensures Exec(s, Logic(Or, w, 12, 10)).cc.dst == 14
    ensures Exec(s, Logic(Xor, w, 12, 10)).cc.dst == 6
  {
    var n := 32;
    hide Bitwise, BitwiseBits;
    BitwiseIs(And, 12, 10, n);
    BitwiseIs(Or, 12, 10, n);
    BitwiseIs(Xor, 12, 10, n);
    FourBits(And, n);
    FourBits(Or, n);
    FourBits(Xor, n);
  }

  // --------------------------------------------------- the interpreter's state

  /** The part of the CPU these instructions update. Each method is one macro. */
  class FlagUnit {
    var flags: set<Flag>
    var flagsMask: set<Flag>
    var cc: Cc

    function Abs(): Lazy
      reads this
    {
      Lazy(flags, flagsMask, cc)
    }

    /** ADC and SBB; `add` chooses. Returns the operand to store. */
    method AddOrSubWithCarry(add: bool, w: Width, a: Word, b: Word) returns (r: Word)
      requires Abs().WellFormed()
      modifies `cc
      ensures Abs() == Exec(old(Abs()), if add then Adc(w, a, b) else Sbb(w, a, b))
      ensures r == cc.dst
    {
      hide Sext;
      var cf := GetCF(Abs());
      var src1, src2 := Sext(w, a), Sext(w, b);
      if add {
        cc := Cc(if cf then CcAdc else CcAdd, Sext(w, Wrap(src1 + src2 + Carry(cf))), src1, src2, ARITH);
      } else {
        cc := Cc(if cf then CcSbb else CcSub, Sext(w, Wrap(src1 - src2 - Carry(cf))), src1, src2, ARITH);
      }
      r := cc.dst;
    }

    /** ADD, SUB and CMP. */
    method AddOrSub(add: bool, w: Width, a: Word, b: Word) returns (r: Word)
      requires Abs().WellFormed()
      modifies `cc
      ensures Abs() == Exec(old(Abs()), if add then Add(w, a, b) else Sub(w, a, b))
      ensures r == cc.dst
    {
      var src1, src2 := Sext(w, a), Sext(w, b);
      if add {
        cc := Cc(CcAdd, Sext(w, Wrap((src1 as int) + src2)), src1, src2, ARITH);
      } else {
        cc := Cc(CcSub, Sext(w, Wrap((src1 as int) - src2)), src1, src2, ARITH);
      }
      r := cc.dst;
    }

    /** INC and DEC keep the carry: it moves to the register first. */
    method IncOrDec(inc: bool, w: Width, a: Word) returns (r: Word)
      requires Abs().WellFormed()
      modifies `cc, `flags
      ensures Abs() == Exec(old(Abs()), if inc then Inc(w, a) else Dec(w, a))
      ensures r == cc.dst
    {
      var cf := GetCF(Abs());
      if inc {
        cc := cc.(dst := Sext(w, Wrap(Sext(w, a) + 1)), op := CcInc(w));
      } else {
        cc := cc.(dst := Sext(w, Wrap(Sext(w, a) - 1)), op := CcDec(w));
      }
      flags := SetFlag(flags, cf, CF);
      cc := cc.(mask := ARITH - {CF});
      r := cc.dst;
    }

    method Negate(w: Width, a: Word) returns (r: Word)
      requires Abs().WellFormed()
      modifies `cc
      ensures Abs() == Exec(old(Abs()), Neg(w, a))
      ensures r == cc.dst
    {
      cc := cc.(src1 := Sext(w, a));
      cc := cc.(dst := Sext(w, Wrap(0 - cc.src1)), op := CcNeg(w), mask := ARITH);
      r := cc.dst;
    }

    /** AND, OR, XOR and TEST. */
    method LogicInstruction(op: LogicOp, w: Width, a: Word, b: Word) returns (r: Word)
      requires Abs().WellFormed()
      modifies `cc
      ensures Abs() == Exec(old(Abs()), Logic(op, w, a, b))
      ensures r == cc.dst
      ensures op.And? ==> forall k: nat :: k < Bits(w) ==> (Bit(r, k) <==> Bit(a, k) && Bit(b, k))
      ensures op.Or? ==> forall k: nat :: k < Bits(w) ==> (Bit(r, k) <==> Bit(a, k) || Bit(b, k))
      ensures op.Xor? ==> forall k: nat :: k < Bits(w) ==> (Bit(r, k) <==> Bit(a, k) != Bit(b, k))
    {
      LogicByBit(op, w, a, b);
      hide Bit, Bits, Sext, Bitwise;
      cc := cc.(dst := Sext(w, Bitwise(op, a, b)));
      cc := cc.(op := match op case And => CcAnd case Or => CcOr case Xor => CcXor);
      cc := cc.(mask := ARITH - {AF});
      r := cc.dst;
    }

    /** CLC, STC and CMC. */
    method SetCarry(i: Ins)
      requires Abs().WellFormed() && (i.Clc? || i.Stc? || i.Cmc?)
      modifies `cc, `flags
      ensures Abs() == Exec(old(Abs()), i)
    {
      var cf := if i.Clc? then false else if i.Stc? then true else !GetCF(Abs());
      cc := cc.(mask := cc.mask - {CF});
      flags := SetFlag(flags, cf, CF);
    }

    method StoreAh(ah: set<Flag>)
      requires Abs().WellFormed()
      modifies `cc, `flags
      ensures Abs() == Exec(old(Abs()), Sahf(ah))
    {
      cc := cc.(mask := cc.mask * {OF});
      flags := (flags - LOW_BYTE) + (ah * LOW_BYTE);
      flags := flags * flagsMask;
      flags := flags + {Other(1)};
    }

    /** refresh_flags followed by dropping what was pending, as LAHF does. */
    method LoadAh() returns (ah: set<Flag>)
      requires Abs().WellFormed()
      modifies `cc, `flags
      ensures Abs() == Exec(old(Abs()), Lahf)
      ensures ah == flags * LOW_BYTE
    {
      ghost var s := Abs();
      flags := SetFlag(flags, GetCF(Abs()), CF);
      SettingKeepsOthers(s, GetCF(s), CF);
      flags := SetFlag(flags, GetPF(Abs()), PF);
      SettingKeepsOthers(s.(flags := SetFlag(s.flags, GetCF(s), CF)), GetPF(s), PF);
      ghost var s2 := Abs();
      flags := SetFlag(flags, GetAF(Abs()), AF);
      SettingKeepsOthers(s2, GetAF(s), AF);
      ghost var s3 := Abs();
      flags := SetFlag(flags, GetZF(Abs()), ZF);
      SettingKeepsOthers(s3, GetZF(s), ZF);
      ghost var s4 := Abs();
      flags := SetFlag(flags, GetSF(Abs()), SF);
      SettingKeepsOthers(s4, GetSF(s), SF);
      flags := SetFlag(flags, GetOF(Abs()), OF);
      cc := cc.(mask := {});
      ah := flags * LOW_BYTE;
    }
  }
}
