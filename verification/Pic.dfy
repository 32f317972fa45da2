/** The cascaded pair of 8259 interrupt controllers and the CPU's request flag.

    A register that the chip keeps as a bit mask is the set of its lines.
    Priorities are counted from the line that currently has the highest one:
    rank 0 is the most urgent. */
module Pic {

  type Line = l: nat | l < 8

  type Byte = b: nat | b < 256

  predicate HasBit(val: Byte, k: Line) {
    match k
    case 0 => val % 2 == 1
    case 1 => val / 2 % 2 == 1
    case 2 => val / 4 % 2 == 1
    case 3 => val / 8 % 2 == 1
    case 4 => val / 16 % 2 == 1
    case 5 => val / 32 % 2 == 1
    case 6 => val / 64 % 2 == 1
    case _ => val / 128 == 1
  }

  /** No line wants service. */
  const NO_IRQ: int := -1

  /** The master's input that the slave drives. */
  const CASCADE: Line := 2

  datatype Regs = Regs(
    lastIrr: set<Line>,
    irr: set<Line>,
    imr: set<Line>,
    isr: set<Line>,
    priorityAdd: Line,
    irqBase: Byte,
    readIsr: bool,
    poll: bool,
    specialMask: bool,
    initState: nat,
    autoEoi: bool,
    rotateOnAutoEoi: bool,
    specialFullyNested: bool,
    init4: bool,
    singleMode: bool)

  const RESET: Regs :=
    Regs({}, {}, {}, {}, 0, 0, false, false, false, 0, false, false, false, false, false)

  function Wrap(x: nat): Line
    requires x < 16
  {
    if x >= 8 then x - 8 else x
  }

  /** How far a line is from the most urgent one. */
  function Rank(line: Line, add: Line): Line {
    if line >= add then line - add else line + 8 - add
  }

  /** The least rank, from `p` on, of a line in `mask`; 8 if there is none. */
  function PriorityFrom(mask: set<Line>, add: Line, p: nat): (r: nat)
    requires p <= 8
    ensures p <= r <= 8
    ensures r < 8 ==> Wrap(r + add) in mask
    decreases 8 - p
  {
    if p == 8 then 8
    else if Wrap(p + add) in mask then p
    else PriorityFrom(mask, add, p + 1)
  }

  function Priority(mask: set<Line>, add: Line): (r: nat)
    ensures r <= 8
    ensures r < 8 ==> Wrap(r + add) in mask && Rank(Wrap(r + add), add) == r
  {
    PriorityFrom(mask, add, 0)
  }

  lemma {:induction false} PriorityFromIsLeast(mask: set<Line>, add: Line, p: nat, line: Line)
    requires p <= Rank(line, add) && line in mask
    ensures PriorityFrom(mask, add, p) <= Rank(line, add)
    decreases 8 - p
  {
    if p < Rank(line, add) {
      PriorityFromIsLeast(mask, add, p + 1, line);
    } else {
      assert Wrap(p + add) == line;
    }
  }

  /** `Priority` is the least rank among the lines of the mask. */
  lemma PriorityIsLeast(mask: set<Line>, add: Line, line: Line)
    requires line in mask
    ensures Priority(mask, add) <= Rank(line, add)
  {
    PriorityFromIsLeast(mask, add, 0, line);
  }

  lemma PriorityOfNone(add: Line)
    ensures Priority({}, add) == 8
  {
  }

  /** The in-service lines that hold back less urgent requests. */
  function Blocking(s: Regs, isMaster: bool): set<Line> {
    var mask := if s.specialMask then s.isr - s.imr else s.isr;
    if s.specialFullyNested && isMaster then mask - {CASCADE} else mask
  }

  /** The line the controller wants served, or `NO_IRQ`. */
  function GetIrq(s: Regs, isMaster: bool): (line: int)
    ensures line == NO_IRQ || (0 <= line < 8 && line in s.irr - s.imr)
  {
    var p := Priority(s.irr - s.imr, s.priorityAdd);
    if p < 8 && p < Priority(Blocking(s, isMaster), s.priorityAdd) then Wrap(p + s.priorityAdd)
    else NO_IRQ
  }

  /** The urgency of a line counts up from the line `priorityAdd`, round the eight. */
  lemma RankIs(line: Line, add: Line)
    ensures Rank(line, add) == (line + 8 - add) % 8
  {
  }

  /** A line in service holds requests back, unless special mask mode looks only at
      those not masked, or, on the master in special fully nested mode, it is line 2. */
  lemma BlockingIs(s: Regs, isMaster: bool, b: Line)
    ensures
      b in Blocking(s, isMaster) <==>
      b in s.isr && !(s.specialMask && b in s.imr) && !(isMaster && s.specialFullyNested && b == 2)
  {
  }

  /** A line is chosen exactly when some unmasked request is more urgent than
      everything that blocks, and it is then the most urgent such request. */
  lemma GetIrqIsMostUrgent(s: Regs, isMaster: bool, other: Line)
    ensures
      var line, add := GetIrq(s, isMaster), s.priorityAdd;
      && (line != -1 ==> 0 <= line < 8 && line in s.irr && line !in s.imr)
      && (line != -1 && other in s.irr && other !in s.imr ==> (line + 8 - add) % 8 <= (other + 8 - add) % 8)
      && (line != -1 && other in Blocking(s, isMaster) ==> (line + 8 - add) % 8 < (other + 8 - add) % 8)
      && (line == -1 && other in s.irr && other !in s.imr ==>
            exists b: Line :: b in Blocking(s, isMaster) && (b + 8 - add) % 8 <= (other + 8 - add) % 8)
  {
    hide PriorityFrom;
    forall l: Line
      ensures Rank(l, s.priorityAdd) == (l + 8 - s.priorityAdd) % 8
    {
      RankIs(l, s.priorityAdd);
    }
    if other in s.irr - s.imr {
      PriorityIsLeast(s.irr - s.imr, s.priorityAdd, other);
    }
    if other in Blocking(s, isMaster) {
      PriorityIsLeast(Blocking(s, isMaster), s.priorityAdd, other);
    }
    var b := Priority(Blocking(s, isMaster), s.priorityAdd);
    assert b < 8 ==> Wrap(b + s.priorityAdd) in Blocking(s, isMaster);
  }

  /** A rising edge on an input sets the request; a low level re-arms it. */
  function SetLine(s: Regs, line: Line, level: bool): Regs {
    if level then
      s.(irr := if line !in s.lastIrr then s.irr + {line} else s.irr,
         lastIrr := s.lastIrr + {line})
    else s.(lastIrr := s.lastIrr - {line})
  }

  /** The pair, the CPU's interrupt flag, and whether the emulator gave up. */
  datatype State = State(master: Regs, slave: Regs, intr: bool, aborted: bool)

  function Update(s: State): State {
    var m := if GetIrq(s.slave, false) != NO_IRQ
             then SetLine(SetLine(s.master, CASCADE, true), CASCADE, false) else s.master;
    s.(master := m, intr := s.intr || GetIrq(m, true) != NO_IRQ)
  }

  function IntAck(s: Regs, line: Line): Regs {
    if s.autoEoi then
      s.(priorityAdd := if s.rotateOnAutoEoi then Wrap(line + 1) else s.priorityAdd, irr := s.irr - {line})
    else s.(isr := s.isr + {line}, irr := s.irr - {line})
  }

  /** The state after the CPU takes an interrupt, and the vector it is given. */
  function Acknowledge(s: State): (State, int) {
    var line := GetIrq(s.master, true);
    if line == NO_IRQ then
      (Update(s.(intr := false)), s.master.irqBase + 7)
    else if line != CASCADE then
      (Update(s.(intr := false, master := IntAck(s.master, line))), s.master.irqBase + line)
    else
      var line2 := GetIrq(s.slave, false);
      var s1 := s.(intr := false, master := IntAck(s.master, line));
      if line2 == NO_IRQ then (Update(s1), s.slave.irqBase + 7)
      else (Update(s1.(slave := IntAck(s.slave, line2))), s.slave.irqBase + line2)
  }

  function LinesOf(val: Byte): set<Line> {
    set l: Line | HasBit(val, l)
  }

  /** The effect of a port write on one controller, and whether the pair must
      then look for work. */
  function WriteRegs(s: Regs, data: bool, val: Byte): (Regs, bool) {
    if data then WriteData(s, val)
    else if HasBit(val, 4) then
      (RESET.(initState := 1, init4 := HasBit(val, 0), singleMode := HasBit(val, 1)), false)
    else if HasBit(val, 3) then (WriteMode(s, val), false)
    else WriteCommand(s, val / 32, val % 8)
  }

  /** Operation control word 3. */
  function WriteMode(s: Regs, val: Byte): Regs {
    s.(poll := HasBit(val, 2) || s.poll,
       readIsr := if HasBit(val, 1) then HasBit(val, 0) else s.readIsr,
       specialMask := if HasBit(val, 6) then HasBit(val, 5) else s.specialMask)
  }

  /** The mask register, or the initialisation word that is due. */
  function WriteData(s: Regs, val: Byte): (Regs, bool) {
    if s.initState == 0 then (s.(imr := LinesOf(val)), true)
    else if s.initState == 1 then
      (s.(irqBase := val - val % 8, initState := if s.singleMode then (if s.init4 then 3 else 0) else 2), false)
    else if s.initState == 2 then (s.(initState := if s.init4 then 3 else 0), false)
    else if s.initState == 3 then
      (s.(specialFullyNested := HasBit(val, 4), autoEoi := HasBit(val, 1), initState := 0), false)
    else (s, false)
  }

  /** Command `cmd` of operation control word 2, naming line `named`. */
  function WriteCommand(s: Regs, cmd: nat, named: Line): (Regs, bool) {
    if cmd == 0 || cmd == 4 then (s.(rotateOnAutoEoi := cmd == 4), false)
    else if cmd == 1 || cmd == 5 then
      var p := Priority(s.isr, s.priorityAdd);
      if p == 8 then (s, false)
      else
        var line := Wrap(p + s.priorityAdd);
        (s.(isr := s.isr - {line}, priorityAdd := if cmd == 5 then Wrap(line + 1) else s.priorityAdd), true)
    else if cmd == 3 then (s.(isr := s.isr - {named}), true)
    else if cmd == 6 then (s.(priorityAdd := Wrap(named + 1)), true)
    else if cmd == 7 then (s.(isr := s.isr - {named}, priorityAdd := Wrap(named + 1)), true)
    else (s, false)
  }

  /** The effect of a polled read on the state, and the line it reports. */
  function PollRead(s: State, onMaster: bool): (State, int) {
    var line := GetIrq(if onMaster then s.master else s.slave, onMaster);
    if line == NO_IRQ then (Update(s), 7)
    else if onMaster then
      var s1 := s.(master := s.master.(irr := s.master.irr - {line}, isr := s.master.isr - {line}));
      (if line != CASCADE then Update(s1) else s1, line)
    else
      var s1 := s.(master := s.master.(irr := s.master.irr - {CASCADE}, isr := s.master.isr - {CASCADE}),
                   slave := s.slave.(irr := s.slave.irr - {line}, isr := s.slave.isr - {line}));
      (Update(s1), line)
  }

  /** Everything that can happen to the pair: an input changes, the CPU takes an
      interrupt, or the guest writes or reads a port. */
  datatype Op =
    | SetIrq(onMaster: bool, line: Line, level: bool)
    | TakeInterrupt
    | WritePort(onMaster: bool, data: bool, val: Byte)
    | ReadPort(onMaster: bool, data: bool)

  function Step(s: State, op: Op): State {
    if s.aborted then s
    else match op
      case SetIrq(onMaster, line, level) =>
        Update(if onMaster then s.(master := SetLine(s.master, line, level))
               else s.(slave := SetLine(s.slave, line, level)))
      case TakeInterrupt => Acknowledge(s).0
      case WritePort(onMaster, data, val) =>
        var (regs, update) := WriteRegs(if onMaster then s.master else s.slave, data, val);
        var s1 := if onMaster then s.(master := regs) else s.(slave := regs);
        var s2 := s1.(aborted := !data && HasBit(val, 4) && HasBit(val, 3));
        if update then Update(s2) else s2
      case ReadPort(onMaster, data) =>
        if !(if onMaster then s.master else s.slave).poll then s
        else
          var s1 := PollRead(s, onMaster).0;
          if onMaster then s1.(master := s1.master.(poll := false)) else s1.(slave := s1.slave.(poll := false))
  }

  // ------------------------------------------------------- ports, edges, vectors

  /** A mask write masks line k exactly if bit k is set. */
  lemma MaskIsBits(s: Regs, val: Byte, k: Line)
    requires s.initState == 0
    ensures
      var (s', update) := WriteRegs(s, true, val);
      s' == s.(imr := s'.imr) && update && (k in s'.imr <==> val / Weight(k) % 2 == 1)
  {
  }

  function Weight(k: Line): nat {
    [1, 2, 4, 8, 16, 32, 64, 128][k]
  }

  /** What the mode words do, by their numbers: which register to read, and polling, */
  lemma ReadWords(s: Regs)
    ensures WriteRegs(s, false, 0x0a) == (s.(readIsr := false), false) && WriteRegs(s, false, 0x0b) == (s.(readIsr := true), false)
    ensures WriteRegs(s, false, 0x0c) == (s.(poll := true), false)
  {
  }

  /** and special mask mode on and off. */
  lemma MaskModeWords(s: Regs)
    ensures WriteRegs(s, false, 0x68) == (s.(specialMask := true), false) && WriteRegs(s, false, 0x48) == (s.(specialMask := false), false)
  {
  }

  /** Rotation on automatic end of interrupt; 0x40 does nothing. */
  lemma RotationWords(s: Regs)
    ensures WriteRegs(s, false, 0x80) == (s.(rotateOnAutoEoi := true), false) && WriteRegs(s, false, 0x00) == (s.(rotateOnAutoEoi := false), false)
    ensures WriteRegs(s, false, 0x40) == (s, false)
  {
  }

  /** The ends of interrupt that name a line (0x60 to 0x67), that set the priority
      (0xC0 to 0xC7), and that do both (0xE0 to 0xE7): the named line leaves service
      or becomes the least urgent, whatever the priorities were. */
  lemma NamedWords(s: Regs, k: Line)
    ensures WriteRegs(s, false, 0x60 + k) == (s.(isr := s.isr - {k}), true)
    ensures WriteRegs(s, false, 0xc0 + k) == (s.(priorityAdd := (k + 1) % 8), true)
    ensures WriteRegs(s, false, 0xe0 + k) == (s.(isr := s.isr - {k}, priorityAdd := (k + 1) % 8), true)
    ensures (k + 8 - (k + 1) % 8) % 8 == 7
  {
    assert (0x60 + k) / 32 == 3 && (0xc0 + k) / 32 == 6 && (0xe0 + k) / 32 == 7;
    assert (0x60 + k) % 8 == k && (0xc0 + k) % 8 == k && (0xe0 + k) % 8 == k;
    assert (0x60 + k) / 8 % 2 == 0 && (0x60 + k) / 16 % 2 == 0;
    assert (0xc0 + k) / 8 % 2 == 0 && (0xc0 + k) / 16 % 2 == 0;
    assert (0xe0 + k) / 8 % 2 == 0 && (0xe0 + k) / 16 % 2 == 0;
  }

  /** The non-specific end of interrupt (0x20) retires the most urgent line in
      service, if there is one; the rotating one (0xA0) also makes it the least
      urgent. */
  lemma EndWords(s: Regs, line: Line)
    requires line in s.isr
    requires forall other: Line :: other in s.isr ==> (line + 8 - s.priorityAdd) % 8 <= (other + 8 - s.priorityAdd) % 8
    ensures WriteRegs(s, false, 0x20) == (s.(isr := s.isr - {line}), true)
    ensures WriteRegs(s, false, 0xa0) == (s.(isr := s.isr - {line}, priorityAdd := (line + 1) % 8), true)
  {
    hide WriteCommand, WriteData, WriteMode;
    EndCommand(s, line, 1);
    EndCommand(s, line, 5);
  }

  lemma EndCommand(s: Regs, line: Line, cmd: nat)
    requires cmd == 1 || cmd == 5
    requires line in s.isr
    requires forall other: Line :: other in s.isr ==> (line + 8 - s.priorityAdd) % 8 <= (other + 8 - s.priorityAdd) % 8
    ensures WriteCommand(s, cmd, 0) == (s.(isr := s.isr - {line}, priorityAdd := if cmd == 5 then (line + 1) % 8 else s.priorityAdd), true)
  {
    hide PriorityFrom, Rank;
    MostUrgentIs(s.isr, s.priorityAdd, line);
    hide Priority;
    var next := Wrap(line + 1);
    assert next == (line + 1) % 8;
  }

  lemma MostUrgentIs(mask: set<Line>, add: Line, line: Line)
    requires line in mask && forall other: Line :: other in mask ==> (line + 8 - add) % 8 <= (other + 8 - add) % 8
    ensures Priority(mask, add) < 8 && Wrap(Priority(mask, add) + add) == line
  {
    hide PriorityFrom;
    PriorityIsLeast(mask, add, line);
    var top := Wrap(Priority(mask, add) + add);
    RankIs(line, add);
    RankIs(top, add);
    assert top in mask;
  }

  lemma EndOfNothing(s: Regs)
    requires s.isr == {}
    ensures WriteRegs(s, false, 0x20) == (s, false) && WriteRegs(s, false, 0xa0) == (s, false)
  {
    PriorityOfNone(s.priorityAdd);
  }

  /** The initialisation words: the first resets the controller; then come the base,
      rounded down to eight vectors, the cascade word unless the controller is
      single, and the modes if the first word announced them. */
  lemma InitWords(s: Regs, val: Byte)
    ensures
      val / 16 % 2 == 1 ==>
        var (s', update) := WriteRegs(s, false, val);
        && !update && s' == s'.(lastIrr := {}, irr := {}, imr := {}, isr := {}, priorityAdd := 0, irqBase := 0, readIsr := false)
        && s' == s'.(poll := false, specialMask := false, initState := 1, autoEoi := false, rotateOnAutoEoi := false, specialFullyNested := false)
        && (s'.init4 <==> val % 2 == 1) && (s'.singleMode <==> val / 2 % 2 == 1)
    ensures
      s.initState == 1 ==>
        WriteRegs(s, true, val) == (s.(irqBase := val - val % 8, initState := if !s.singleMode then 2 else if s.init4 then 3 else 0), false)
    ensures s.initState == 2 ==> WriteRegs(s, true, val) == (s.(initState := if s.init4 then 3 else 0), false)
    ensures
      s.initState == 3 ==>
        WriteRegs(s, true, val) == (s.(specialFullyNested := val / 16 % 2 == 1, autoEoi := val / 2 % 2 == 1, initState := 0), false)
  {
  }

  /** A line asks once for each rising edge: held high after it was taken it asks for
      nothing, and after going low it asks again; other lines are not affected. */
  lemma OneRequestPerEdge(s: Regs, l: Line)
    ensures l !in s.lastIrr ==> l in SetLine(s, l, true).irr
    ensures SetLine(s, l, true).irr - {l} == s.irr - {l} && SetLine(s, l, false).irr == s.irr
    ensures l !in SetLine(IntAck(SetLine(s, l, true), l), l, true).irr
    ensures l in SetLine(SetLine(IntAck(SetLine(s, l, true), l), l, false), l, true).irr
  {
  }

  /** A line taken leaves the requests and is in service, or, with automatic end of
      interrupt, in service never, and with rotation the least urgent at once. */
  lemma TakenLine(s: Regs, l: Line)
    ensures IntAck(s, l).irr == s.irr - {l}
    ensures IntAck(s, l).isr == if s.autoEoi then s.isr else s.isr + {l}
    ensures IntAck(s, l).priorityAdd == if s.autoEoi && s.rotateOnAutoEoi then (l + 1) % 8 else s.priorityAdd
  {
  }

  /** A request of the slave is one on line 2 of the master, and the CPU is told when
      the master wants a line served; nothing else changes. */
  lemma UpdateTells(s: State)
    requires 2 !in s.master.lastIrr
    ensures
      var s', wants := Update(s), GetIrq(s.slave, false) != -1;
      && s'.slave == s.slave && s'.aborted == s.aborted
      && s'.master == s.master.(irr := if wants then s.master.irr + {2} else s.master.irr)
      && (s'.intr <==> s.intr || GetIrq(s'.master, true) != -1)
  {
    assert s.master.lastIrr + {CASCADE} - {CASCADE} == s.master.lastIrr;
  }

  /** The vector is the base of the controller that owns the line served plus the
      line, and a spurious interrupt is line 7 of the controller it happened on. */
  lemma VectorIs(s: State)
    ensures
      var line, line2, vector := GetIrq(s.master, true), GetIrq(s.slave, false), Acknowledge(s).1;
      && (line == -1 ==> vector == s.master.irqBase + 7)
      && (line != -1 && line != 2 ==> vector == s.master.irqBase + line)
      && (line == 2 && line2 != -1 ==> vector == s.slave.irqBase + line2)
      && (line == 2 && line2 == -1 ==> vector == s.slave.irqBase + 7)
  {
  }

  // ------------------------------------------------------ no lost interrupt

  /** If the master would deliver a line the CPU has been told; if the slave
      would, the master has its request. */
  predicate NothingLost(s: State) {
    && (GetIrq(s.master, true) != NO_IRQ ==> s.intr)
    && (GetIrq(s.slave, false) != NO_IRQ ==> CASCADE in s.master.irr)
  }

  /** No special mask or special fully nested mode is on, and the cascade input
      is low, as it is between updates. */
  predicate Plain(s: State) {
    && !s.master.specialMask && !s.slave.specialMask
    && !s.master.specialFullyNested && !s.slave.specialFullyNested
    && CASCADE !in s.master.lastIrr
  }

  /** Operations that do not turn on those modes and do not drive the cascade
      input from outside. */
  predicate PlainOp(s: State, op: Op) {
    match op
    case SetIrq(onMaster, line, level) => !(onMaster && line == CASCADE)
    case WritePort(onMaster, data, val) =>
      if data then (if onMaster then s.master else s.slave).initState == 3 ==> !HasBit(val, 4)
      else !HasBit(val, 4) && HasBit(val, 3) ==> !(HasBit(val, 6) && HasBit(val, 5))
    case _ => true
  }

  /** The two operations that take the slave's request away from the master
      without looking for work again: starting the master's initialisation, and
      a polled read of the master that reports the cascade line. */
  predicate DropsCascade(s: State, op: Op) {
    && GetIrq(s.slave, false) != NO_IRQ
    && match op
       case WritePort(onMaster, data, val) => onMaster && !data && HasBit(val, 4)
       case ReadPort(onMaster, data) => onMaster && s.master.poll && GetIrq(s.master, true) == CASCADE
       case _ => false
  }

  lemma UpdateLosesNothing(s: State)
    requires Plain(s)
    ensures Plain(Update(s)) && NothingLost(Update(s))
  {
  }

  /** A write without a following update either resets the controller, which
      then wants nothing, or changes nothing that decides what it wants. */
  lemma WriteKeepsWants(s: Regs, isMaster: bool, data: bool, val: Byte)
    requires !s.specialMask && !s.specialFullyNested
    requires if data then s.initState == 3 ==> !HasBit(val, 4)
             else !HasBit(val, 4) && HasBit(val, 3) ==> !(HasBit(val, 6) && HasBit(val, 5))
    ensures
      var (s', update) := WriteRegs(s, data, val);
      && !s'.specialMask && !s'.specialFullyNested && s'.lastIrr <= s.lastIrr
      && (!update ==>
            if !data && HasBit(val, 4) then s'.irr == {} && GetIrq(s', isMaster) == NO_IRQ
            else s'.irr == s.irr && GetIrq(s', isMaster) == GetIrq(s, isMaster))
  {
    var (s', update) := WriteRegs(s, data, val);
    if !data && HasBit(val, 4) {
      PriorityOfNone(0);
      assert s'.irr - s'.imr == {};
    } else if !data && !HasBit(val, 3) {
      CommandKeepsModes(s, val / 32, val % 8);
      SameWants(s, s', isMaster);
    } else if !data {
      SameWants(s, WriteMode(s, val), isMaster);
    } else {
      WriteDataKeepsWants(s, isMaster, val);
    }
  }

  lemma WriteDataKeepsWants(s: Regs, isMaster: bool, val: Byte)
    requires !s.specialMask && !s.specialFullyNested
    requires s.initState == 3 ==> !HasBit(val, 4)
    ensures
      var (s', update) := WriteData(s, val);
      && !s'.specialMask && !s'.specialFullyNested && s'.lastIrr == s.lastIrr
      && (!update ==> s'.irr == s.irr && GetIrq(s', isMaster) == GetIrq(s, isMaster))
  {
    var s' := WriteData(s, val).0;
    if s.initState != 0 {
      assert s' == s.(irqBase := s'.irqBase, initState := s'.initState, autoEoi := s'.autoEoi);
      SameWants(s, s', isMaster);
    }
  }

  /** What a controller wants depends on these registers and modes only. */
  lemma SameWants(s: Regs, s': Regs, isMaster: bool)
    ensures s'.irr == s.irr && s'.imr == s.imr && s'.isr == s.isr && s'.priorityAdd == s.priorityAdd &&
            s'.specialMask == s.specialMask && s'.specialFullyNested == s.specialFullyNested
            ==> GetIrq(s', isMaster) == GetIrq(s, isMaster)
  {
  }

  lemma CommandKeepsModes(s: Regs, cmd: nat, named: Line)
    ensures
      var (s', update) := WriteCommand(s, cmd, named);
      && s' == s.(isr := s'.isr, priorityAdd := s'.priorityAdd, rotateOnAutoEoi := s'.rotateOnAutoEoi)
      && (!update ==> s' == s.(rotateOnAutoEoi := s'.rotateOnAutoEoi))
  {
    hide Rank, PriorityFrom, Priority, Wrap;
    if cmd == 1 || cmd == 5 {
      var p := Priority(s.isr, s.priorityAdd);
      if p < 8 {
        assert WriteCommand(s, cmd, named).1;
      }
    }
  }

  lemma WritePortLosesNothingIff(s: State, op: Op)
    requires op.WritePort?
    requires Plain(s) && PlainOp(s, op) && NothingLost(s) && !s.aborted
    ensures Plain(Step(s, op))
    ensures NothingLost(Step(s, op)) <==> !DropsCascade(s, op)
  {
    var regs := if op.onMaster then s.master else s.slave;
    WriteKeepsWants(regs, op.onMaster, op.data, op.val);
    var (regs', update) := WriteRegs(regs, op.data, op.val);
    var s1 := if op.onMaster then s.(master := regs') else s.(slave := regs');
    var s2 := s1.(aborted := !op.data && HasBit(op.val, 4) && HasBit(op.val, 3));
    UpdateLosesNothing(s2);
    assert update ==> op.data || !HasBit(op.val, 4);
  }

  lemma AcknowledgeLosesNothing(s: State)
    requires Plain(s)
    ensures Plain(Acknowledge(s).0) && NothingLost(Acknowledge(s).0)
  {
    var line := GetIrq(s.master, true);
    var line2 := GetIrq(s.slave, false);
    var s1 := if line == NO_IRQ then s else s.(master := IntAck(s.master, line));
    var s2 := if line == CASCADE && line2 != NO_IRQ then s1.(slave := IntAck(s1.slave, line2)) else s1;
    UpdateLosesNothing(s2.(intr := false));
  }

  lemma ReadPortLosesNothingIff(s: State, op: Op)
    requires op.ReadPort?
    requires Plain(s) && NothingLost(s) && !s.aborted
    ensures Plain(Step(s, op))
    ensures NothingLost(Step(s, op)) <==> !DropsCascade(s, op)
  {
    var regs := if op.onMaster then s.master else s.slave;
    if regs.poll {
      var s1 := PollRead(s, op.onMaster).0;
      PollReadLosesNothingIff(s, op.onMaster);
      PollFlagIrrelevant(s1.master, true);
      PollFlagIrrelevant(s1.slave, false);
    }
  }

  lemma PollFlagIrrelevant(s: Regs, isMaster: bool)
    ensures GetIrq(s.(poll := false), isMaster) == GetIrq(s, isMaster)
  {
  }

  lemma PollReadLosesNothingIff(s: State, onMaster: bool)
    requires Plain(s) && NothingLost(s)
    ensures
      var s' := PollRead(s, onMaster).0;
      && Plain(s')
      && (NothingLost(s') <==>
            !(onMaster && GetIrq(s.master, true) == CASCADE && GetIrq(s.slave, false) != NO_IRQ))
  {
    var line := GetIrq(if onMaster then s.master else s.slave, onMaster);
    UpdateLosesNothing(s);
    if line != NO_IRQ {
      var s1 := if onMaster
                then s.(master := s.master.(irr := s.master.irr - {line}, isr := s.master.isr - {line}))
                else s.(master := s.master.(irr := s.master.irr - {CASCADE}, isr := s.master.isr - {CASCADE}),
                        slave := s.slave.(irr := s.slave.irr - {line}, isr := s.slave.isr - {line}));
      UpdateLosesNothing(s1);
    }
  }

  /** Exactly when an operation keeps the property that nothing is lost. */
  lemma StepLosesNothingIff(s: State, op: Op)
    requires Plain(s) && PlainOp(s, op) && NothingLost(s) && !s.aborted
    ensures Plain(Step(s, op))
    ensures NothingLost(Step(s, op)) <==> !DropsCascade(s, op)
  {
    match op
    case SetIrq(onMaster, line, level) =>
      UpdateLosesNothing(if onMaster then s.(master := SetLine(s.master, line, level))
                         else s.(slave := SetLine(s.slave, line, level)));
    case TakeInterrupt => AcknowledgeLosesNothing(s);
    case WritePort(_, _, _) => WritePortLosesNothingIff(s, op);
    case ReadPort(_, _) => ReadPortLosesNothingIff(s, op);
  }

  const START: State := State(RESET, RESET, false, false)

  function Run(s: State, ops: seq<Op>): State {
    if ops == [] then s else Step(Run(s, ops[..|ops| - 1]), ops[|ops| - 1])
  }

  /** Every operation of the run is plain, does not give up, and does not drop
      the cascade where it happens. */
  ghost predicate KeepsCascade(ops: seq<Op>) {
    forall i :: 0 <= i < |ops| ==>
      var s := Run(START, ops[..i]);
      PlainOp(s, ops[i]) && !DropsCascade(s, ops[i]) && !s.aborted
  }

  /** No interrupt is lost in any state such a run reaches. */
  lemma {:induction false} RunLosesNothing(ops: seq<Op>)
    requires KeepsCascade(ops)
    ensures Plain(Run(START, ops)) && NothingLost(Run(START, ops))
  {
    if ops == [] {
      PriorityOfNone(0);
      assert RESET.irr - RESET.imr == {};
    } else {
      var last := |ops| - 1;
      forall i | 0 <= i < last
        ensures ops[..last][..i] == ops[..i] && ops[..last][i] == ops[i]
      {
      }
      RunLosesNothing(ops[..last]);
      StepLosesNothingIff(Run(START, ops[..last]), ops[last]);
    }
  }

  /** A slave request is pending when the master's initialisation starts: the
      write is an ordinary one, and the request is not delivered. */
  lemma LostAtInitialisation()
    ensures
      var s, op := Run(START, [SetIrq(false, 0, true)]), WritePort(true, false, 0x11);
      && Plain(s) && NothingLost(s) && !s.aborted && PlainOp(s, op)
      && DropsCascade(s, op) && !NothingLost(Step(s, op)) && GetIrq(Step(s, op).slave, false) == 0
  {
    var s := OneRequest();
    var op := WritePort(true, false, 0x11);
    StepLosesNothingIff(s, op);
    assert Step(s, op).slave == s.slave;
  }

  lemma OneRequest() returns (s: State)
    ensures s == Run(START, [SetIrq(false, 0, true)]) && !s.aborted
    ensures Plain(s) && NothingLost(s) && GetIrq(s.slave, false) == 0 && GetIrq(s.master, true) == CASCADE
  {
    var op := SetIrq(false, 0, true);
    s := Step(START, op);
    assert [op][..0] == [];
    assert Run(START, [op][..0]) == START;
    UpdateLosesNothing(START.(slave := SetLine(RESET, 0, true)));
    assert SetLine(RESET, 0, true).irr == {0};
    OnlyLine(SetLine(RESET, 0, true), false, 0);
    OnlyLine(s.master, true, CASCADE);
  }

  lemma OnlyLine(s: Regs, isMaster: bool, line: Line)
    requires s.irr == {line} && s.imr == {} && s.isr == {} && s.priorityAdd == 0
    ensures GetIrq(s, isMaster) == line
  {
    assert s.irr - s.imr == {line};
    assert Blocking(s, isMaster) == {};
    PriorityIsLeast({line}, 0, line);
    PriorityOfNone(0);
    assert Wrap(Priority({line}, 0) + 0) in {line};
  }

  /** The same for a polled read of the master. */
  lemma LostAtPoll()
    ensures
      var s, op := Run(START, [SetIrq(false, 0, true), WritePort(true, false, 0x0c)]), ReadPort(true, false);
      && Plain(s) && NothingLost(s) && !s.aborted && PlainOp(s, op)
      && DropsCascade(s, op) && !NothingLost(Step(s, op))
  {
    var s0 := OneRequest();
    var poll := WritePort(true, false, 0x0c);
    var ops := [SetIrq(false, 0, true), poll];
    assert ops[..1] == [SetIrq(false, 0, true)];
    var s, op := Step(s0, poll), ReadPort(true, false);
    assert s == s0.(master := s0.master.(poll := true));
    PollPending(s0.master, true);
    StepLosesNothingIff(s0, poll);
    StepLosesNothingIff(s, op);
  }

  lemma PollPending(s: Regs, isMaster: bool)
    ensures GetIrq(s.(poll := true), isMaster) == GetIrq(s, isMaster)
  {
  }

  // ------------------------------------------- fully nested mode is a stack

  /** Fixed priorities, no special mode, no automatic end of interrupt, no poll
      pending, initialisation done. */
  predicate Nested(s: Regs) {
    && s.priorityAdd == 0 && s.initState == 0
    && !s.specialMask && !s.specialFullyNested && !s.autoEoi && !s.poll
  }

  /** The non-specific end of interrupt. */
  predicate IsEnd(val: Byte) {
    0x20 <= val < 0x28
  }

  /** Which register is to be read, and no poll and no special mask. */
  predicate IsSelect(val: Byte) {
    HasBit(val, 3) && !HasBit(val, 4) && !HasBit(val, 2) && !(HasBit(val, 6) && HasBit(val, 5))
  }

  /** What a fully nested system does: inputs, interrupts, mask writes, the
      non-specific end of interrupt, reads and what selects them. */
  predicate NestedOp(op: Op) {
    match op
    case WritePort(_, data, val) => data || IsEnd(val) || IsSelect(val)
    case _ => true
  }

  /** The interrupts in service, the latest last, as a history keeps them: an
      acknowledge pushes, an end of interrupt pops. */
  datatype Nest = Nest(master: seq<Line>, slave: seq<Line>)

  function Push(stack: seq<Line>, line: int): seq<Line> {
    if 0 <= line < 8 then stack + [line] else stack
  }

  function Pop(stack: seq<Line>): seq<Line> {
    if stack == [] then [] else stack[..|stack| - 1]
  }

  /** How one operation changes the history's stacks. */
  function NestStep(s: State, n: Nest, op: Op): Nest {
    match op
    case TakeInterrupt =>
      var line := GetIrq(s.master, true);
      Nest(Push(n.master, line), if line == CASCADE then Push(n.slave, GetIrq(s.slave, false)) else n.slave)
    case WritePort(onMaster, false, val) =>
      if !IsEnd(val) then n else if onMaster then n.(master := Pop(n.master)) else n.(slave := Pop(n.slave))
    case _ => n
  }

  /** The stack's urgency strictly rises, and its lines are those in service. */
  ghost predicate IsNest(stack: seq<Line>, isr: set<Line>) {
    && (forall i, j :: 0 <= i < j < |stack| ==> stack[i] > stack[j])
    && forall l: Line :: l in isr <==> l in stack
  }

  ghost predicate NestInv(s: State, n: Nest) {
    && Nested(s.master) && Nested(s.slave)
    && IsNest(n.master, s.master.isr) && IsNest(n.slave, s.slave.isr)
  }

  /** The top of the stack is the most urgent line in service, so the
      non-specific end of interrupt retires the latest one acknowledged. */
  lemma TopIsMostUrgent(stack: seq<Line>, isr: set<Line>)
    requires IsNest(stack, isr)
    ensures Priority(isr, 0) == if stack == [] then 8 else stack[|stack| - 1]
  {
    if stack == [] {
      assert isr == {};
      PriorityOfNone(0);
    } else {
      var top := stack[|stack| - 1];
      PriorityIsLeast(isr, 0, top);
      var p := Priority(isr, 0);
      assert Wrap(p + 0) in stack;
    }
  }

  lemma EndOfInterruptPops(s: Regs, stack: seq<Line>)
    requires Nested(s) && IsNest(stack, s.isr)
    ensures
      var s' := WriteCommand(s, 1, 0).0;
      Nested(s') && IsNest(Pop(stack), s'.isr)
  {
    TopIsMostUrgent(stack, s.isr);
    if stack != [] {
      var top := stack[|stack| - 1];
      assert forall l: Line :: l in stack <==> l == top || l in Pop(stack) by {
        assert stack == Pop(stack) + [top];
      }
    }
  }

  /** Only a request more urgent than everything in service is acknowledged. */
  lemma AcknowledgePushes(s: Regs, isMaster: bool, stack: seq<Line>)
    requires Nested(s) && IsNest(stack, s.isr) && GetIrq(s, isMaster) != NO_IRQ
    ensures
      var line := GetIrq(s, isMaster);
      Nested(IntAck(s, line)) && IsNest(Push(stack, line), IntAck(s, line).isr)
  {
    TopIsMostUrgent(stack, s.isr);
    var line := GetIrq(s, isMaster);
    assert forall l: Line :: l in Push(stack, line) <==> l in stack || l == line;
  }

  lemma UpdateKeepsNest(s: State, n: Nest)
    requires NestInv(s, n)
    ensures NestInv(Update(s), n)
  {
  }

  /** In fully nested mode every step keeps the lines in service of both
      controllers equal to the history's stacks, strictly rising in urgency. */
  lemma StepKeepsNest(s: State, n: Nest, op: Op)
    requires NestInv(s, n) && NestedOp(op) && !s.aborted
    ensures NestInv(Step(s, op), NestStep(s, n, op)) && !Step(s, op).aborted
  {
    match op
    case SetIrq(onMaster, line, level) =>
      UpdateKeepsNest(if onMaster then s.(master := SetLine(s.master, line, level))
                      else s.(slave := SetLine(s.slave, line, level)), n);
    case TakeInterrupt => TakeKeepsNest(s, n);
    case WritePort(onMaster, data, val) =>
      var regs := if onMaster then s.master else s.slave;
      if IsSelect(val) && !data {
        SelectKeepsNest(s, n, onMaster, val);
      } else {
        EndOfInterruptPops(regs, if onMaster then n.master else n.slave);
        var regs' := WriteRegs(regs, data, val).0;
        UpdateKeepsNest(if onMaster then s.(master := regs') else s.(slave := regs'), NestStep(s, n, op));
      }
    case ReadPort(_, _) =>
  }

  lemma SelectKeepsNest(s: State, n: Nest, onMaster: bool, val: Byte)
    requires NestInv(s, n) && IsSelect(val) && !s.aborted
    ensures NestInv(Step(s, WritePort(onMaster, false, val)), n) && !Step(s, WritePort(onMaster, false, val)).aborted
    ensures !IsEnd(val)
  {
    var regs := if onMaster then s.master else s.slave;
    assert WriteRegs(regs, false, val) == (WriteMode(regs, val), false);
  }

  /** The words of an initialisation for fully nested mode: cascaded, with a fourth
      word that asks for no other mode. */
  datatype Words = Words(icw1: Byte, base: Byte, icw3: Byte, icw4: Byte) {
    predicate Nested() {
      && HasBit(icw1, 4) && !HasBit(icw1, 3) && !HasBit(icw1, 1) && HasBit(icw1, 0)
      && !HasBit(icw4, 4) && !HasBit(icw4, 1)
    }

    function Ops(onMaster: bool): seq<Op> {
      [WritePort(onMaster, false, icw1), WritePort(onMaster, true, base), WritePort(onMaster, true, icw3), WritePort(onMaster, true, icw4)]
    }

    function Regs(): Regs {
      RESET.(irqBase := base - base % 8, init4 := true)
    }
  }

  lemma StartIsNested()
    ensures NestInv(START, Nest([], []))
  {
  }

  lemma {:induction false} RunOn(s: State, a: seq<Op>, b: seq<Op>)
    ensures Run(s, a + b) == Run(Run(s, a), b)
  {
    if b == [] {
      assert a + b == a;
    } else {
      var last := |b| - 1;
      assert (a + b)[..|a| + last] == a + b[..last];
      RunOn(s, a, b[..last]);
    }
  }

  lemma RunOne(s: State, op: Op)
    ensures Run(s, [op]) == Step(s, op)
  {
    assert [op][..0] == [];
    assert Run(s, []) == s;
  }

  lemma RunFour(s: State, a: Op, b: Op, c: Op, d: Op)
    ensures Run(s, [a, b, c, d]) == Step(Step(Step(Step(s, a), b), c), d)
  {
    hide Step, Run;
    RunOn(s, [a, b, c], [d]);
    RunOn(s, [a, b], [c]);
    RunOn(s, [a], [b]);
    RunOne(s, a);
    RunOne(Step(s, a), b);
    RunOne(Step(Step(s, a), b), c);
    RunOne(Step(Step(Step(s, a), b), c), d);
    assert [a] + [b] == [a, b] && [a, b] + [c] == [a, b, c] && [a, b, c] + [d] == [a, b, c, d];
  }

  /** The four words set a controller up, whatever it did before. */
  lemma InitOne(s: State, onMaster: bool, w: Words)
    requires !s.aborted && w.Nested()
    ensures Run(s, w.Ops(onMaster)) == if onMaster then s.(master := w.Regs()) else s.(slave := w.Regs())
  {
    RunFour(s, w.Ops(onMaster)[0], w.Ops(onMaster)[1], w.Ops(onMaster)[2], w.Ops(onMaster)[3]);
    var r1 := RESET.(initState := 1, init4 := true);
    var r2 := r1.(irqBase := w.base - w.base % 8, initState := 2);
    WordOne(s, onMaster, w);
    WordNext(if onMaster then s.(master := r1) else s.(slave := r1), onMaster, w.base, r1, r2);
    WordNext(if onMaster then s.(master := r2) else s.(slave := r2), onMaster, w.icw3, r2, r2.(initState := 3));
    WordNext(if onMaster then s.(master := r2.(initState := 3)) else s.(slave := r2.(initState := 3)), onMaster, w.icw4,
             r2.(initState := 3), w.Regs());
  }

  lemma WordOne(s: State, onMaster: bool, w: Words)
    requires !s.aborted && w.Nested()
    ensures
      var r1 := RESET.(initState := 1, init4 := true);
      Step(s, WritePort(onMaster, false, w.icw1)) == if onMaster then s.(master := r1) else s.(slave := r1)
  {
  }

  lemma WordNext(s: State, onMaster: bool, val: Byte, r: Regs, r': Regs)
    requires !s.aborted && r == (if onMaster then s.master else s.slave) && r.initState != 0 && r' == WriteData(r, val).0
    ensures Step(s, WritePort(onMaster, true, val)) == if onMaster then s.(master := r') else s.(slave := r')
  {
  }

  /** Initialising both controllers starts with nothing in service. */
  lemma InitIsNested(s: State, master: Words, slave: Words)
    requires !s.aborted && master.Nested() && slave.Nested()
    ensures NestInv(Run(s, master.Ops(true) + slave.Ops(false)), Nest([], []))
  {
    RunOn(s, master.Ops(true), slave.Ops(false));
    InitOne(s, true, master);
    InitOne(s.(master := master.Regs()), false, slave);
  }

  /** With vectors from 0x08 and 0x70 on, as usual, a rising edge on the slave's line
      0 is delivered as 0x70, and line 2 of the master and line 0 of the slave are
      then in service. */
  lemma ClockExample(s: State, master: Words, slave: Words)
    requires !s.aborted && master.Nested() && slave.Nested() && master.base == 0x08 && slave.base == 0x70 && !s.intr
    ensures
      var s0 := Run(s, master.Ops(true) + slave.Ops(false));
      var s1 := Step(s0, SetIrq(false, 0, true));
      && s1.intr && Acknowledge(s1).1 == 0x70
      && Acknowledge(s1).0.master.isr == {2} && Acknowledge(s1).0.slave.isr == {0}
  {
    hide Run, HasBit, GetIrq;
    RunOn(s, master.Ops(true), slave.Ops(false));
    InitOne(s, true, master);
    InitOne(s.(master := master.Regs()), false, slave);
    var s0 := Run(s, master.Ops(true) + slave.Ops(false));
    var raised := SetLine(s0.slave, 0, true);
    assert raised.irr == {0};
    OnlyLine(raised, false, 0);
    var s1 := Step(s0, SetIrq(false, 0, true));
    assert s1.master.irr == {2};
    OnlyLine(s1.master, true, 2);
    var m, l := IntAck(s1.master, 2), IntAck(s1.slave, 0);
    PriorityOfNone(0);
    assert m.irr - m.imr == {} && l.irr - l.imr == {};
  }

  /** After its four words a controller's vectors start at the second word, rounded
      down to a multiple of eight. */
  lemma BaseAfterInit(s: State, onMaster: bool, w: Words)
    requires !s.aborted && w.Nested()
    ensures (if onMaster then Run(s, w.Ops(onMaster)).master else Run(s, w.Ops(onMaster)).slave).irqBase == w.base - w.base % 8
  {
    InitOne(s, onMaster, w);
  }

  lemma TakeKeepsNest(s: State, n: Nest)
    requires NestInv(s, n)
    ensures NestInv(Acknowledge(s).0, NestStep(s, n, TakeInterrupt))
  {
    var n' := NestStep(s, n, TakeInterrupt);
    var line := GetIrq(s.master, true);
    var line2 := GetIrq(s.slave, false);
    if line != NO_IRQ {
      AcknowledgePushes(s.master, true, n.master);
    }
    if line == CASCADE && line2 != NO_IRQ {
      AcknowledgePushes(s.slave, false, n.slave);
    }
    var s1 := if line == NO_IRQ then s else s.(master := IntAck(s.master, line));
    var s2 := if line == CASCADE && line2 != NO_IRQ then s1.(slave := IntAck(s1.slave, line2)) else s1;
    UpdateKeepsNest(s2.(intr := false), n');
  }

  function NestRun(s: State, n: Nest, ops: seq<Op>): Nest {
    if ops == [] then n
    else NestStep(Run(s, ops[..|ops| - 1]), NestRun(s, n, ops[..|ops| - 1]), ops[|ops| - 1])
  }

  /** The same over every run of fully nested operations from such a state. */
  lemma {:induction false} RunKeepsNest(s: State, n: Nest, ops: seq<Op>)
    requires NestInv(s, n) && !s.aborted
    requires forall i :: 0 <= i < |ops| ==> NestedOp(ops[i])
    ensures NestInv(Run(s, ops), NestRun(s, n, ops)) && !Run(s, ops).aborted
  {
    if ops != [] {
      var before := ops[..|ops| - 1];
      RunKeepsNest(s, n, before);
      StepKeepsNest(Run(s, before), NestRun(s, n, before), ops[|ops| - 1]);
    }
  }

  // ---------------------------------------------------------------- the chip

  /** get_priority: the search for the most urgent line, as the chip does it. */
  method FindPriority(mask: set<Line>, add: Line) returns (priority: nat)
    ensures priority == Priority(mask, add)
  {
    if mask == {} {
      PriorityOfNone(add);
      return 8;
    }
    var some :| some in mask;
    PriorityIsLeast(mask, add, some);
    priority := 0;
    while Wrap(priority + add) !in mask
      invariant priority <= Rank(some, add)
      invariant PriorityFrom(mask, add, 0) == PriorityFrom(mask, add, priority)
      decreases 8 - priority
    {
      assert Wrap(Rank(some, add) + add) == some;
      priority := priority + 1;
    }
  }

  class Controllers {
    var master: Regs
    var slave: Regs
    var intr: bool
    var aborted: bool

    function Abs(): State
      reads this
    {
      State(master, slave, intr, aborted)
    }

    constructor ()
      ensures Abs() == START
    {
      master, slave, intr, aborted := RESET, RESET, false, false;
    }

    method FindIrq(onMaster: bool) returns (line: int)
      ensures line == GetIrq(if onMaster then master else slave, onMaster)
    {
      var s := if onMaster then master else slave;
      var priority := FindPriority(s.irr - s.imr, s.priorityAdd);
      if priority == 8 {
        return NO_IRQ;
      }
      var mask := s.isr;
      if s.specialMask {
        mask := mask - s.imr;
      }
      if s.specialFullyNested && onMaster {
        mask := mask - {CASCADE};
      }
      var current := FindPriority(mask, s.priorityAdd);
      line := if priority < current then Wrap(priority + s.priorityAdd) else NO_IRQ;
    }

    method UpdateIrq()
      modifies this
      ensures Abs() == Update(old(Abs()))
    {
      var line2 := FindIrq(false);
      if line2 >= 0 {
        master := SetLine(master, CASCADE, true);
        master := SetLine(master, CASCADE, false);
      }
      var line := FindIrq(true);
      if line >= 0 {
        intr := true;
      }
    }

    method SetIrq(onMaster: bool, line: Line, level: bool)
      requires !aborted
      modifies this
      ensures Abs() == Step(old(Abs()), Op.SetIrq(onMaster, line, level))
    {
      if onMaster {
        master := SetLine(master, line, level);
      } else {
        slave := SetLine(slave, line, level);
      }
      UpdateIrq();
    }

    /** The CPU takes an interrupt: it clears its flag and asks for the vector. */
    method ReadIrq() returns (vector: int)
      requires !aborted
      modifies this
      ensures Abs() == Step(old(Abs()), TakeInterrupt)
      ensures
        var line, line2 := old(GetIrq(master, true)), old(GetIrq(slave, false));
        vector == if line == -1 then old(master.irqBase) + 7
                  else if line != 2 then old(master.irqBase) + line
                  else if line2 != -1 then old(slave.irqBase) + line2
                  else old(slave.irqBase) + 7
    {
      intr := false;
      var line := FindIrq(true);
      if line >= 0 {
        master := IntAck(master, line);
        if line == CASCADE {
          var line2 := FindIrq(false);
          if line2 >= 0 {
            slave := IntAck(slave, line2);
          } else {
            line2 := 7;
          }
          vector := slave.irqBase + line2;
        } else {
          vector := master.irqBase + line;
        }
      } else {
        vector := master.irqBase + 7;
      }
      UpdateIrq();
    }

    method Write(onMaster: bool, data: bool, val: Byte)
      requires !aborted
      modifies this
      ensures Abs() == Step(old(Abs()), WritePort(onMaster, data, val))
    {
      var (regs, update) := WriteRegs(if onMaster then master else slave, data, val);
      if onMaster {
        master := regs;
      } else {
        slave := regs;
      }
      if !data && HasBit(val, 4) && HasBit(val, 3) {
        aborted := true;
      } else if update {
        UpdateIrq();
      }
    }

    method Read(onMaster: bool, data: bool) returns (val: set<Line>, line: int)
      requires !aborted
      modifies this
      ensures Abs() == Step(old(Abs()), ReadPort(onMaster, data))
      ensures
        var s := old(if onMaster then master else slave);
        if s.poll then line == if GetIrq(s, onMaster) == -1 then 7 else GetIrq(s, onMaster)
        else line == NO_IRQ && val == if data then s.imr else if s.readIsr then s.isr else s.irr
    {
      var s := if onMaster then master else slave;
      val, line := {}, NO_IRQ;
      if s.poll {
        line := FindIrq(onMaster);
        if line >= 0 {
          if onMaster {
            master := master.(irr := master.irr - {line}, isr := master.isr - {line});
          } else {
            master := master.(irr := master.irr - {CASCADE}, isr := master.isr - {CASCADE});
            slave := slave.(irr := slave.irr - {line}, isr := slave.isr - {line});
          }
          if !onMaster || line != CASCADE {
            UpdateIrq();
          }
        } else {
          line := 7;
          UpdateIrq();
        }
        if onMaster {
          master := master.(poll := false);
        } else {
          slave := slave.(poll := false);
        }
      } else if data {
        val := s.imr;
      } else if s.readIsr {
        val := s.isr;
      } else {
        val := s.irr;
      }
    }
  }
}
